/**
 The page protocol end to end (tools/nova/wire.py, tools/nova/web.py, ui/ui.c):
 however the network cuts the encoded reply into reads, the guest rebuilds the
 page exactly and shows it only when it is complete.
 */
module Framing {
  import opened VmTypes
  import Bytes
  import opened Wire
  import opened Browser

  const LINE_MAX := 885

  // ----- reads

  function Concat(inputs: seq<Chars>): Chars {
    if inputs == [] then [] else Concat(inputs[..|inputs| - 1]) + inputs[|inputs| - 1]
  }

  function PollAll(g: Guest, inputs: seq<Chars>): Guest {
    if inputs == [] then g else Poll(PollAll(g, inputs[..|inputs| - 1]), inputs[|inputs| - 1])
  }

  /** Draining in two goes is draining at once. */
  lemma {:induction false} DrainJoin(g: Guest, a: Chars, b: Chars)
    ensures Drain(Drain(g, a), Drain(g, a).wire + b) == Drain(g, a + b)
    decreases |a|
  {
    hide Drain, Handle, IndexOf;
    DrainStep(g, a);
    var i := IndexOf(a, NEWLINE);
    IndexFacts(a, NEWLINE);
    if i == |a| {
      DrainIgnoresWire(g, a, a + b);
    } else {
      IndexUnique(a + b, NEWLINE, i);
      DrainStep(g, a + b);
      assert (a + b)[..i] == a[..i] && (a + b)[i + 1..] == a[i + 1..] + b;
      DrainJoin(Handle(g, a[..i]), a[i + 1..], b);
    }
  }

  lemma IndexFacts(text: Chars, c: byte)
    ensures var i := IndexOf(text, c);
      i <= |text| && (i < |text| ==> text[i] == c) && forall k :: 0 <= k < i ==> text[k] != c
  {
  }

  /** Lines fit to be sent: short, and free of line breaks. */
  ghost predicate Sendable(lines: seq<string>) {
    forall i :: 0 <= i < |lines| ==> |lines[i]| <= LINE_MAX && NEWLINE !in Ascii(lines[i])
  }

  /** Wherever the stream is cut, at most one unfinished line is left on the wire. */
  lemma {:induction false} WireBound(g: Guest, lines: seq<string>, n: nat)
    requires Sendable(lines) && n <= |Encode(lines)|
    ensures |Drain(g, Encode(lines)[..n]).wire| <= LINE_MAX
    decreases |lines|
  {
    hide Drain, Handle, IndexOf;
    var p := Encode(lines)[..n];
    DrainStep(g, p);
    if lines == [] {
      IndexUnique(p, NEWLINE, 0);
    } else {
      var line := Ascii(lines[0]);
      FirstLine(lines, n);
      if n > |line| {
        WireBound(Handle(g, line), lines[1..], n - |line| - 1);
      }
    }
  }

  /** The first line of a cut stream. */
  lemma FirstLine(lines: seq<string>, n: nat)
    requires Sendable(lines) && lines != [] && n <= |Encode(lines)|
    ensures var p, line, rest := Encode(lines)[..n], Ascii(lines[0]), Encode(lines[1..]);
      && |Encode(lines)| == |line| + 1 + |rest|
      && IndexOf(p, NEWLINE) == (if n > |line| then |line| else |p|)
      && (n > |line| ==> p[..|line|] == line && p[|line| + 1..] == rest[..n - |line| - 1])
      && (n <= |line| ==> |p| <= LINE_MAX)
  {
    hide IndexOf;
    var p, line := Encode(lines)[..n], Ascii(lines[0]);
    var rest := Encode(lines[1..]);
    assert Encode(lines) == line + [NEWLINE] + rest;
    if n > |line| {
      assert p == line + [NEWLINE] + rest[..n - |line| - 1];
      assert p[..|line|] == line && p[|line| + 1..] == rest[..n - |line| - 1];
      IndexUnique(p, NEWLINE, |line|);
    } else {
      assert p == line[..n];
      IndexUnique(p, NEWLINE, |p|);
    }
  }

  /** However the stream is cut into reads, no byte is dropped and the guest sees the same lines. */
  lemma {:induction false} AnyReads(g: Guest, lines: seq<string>, inputs: seq<Chars>)
    requires Sendable(lines) && g.wire == [] && Concat(inputs) <= Encode(lines)
    requires forall i :: 0 <= i < |inputs| ==> 0 < |inputs[i]| <= READ_MAX
    ensures PollAll(g, inputs) == Drain(g, Concat(inputs))
    decreases |inputs|
  {
    hide Drain;
    if inputs == [] {
      DrainStep(g, []);
    } else {
      var before, last := inputs[..|inputs| - 1], inputs[|inputs| - 1];
      AnyReads(g, lines, before);
      var p := Concat(before);
      assert p == Encode(lines)[..|p|];
      WireBound(g, lines, |p|);
      var middle := Drain(g, p);
      assert Kept(middle, last) == last;
      DrainJoin(g, p, last);
    }
  }

  // ----- lines

  function HandleAll(g: Guest, lines: seq<string>): Guest
    decreases |lines|
  {
    if lines == [] then g else HandleAll(Handle(g, Ascii(lines[0])), lines[1..])
  }

  lemma HandleStep(g: Guest, lines: seq<string>)
    ensures lines == [] ==> HandleAll(g, lines) == g
    ensures lines != [] ==> HandleAll(g, lines) == HandleAll(Handle(g, Ascii(lines[0])), lines[1..])
  {
    hide Handle;
  }

  lemma {:induction false} DrainWhole(g: Guest, lines: seq<string>)
    requires Sendable(lines)
    ensures Drain(g, Encode(lines)) == HandleAll(g, lines).(wire := [])
    decreases |lines|
  {
    hide Drain, Handle, IndexOf;
    var all := Encode(lines);
    DrainStep(g, all);
    if lines == [] {
      IndexUnique(all, NEWLINE, 0);
    } else {
      FirstLine(lines, |all|);
      assert all[..|all|] == all;
      DrainWhole(Handle(g, Ascii(lines[0])), lines[1..]);
    }
  }

  lemma {:induction false} HandleJoin(g: Guest, a: seq<string>, b: seq<string>)
    ensures HandleAll(g, a + b) == HandleAll(HandleAll(g, a), b)
    decreases |a|
  {
    hide Handle;
    if a == [] {
      assert a + b == b;
    } else {
      HandleJoin(Handle(g, Ascii(a[0])), a[1..], b);
      assert (a + b)[1..] == a[1..] + b;
    }
  }

  // ----- what each line of a page does

  lemma SplitAtTab(a: Chars, b: Chars)
    requires TAB !in a
    ensures SplitField(a + [TAB] + b) == Some(Field(a, b))
  {
    var text := a + [TAB] + b;
    IndexUnique(text, TAB, |a|);
    assert text[..|a|] == a && text[|a| + 1..] == b;
  }

  /** The page as the guest shows it. */
  function Expected(page: Page): GuestPage {
    GuestPage(Ascii(SafeTitle(page)), Ascii(SafeUrl(page)), StatusLine(Ascii(Digits(page.status))),
              Ascii(SafeText(page)), Shown(page.links))
  }

  function Shown(links: seq<Link>): (shown: seq<GuestLink>)
    ensures |shown| == |links|
    ensures forall i :: 0 <= i < |links| ==> shown[i] == GuestLink(Ascii(links[i].caption), Ascii(links[i].url))
  {
    seq(|links|, i requires 0 <= i < |links| => GuestLink(Ascii(links[i].caption), Ascii(links[i].url)))
  }

  /** The verb of a line decides; the rest has no NUL in it. */
  lemma PageVerb(g: Guest, rest: Chars)
    requires 0 !in rest
    ensures Handle(g, PAGE_ + rest) == StagePage(g, rest)
  {
    hide StagePage, SplitField, Bytes.CString;
    VerbText(PAGE_, rest);
  }

  lemma BodyVerb(g: Guest, rest: Chars)
    requires 0 !in rest && g.active
    ensures Handle(g, BODY_ + rest) == g.(staged := g.staged.(body := Fit(g.staged.body + rest, 8192)))
  {
    hide StagePage, SplitField, Bytes.CString;
    VerbText(BODY_, rest);
  }

  lemma LinkVerb(g: Guest, rest: Chars)
    requires 0 !in rest && g.active
    ensures Handle(g, LINK_ + rest) == StageLink(g, rest)
  {
    hide StagePage, SplitField, Bytes.CString;
    VerbText(LINK_, rest);
  }

  function StageLink(g: Guest, rest: Chars): Guest {
    match SplitField(rest)
    case None => g
    case Some(f) =>
      if |g.staged.links| >= MAX_LINKS then g
      else g.(staged := g.staged.(links := g.staged.links + [GuestLink(Fit(f.first, 64), Fit(f.rest, 224))]))
  }

  lemma VerbText(verb: Chars, rest: Chars)
    requires 0 !in rest && |verb| == 5 && 0 !in verb && verb[0] != 78 && verb[0] != 65
    ensures var line := verb + rest;
      && Bytes.CString(line) == line && line[5..] == rest && verb <= line && line != READY && !(ANSWER_ <= line)
      && forall other: Chars :: |other| == 5 && other <= line ==> other == verb
  {
    var line := verb + rest;
    assert line[0] == verb[0];
    forall other: Chars | |other| == 5 && other <= line ensures other == verb {
      assert other == line[..5] == verb;
    }
  }

  lemma BodyLine(g: Guest, piece: string)
    requires g.active && Clean(piece) && |g.staged.body| + |piece| < 8192
    ensures Handle(g, Ascii("BODY " + piece)) == g.(staged := g.staged.(body := g.staged.body + Ascii(piece)))
  {
    hide Handle;
    AsciiJoin("BODY ", piece);
    AsciiClean(piece);
    assert Ascii("BODY ") == BODY_;
    BodyVerb(g, Ascii(piece));
  }

  lemma LinkArrives(g: Guest, link: Link)
    requires g.active && LinkBounded(link) && |g.staged.links| < MAX_LINKS
    ensures Handle(g, Ascii(LinkLine(link))) ==
      g.(staged := g.staged.(links := g.staged.links + [GuestLink(Ascii(link.caption), Ascii(link.url))]))
  {
    hide Handle, SplitField;
    var caption, url := Ascii(link.caption), Ascii(link.url);
    LinkText(link);
    AsciiClean(link.caption);
    AsciiClean(link.url);
    LinkVerb(g, caption + [TAB] + url);
    SplitAtTab(caption, url);
  }

  lemma LinkText(link: Link)
    ensures Ascii(LinkLine(link)) == LINK_ + (Ascii(link.caption) + [TAB] + Ascii(link.url))
  {
    var fields := link.caption + "\t" + link.url;
    assert LinkLine(link) == "LINK " + fields;
    AsciiJoin("LINK ", fields);
    AsciiJoin(link.caption + "\t", link.url);
    AsciiJoin(link.caption, "\t");
    assert Ascii("\t") == [TAB];
    assert Ascii("LINK ") == LINK_;
  }

  lemma HeaderText(page: Page, front: string)
    ensures Ascii(Header(page) + front) == PAGE_ + (Ascii(Digits(page.status)) + [TAB] +
      (Ascii(SafeTitle(page)) + [TAB] + (Ascii(SafeUrl(page)) + [TAB] + Ascii(front))))
  {
    hide SafeTitle, SafeUrl, Digits, Ascii;
    var status, title, url := Digits(page.status), SafeTitle(page), SafeUrl(page);
    var rest2 := url + "\t" + front;
    var rest1 := title + "\t" + rest2;
    HeaderShape(status, title, url, front);
    AsciiJoin("PAGE ", status + "\t" + rest1);
    PageVerbText();
    FieldText(status, rest1);
    FieldText(title, rest2);
    FieldText(url, front);
  }

  lemma HeaderShape(status: string, title: string, url: string, front: string)
    ensures "PAGE " + status + "\t" + title + "\t" + url + "\t" + front ==
      "PAGE " + (status + "\t" + (title + "\t" + (url + "\t" + front)))
  {
  }

  lemma PageVerbText()
    ensures Ascii("PAGE ") == PAGE_
  {
  }

  lemma FieldText(field: string, rest: string)
    ensures Ascii(field + "\t" + rest) == Ascii(field) + [TAB] + Ascii(rest)
  {
    AsciiJoin(field + "\t", rest);
    AsciiJoin(field, "\t");
    assert Ascii("\t") == [TAB];
  }

  lemma FieldsClean(page: Page)
    requires Bounded(page)
    ensures Clean(SafeTitle(page)) && Clean(SafeUrl(page)) && Clean(SafeText(page)) && Clean(Digits(page.status))
  {
    SqueezeClean(page.title, false, false);
    SqueezeClean(page.url, false, false);
    SqueezeClean(page.body, false, false);
    DigitsClean(page.status);
  }

  /** The opening line stages status, title and address, and the front of the text. */
  lemma PageLine(g: Guest, page: Page, front: string)
    requires Bounded(page) && Clean(front) && |front| < 8192
    ensures Handle(g, Ascii(Header(page) + front)) ==
      g.(active := true, staged := Expected(page).(body := Ascii(front), links := []))
  {
    hide Handle, SplitField, SafeTitle, SafeUrl, SafeText, Digits, StatusLine;
    var status, title, url := Ascii(Digits(page.status)), Ascii(SafeTitle(page)), Ascii(SafeUrl(page));
    FieldsClean(page);
    FieldSizes(page);
    AsciiClean(Digits(page.status));
    AsciiClean(SafeTitle(page));
    AsciiClean(SafeUrl(page));
    AsciiClean(front);
    HeaderText(page, front);
    var rest2 := url + [TAB] + Ascii(front);
    var rest1 := title + [TAB] + rest2;
    PageVerb(g, status + [TAB] + rest1);
    SplitAtTab(status, rest1);
    SplitAtTab(title, rest2);
    SplitAtTab(url, Ascii(front));
  }

  lemma FieldSizes(page: Page)
    ensures |SafeTitle(page)| <= MAX_TITLE && |SafeUrl(page)| <= MAX_URL && |SafeText(page)| <= MAX_PAGE_TEXT
  {
  }

  lemma EndLine(g: Guest)
    requires g.active
    ensures Handle(g, Ascii("PAGEEND")) == g.(shown := g.staged, active := false)
  {
    hide StagePage, SplitField, Bytes.CString;
    assert Ascii("PAGEEND") == PAGEEND;
    assert PAGEEND[4] == 69 && PAGEEND[0] == 80;
    assert 0 !in PAGEEND;
  }

  // ----- whole pages

  lemma {:induction false} BodyLines(g: Guest, pieces: seq<string>)
    requires g.active && (forall i :: 0 <= i < |pieces| ==> Clean(pieces[i]))
    requires |g.staged.body| + |Join(pieces)| < 8192
    ensures HandleAll(g, Prefixed("BODY ", pieces)) ==
      g.(staged := g.staged.(body := g.staged.body + Ascii(Join(pieces))))
    decreases |pieces|
  {
    hide Handle;
    var lines := Prefixed("BODY ", pieces);
    if pieces == [] {
      assert Ascii("") == [] && g.staged.body + [] == g.staged.body;
    } else {
      BodyLine(g, pieces[0]);
      var next := Handle(g, Ascii(lines[0]));
      assert lines[1..] == Prefixed("BODY ", pieces[1..]);
      BodyLines(next, pieces[1..]);
      AsciiJoin(pieces[0], Join(pieces[1..]));
      assert (g.staged.body + Ascii(pieces[0])) + Ascii(Join(pieces[1..])) ==
        g.staged.body + (Ascii(pieces[0]) + Ascii(Join(pieces[1..])));
    }
  }

  lemma {:induction false} LinksArrive(g: Guest, links: seq<Link>)
    requires g.active && (forall i :: 0 <= i < |links| ==> LinkBounded(links[i]))
    requires |g.staged.links| + |links| <= MAX_LINKS
    ensures HandleAll(g, LinkLines(links)) == g.(staged := g.staged.(links := g.staged.links + Shown(links)))
    decreases |links|
  {
    hide Handle, HandleAll, LinkLine, LinkBounded, Ascii;
    var lines := LinkLines(links);
    HandleStep(g, lines);
    if links == [] {
      assert Shown(links) == [] && g.staged.links + [] == g.staged.links;
    } else {
      LinkArrives(g, links[0]);
      var one := GuestLink(Ascii(links[0].caption), Ascii(links[0].url));
      var next := g.(staged := g.staged.(links := g.staged.links + [one]));
      LinkLinesStep(links);
      LinksArrive(next, links[1..]);
      ShownStep(links);
      Appended(g.staged.links, one, Shown(links[1..]));
    }
  }

  lemma LinkLinesStep(links: seq<Link>)
    requires links != []
    ensures LinkLines(links) != [] && LinkLines(links)[0] == LinkLine(links[0])
    ensures LinkLines(links)[1..] == LinkLines(links[1..])
  {
    hide LinkLine;
  }

  lemma Appended<T>(before: seq<T>, one: T, rest: seq<T>)
    ensures (before + [one]) + rest == before + ([one] + rest)
  {
  }

  lemma ShownStep(links: seq<Link>)
    requires links != []
    ensures Shown(links) == [GuestLink(Ascii(links[0].caption), Ascii(links[0].url))] + Shown(links[1..])
  {
  }

  /** All lines of a page but the last. */
  function Staging(page: Page): seq<string> {
    var text, header := SafeText(page), Header(page);
    var front := Take(text, Available(header));
    [header + front] + Prefixed("BODY ", Pieces(text[|front|..])) + LinkLines(page.links)
  }

  /** Until PAGEEND the page is staged, whole, and what is shown stays. */
  lemma PageStaged(g: Guest, page: Page)
    requires Bounded(page)
    ensures HandleAll(g, Staging(page)) == g.(active := true, staged := Expected(page))
  {
    hide Handle, SafeTitle, SafeUrl, SafeText, Digits, Header, Pieces, StatusLine;
    var text, header := SafeText(page), Header(page);
    var front := Take(text, Available(header));
    var rest := text[|front|..];
    var first, bodies, links := [header + front], Prefixed("BODY ", Pieces(rest)), LinkLines(page.links);
    FieldsClean(page);
    FieldSizes(page);
    PageLine(g, page, front);
    var g1 := Handle(g, Ascii(header + front));
    assert first[1..] == [] && HandleAll(g, first) == HandleAll(g1, first[1..]);
    PiecesJoin(rest);
    PiecesClean(rest);
    BodyLines(g1, Pieces(rest));
    AsciiJoin(front, rest);
    assert text == front + rest;
    var g2 := g1.(staged := g1.staged.(body := Ascii(text)));
    LinksArrive(g2, page.links);
    assert [] + Shown(page.links) == Shown(page.links);
    HandleJoin(g, first, bodies);
    HandleJoin(g, first + bodies, links);
  }

  lemma {:induction false} PiecesClean(text: string)
    requires Clean(text)
    ensures forall i :: 0 <= i < |Pieces(text)| ==> Clean(Pieces(text)[i])
    decreases |text|
  {
    if text != "" {
      var front := Take(text, MAX_WIRE_LINE);
      PiecesClean(text[|front|..]);
      assert Pieces(text)[1..] == Pieces(text[|front|..]);
    }
  }

  /** The lines of a bounded page fit the guest's wire buffer. */
  lemma PageSendable(page: Page)
    requires Bounded(page)
    ensures Sendable(PageLines(page)) && PageLines(page) == Staging(page) + ["PAGEEND"]
  {
    hide SafeTitle, SafeUrl, SafeText, Digits, Pieces;
    var text, header := SafeText(page), Header(page);
    var front := Take(text, Available(header));
    var rest := text[|front|..];
    FieldsClean(page);
    FieldSizes(page);
    PiecesJoin(rest);
    PiecesClean(rest);
    SmallStatus(page.status);
    HeaderText(page, front);
    AsciiClean(Digits(page.status));
    AsciiClean(SafeTitle(page));
    AsciiClean(SafeUrl(page));
    AsciiClean(front);
    assert |header| <= 380 && NEWLINE !in Ascii(header + front);
    var lines := PageLines(page);
    forall i | 0 <= i < |lines| ensures |lines[i]| <= LINE_MAX && NEWLINE !in Ascii(lines[i]) {
      if 1 <= i <= |Pieces(rest)| {
        var piece := Pieces(rest)[i - 1];
        assert lines[i] == "BODY " + piece;
        AsciiJoin("BODY ", piece);
        AsciiClean(piece);
        assert Ascii("BODY ") == BODY_;
      } else if 1 + |Pieces(rest)| <= i < |lines| - 1 {
        var link := page.links[i - 1 - |Pieces(rest)|];
        assert lines[i] == LinkLine(link) && LinkBounded(link);
        LinkText(link);
        AsciiClean(link.caption);
        AsciiClean(link.url);
      } else if i > 0 {
        assert lines[i] == "PAGEEND" && Ascii("PAGEEND") == PAGEEND;
      }
    }
  }

  lemma SmallStatus(n: nat)
    requires n < 1000
    ensures |Digits(n)| <= 3
  {
    if n >= 10 {
      assert |Digits(n)| == |Digits(n / 10)| + 1;
      if n >= 100 {
        assert |Digits(n / 10)| == |Digits(n / 10 / 10)| + 1;
      }
    }
  }

  /**
   The round trip: for every bounded page and every way the network cuts the
   reply into reads of at most 256 bytes, the guest ends up showing exactly that
   page, with nothing left on the wire.
   */
  lemma PageArrives(g: Guest, page: Page, inputs: seq<Chars>)
    requires Bounded(page) && g.wire == []
    requires forall i :: 0 <= i < |inputs| ==> 0 < |inputs[i]| <= READ_MAX
    requires Concat(inputs) == Encode(PageLines(page))
    ensures PollAll(g, inputs) == Guest([], false, Expected(page), Expected(page))
  {
    hide Handle, Drain, Encode, PageLines, Staging, Expected, PollAll, Concat;
    PageSendable(page);
    AnyReads(g, PageLines(page), inputs);
    DrainWhole(g, PageLines(page));
    PageStaged(g, page);
    HandleJoin(g, Staging(page), ["PAGEEND"]);
    var staged := HandleAll(g, Staging(page));
    EndLine(staged);
    assert ["PAGEEND"][1..] == [];
    assert HandleAll(staged, ["PAGEEND"]) == Handle(staged, Ascii("PAGEEND"));
  }

  lemma {:induction false} HandlePrefix(g: Guest, page: Page, lines: seq<string>)
    requires Bounded(page) && lines <= Staging(page)
    ensures HandleAll(g, lines).shown == g.shown
    decreases |lines|
  {
    hide Handle, Staging;
    if lines != [] {
      var before, last := lines[..|lines| - 1], lines[|lines| - 1];
      assert lines == before + [last];
      HandlePrefix(g, page, before);
      HandleJoin(g, before, [last]);
      assert [last][1..] == [];
      StagingLine(HandleAll(g, before), page, |lines| - 1);
    }
  }

  /** No line before PAGEEND touches what is shown. */
  lemma StagingLine(g: Guest, page: Page, i: nat)
    requires Bounded(page) && i < |Staging(page)|
    ensures Handle(g, Ascii(Staging(page)[i])).shown == g.shown
  {
    hide SafeTitle, SafeUrl, SafeText, Digits, Pieces, Handle, Header, LinkLine, LinkBounded, Ascii;
    var text, header := SafeText(page), Header(page);
    var front := Take(text, Available(header));
    var rest := text[|front|..];
    FieldsClean(page);
    PiecesClean(rest);
    if i == 0 {
      HeaderKeepsShown(g, page, front);
    } else if i <= |Pieces(rest)| {
      assert Staging(page)[i] == "BODY " + Pieces(rest)[i - 1];
      BodyKeepsShown(g, Pieces(rest)[i - 1]);
    } else {
      assert Staging(page)[i] == LinkLine(page.links[i - 1 - |Pieces(rest)|]);
      LinkKeepsShown(g, page.links[i - 1 - |Pieces(rest)|]);
    }
  }

  lemma HeaderKeepsShown(g: Guest, page: Page, front: string)
    requires Bounded(page) && Clean(front)
    ensures Handle(g, Ascii(Header(page) + front)).shown == g.shown
  {
    hide SafeTitle, SafeUrl, SafeText, Digits, Handle, StagePage;
    FieldsClean(page);
    HeaderText(page, front);
    AsciiClean(Digits(page.status));
    AsciiClean(SafeTitle(page));
    AsciiClean(SafeUrl(page));
    AsciiClean(front);
    var fields := Ascii(Digits(page.status)) + [TAB] +
      (Ascii(SafeTitle(page)) + [TAB] + (Ascii(SafeUrl(page)) + [TAB] + Ascii(front)));
    PageVerb(g, fields);
    StageKeepsShown(g, fields);
  }

  lemma BodyKeepsShown(g: Guest, piece: string)
    requires Clean(piece)
    ensures Handle(g, Ascii("BODY " + piece)).shown == g.shown
  {
    hide StagePage, SplitField, Bytes.CString;
    AsciiJoin("BODY ", piece);
    AsciiClean(piece);
    assert Ascii("BODY ") == BODY_;
    VerbText(BODY_, Ascii(piece));
  }

  lemma LinkKeepsShown(g: Guest, link: Link)
    requires LinkBounded(link)
    ensures Handle(g, Ascii(LinkLine(link))).shown == g.shown
  {
    hide StagePage, SplitField, Bytes.CString;
    LinkText(link);
    AsciiClean(link.caption);
    AsciiClean(link.url);
    VerbText(LINK_, Ascii(link.caption) + [TAB] + Ascii(link.url));
  }

  lemma StageKeepsShown(g: Guest, fields: Chars)
    ensures StagePage(g, fields).shown == g.shown
  {
  }

  /** However many lines of a stream have arrived in full, they have been handled in order. */
  lemma {:induction false} DrainPrefix(g: Guest, lines: seq<string>, n: nat)
    requires Sendable(lines) && n < |Encode(lines)|
    ensures exists k: nat :: k < |lines| && Drain(g, Encode(lines)[..n]).shown == HandleAll(g, lines[..k]).shown
    decreases |lines|
  {
    hide Drain, Handle, IndexOf;
    var p, line := Encode(lines)[..n], Ascii(lines[0]);
    DrainStep(g, p);
    FirstLine(lines, n);
    if n <= |line| {
      assert lines[..0] == [];
      assert HandleAll(g, lines[..0]).shown == g.shown;
    } else {
      DrainPrefix(Handle(g, line), lines[1..], n - |line| - 1);
      var k: nat :| k < |lines[1..]| &&
        Drain(Handle(g, line), Encode(lines[1..])[..n - |line| - 1]).shown == HandleAll(Handle(g, line), lines[1..][..k]).shown;
      assert lines[..k + 1][1..] == lines[1..][..k];
      assert HandleAll(g, lines[..k + 1]) == HandleAll(Handle(g, line), lines[..k + 1][1..]);
    }
  }

  /** A page that has not arrived completely never replaces the one on screen. */
  lemma ShownUntilComplete(g: Guest, page: Page, inputs: seq<Chars>)
    requires Bounded(page) && g.wire == []
    requires forall i :: 0 <= i < |inputs| ==> 0 < |inputs[i]| <= READ_MAX
    requires Concat(inputs) <= Encode(PageLines(page)) && Concat(inputs) != Encode(PageLines(page))
    ensures PollAll(g, inputs).shown == g.shown
  {
    hide Handle, Drain, Encode, PageLines, Staging, PollAll, Concat;
    var lines, p := PageLines(page), Concat(inputs);
    PageSendable(page);
    AnyReads(g, lines, inputs);
    assert p == Encode(lines)[..|p|];
    DrainPrefix(g, lines, |p|);
    var k: nat :| k < |lines| && Drain(g, Encode(lines)[..|p|]).shown == HandleAll(g, lines[..k]).shown;
    assert lines[..k] == Staging(page)[..k];
    HandlePrefix(g, page, lines[..k]);
  }
}
