/** The bridge side of the page protocol (tools/nova/wire.py, tools/nova/web.py). */
module Wire {
  import opened VmTypes

  const MAX_WIRE_LINE := 880
  const MAX_PAGE_TEXT := 7000
  const MAX_LINKS := 24
  const MAX_LINK_LABEL := 48
  const MAX_LINK_URL := 200
  const MAX_URL := 220
  const MAX_TITLE := 100

  const TAB: byte := 9
  const NEWLINE: byte := 10

  /** What str.split treats as white space. */
  predicate Whitespace(c: char) {
    var x := c as int;
    || 9 <= x <= 13 || 28 <= x <= 32 || x == 0x85 || x == 0xA0 || x == 0x1680 || 0x2000 <= x <= 0x200A
    || x == 0x2028 || x == 0x2029 || x == 0x202F || x == 0x205F || x == 0x3000
  }

  /** The text with every run of white space between words collapsed to one space. */
  function Squeeze(text: string, gap: bool, started: bool): string {
    if text == "" then ""
    else if Whitespace(text[0]) then Squeeze(text[1..], true, started)
    else (if gap && started then " " else "") + [text[0]] + Squeeze(text[1..], false, true)
  }

  /** compact_text */
  function Compact(text: string): string {
    Squeeze(text, false, false)
  }

  /** A field that cannot be mistaken for framing: no NUL, tab or line break. */
  predicate Clean(text: string) {
    forall i :: 0 <= i < |text| ==> text[i] as int != 0 && text[i] as int != 9 && text[i] as int != 10
  }

  predicate NoNul(text: string) {
    forall i :: 0 <= i < |text| ==> text[i] as int != 0
  }

  lemma {:induction false} SqueezeClean(text: string, gap: bool, started: bool)
    requires NoNul(text)
    ensures Clean(Squeeze(text, gap, started))
    decreases |text|
  {
    if text != "" {
      SqueezeClean(text[1..], true, started);
      SqueezeClean(text[1..], false, true);
    }
  }

  /** Words stay words: every character that is not white space is kept, in order. */
  function Visible(text: string): string {
    if text == "" then "" else VisibleOne(text[0]) + Visible(text[1..])
  }

  function VisibleOne(c: char): string {
    if Whitespace(c) then "" else [c]
  }

  lemma {:induction false} VisibleJoin(a: string, b: string)
    ensures Visible(a + b) == Visible(a) + Visible(b)
  {
    hide VisibleOne;
    if a == "" {
      assert a + b == b;
    } else {
      VisibleJoin(a[1..], b);
      assert (a + b)[1..] == a[1..] + b;
      assert VisibleOne(a[0]) + (Visible(a[1..]) + Visible(b)) == (VisibleOne(a[0]) + Visible(a[1..])) + Visible(b);
    }
  }

  lemma {:induction false} SqueezeKeeps(text: string, gap: bool, started: bool)
    ensures Visible(Squeeze(text, gap, started)) == Visible(text)
    decreases |text|
  {
    if text != "" {
      var c, rest := text[0], text[1..];
      if Whitespace(c) {
        SqueezeKeeps(rest, true, started);
      } else {
        SqueezeKeeps(rest, false, true);
        var head := (if gap && started then " " else "") + [c];
        VisibleJoin(head, Squeeze(rest, false, true));
        VisibleJoin(if gap && started then " " else "", [c]);
        assert Visible([c]) == [c] + Visible([c][1..]) && [c][1..] == "";
        assert Visible(" ") == Visible(" "[1..]) && " "[1..] == "";
      }
    }
  }

  /** encode("ascii", "replace") */
  function Ascii(text: string): (bytes: seq<byte>)
    ensures |bytes| == |text|
    ensures forall i :: 0 <= i < |text| ==> bytes[i] == AsciiOne(text[i])
  {
    seq(|text|, i requires 0 <= i < |text| => AsciiOne(text[i]))
  }

  function AsciiOne(c: char): byte {
    if c as int < 128 then c as int as byte else 63
  }

  lemma AsciiJoin(a: string, b: string)
    ensures Ascii(a + b) == Ascii(a) + Ascii(b)
  {
  }

  lemma AsciiClean(text: string)
    requires Clean(text)
    ensures 0 !in Ascii(text) && TAB !in Ascii(text) && NEWLINE !in Ascii(text)
  {
  }

  // ----- lines

  function Take(text: string, n: nat): (front: string)
    ensures |front| <= n && |front| <= |text| && front == text[..|front|]
  {
    if |text| <= n then text else text[..n]
  }

  /** The text in pieces of at most 880 characters. */
  function Pieces(text: string): (pieces: seq<string>)
    decreases |text|
  {
    if text == "" then [] else [Take(text, MAX_WIRE_LINE)] + Pieces(text[|Take(text, MAX_WIRE_LINE)|..])
  }

  function Join(pieces: seq<string>): string {
    if pieces == [] then "" else pieces[0] + Join(pieces[1..])
  }

  /** Splitting is lossless. */
  lemma {:induction false} PiecesJoin(text: string)
    ensures Join(Pieces(text)) == text
    ensures forall i :: 0 <= i < |Pieces(text)| ==> |Pieces(text)[i]| <= MAX_WIRE_LINE
    decreases |text|
  {
    if text != "" {
      var front := Take(text, MAX_WIRE_LINE);
      PiecesJoin(text[|front|..]);
      assert text == front + text[|front|..];
      assert Pieces(text)[1..] == Pieces(text[|front|..]);
    }
  }

  function Prefixed(prefix: string, pieces: seq<string>): (lines: seq<string>)
    ensures |lines| == |pieces| && forall i :: 0 <= i < |lines| ==> lines[i] == prefix + pieces[i]
  {
    seq(|pieces|, i requires 0 <= i < |pieces| => prefix + pieces[i])
  }

  /** Room for text on the opening line. */
  function Available(header: string): nat {
    if MAX_WIRE_LINE - |header| > 80 then MAX_WIRE_LINE - |header| else 80
  }

  /** chunk_text */
  method ChunkText(text: string, prefix: string, header: string) returns (lines: seq<string>)
    ensures lines == if header == "" then Prefixed(prefix, Pieces(text))
      else [header + Take(text, Available(header))] + Prefixed(prefix, Pieces(text[|Take(text, Available(header))|..]))
  {
    var remaining := text;
    lines := [];
    if header != "" {
      var front := Take(text, Available(header));
      lines := [header + front];
      remaining := text[|front|..];
    }
    ghost var opening, rest := lines, remaining;
    ghost var done := [];
    while remaining != ""
      invariant Pieces(rest) == done + Pieces(remaining) && lines == opening + Prefixed(prefix, done)
      decreases |remaining|
    {
      var piece := Take(remaining, MAX_WIRE_LINE);
      lines := lines + [prefix + piece];
      assert Pieces(remaining) == [piece] + Pieces(remaining[|piece|..]);
      assert Prefixed(prefix, done + [piece]) == Prefixed(prefix, done) + [prefix + piece];
      done := done + [piece];
      remaining := remaining[|piece|..];
    }
    assert done + [] == done;
  }

  // ----- pages

  datatype Link = Link(caption: string, url: string)

  datatype Page = Page(status: nat, url: string, title: string, body: string, links: seq<Link>)

  function Digits(n: nat): (text: string)
    ensures |text| > 0
  {
    var last := [('0' as int + n % 10) as char];
    if n < 10 then last else Digits(n / 10) + last
  }

  lemma {:induction false} DigitsClean(n: nat)
    ensures Clean(Digits(n))
  {
    if n >= 10 {
      DigitsClean(n / 10);
    }
  }

  function SafeUrl(page: Page): string { Take(Compact(page.url), MAX_URL) }
  function SafeTitle(page: Page): string { Take(Compact(page.title), MAX_TITLE) }
  function SafeText(page: Page): string { Take(Compact(page.body), MAX_PAGE_TEXT) }

  function Header(page: Page): string {
    "PAGE " + Digits(page.status) + "\t" + SafeTitle(page) + "\t" + SafeUrl(page) + "\t"
  }

  function LinkLine(link: Link): string {
    "LINK " + link.caption + "\t" + link.url
  }

  function LinkLines(links: seq<Link>): (lines: seq<string>)
    ensures |lines| == |links| && forall i :: 0 <= i < |links| ==> lines[i] == LinkLine(links[i])
  {
    seq(|links|, i requires 0 <= i < |links| => LinkLine(links[i]))
  }

  /** page_reply */
  function PageLines(page: Page): seq<string> {
    var text, header := SafeText(page), Header(page);
    var front := Take(text, Available(header));
    [header + front] + Prefixed("BODY ", Pieces(text[|front|..])) + LinkLines(page.links) + ["PAGEEND"]
  }

  /** Reply.encode: every line ends with a line break. */
  function Encode(lines: seq<string>): seq<byte> {
    if lines == [] then [] else Ascii(lines[0]) + [NEWLINE] + Encode(lines[1..])
  }

  /** A page the bridge builds: no NULs, a status that is a number, links as resolve_links leaves them. */
  predicate Bounded(page: Page) {
    && NoNul(page.url) && NoNul(page.title) && NoNul(page.body) && page.status < 1000
    && |page.links| <= MAX_LINKS
    && forall i :: 0 <= i < |page.links| ==> LinkBounded(page.links[i])
  }

  predicate LinkBounded(link: Link) {
    Clean(link.caption) && Clean(link.url) && |link.caption| <= MAX_LINK_LABEL && |link.url| <= MAX_LINK_URL
  }
}
