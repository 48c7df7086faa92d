/**
 The guest side of the page protocol (ui/ui.c): the wire buffer, the staging
 area and the page on screen, updated by the polling loop.
 */
module Browser {
  import opened VmTypes
  import Bytes
  import opened Wire

  const BUFFER := 2048
  const READ_MAX := 256

  type Chars = seq<byte>

  datatype GuestLink = GuestLink(caption: Chars, url: Chars)

  /** A page in the guest. */
  datatype GuestPage = GuestPage(title: Chars, url: Chars, status: Chars, body: Chars, links: seq<GuestLink>)

  /** What the polling loop works on; `active` says whether a page is being staged. */
  datatype Guest = Guest(wire: Chars, active: bool, staged: GuestPage, shown: GuestPage)

  const PAGE_: Chars := [80, 65, 71, 69, 32]
  const BODY_: Chars := [66, 79, 68, 89, 32]
  const LINK_: Chars := [76, 73, 78, 75, 32]
  const PAGEEND: Chars := [80, 65, 71, 69, 69, 78, 68]
  const HTTP_: Chars := [72, 84, 84, 80, 32]
  const READY: Chars := [78, 79, 86, 65, 47, 49, 32, 82, 69, 65, 68, 89]
  const ANSWER_: Chars := [65, 78, 83, 87, 69, 82, 32]
  const FAILED: Chars := [82, 101, 113, 117, 101, 115, 116, 32, 102, 97, 105, 108, 101, 100]

  /** strncpy into a field of `size` bytes, the last of them the terminator. */
  function Fit(text: Chars, size: nat): (kept: Chars)
    requires size > 0
    ensures |text| < size ==> kept == text
  {
    if |text| < size then text else text[..size - 1]
  }

  /** The position of the first `c`, or the length. */
  function IndexOf(text: Chars, c: byte): (i: nat)
    ensures i <= |text| && (i < |text| ==> text[i] == c) && forall k :: 0 <= k < i ==> text[k] != c
  {
    if text == [] || text[0] == c then 0 else 1 + IndexOf(text[1..], c)
  }

  datatype Field = Field(first: Chars, rest: Chars)

  /** next_wire_field: what stands before and after the first tab. */
  function SplitField(text: Chars): Option<Field> {
    var i := IndexOf(text, TAB);
    if i < |text| then Some(Field(text[..i], text[i + 1..])) else None
  }

  function StatusLine(status: Chars): Chars {
    if status == [48] then FAILED else HTTP_ + Fit(status, 59)
  }

  function Connected(): Chars {
    Ascii("Internet bridge connected - ready to browse")
  }

  /** One line of the stream; the lines of other services leave the pages alone. */
  function Handle(g: Guest, line: Chars): Guest {
    var text := Bytes.CString(line);
    if text == READY then g.(shown := g.shown.(status := Connected()))
    else if ANSWER_ <= text then g
    else if PAGE_ <= text then StagePage(g, text[5..])
    else if BODY_ <= text && g.active then
      g.(staged := g.staged.(body := Fit(g.staged.body + text[5..], 8192)))
    else if LINK_ <= text && g.active then
      match SplitField(text[5..])
      case None => g
      case Some(f) =>
        if |g.staged.links| >= MAX_LINKS then g
        else g.(staged := g.staged.(links := g.staged.links + [GuestLink(Fit(f.first, 64), Fit(f.rest, 224))]))
    else if text == PAGEEND && g.active then g.(shown := g.staged, active := false)
    else g
  }

  /** A PAGE line: status, title, address and the first of the body, or nothing when fields are missing. */
  function StagePage(g: Guest, fields: Chars): Guest {
    match SplitField(fields)
    case None => g
    case Some(status) =>
      match SplitField(status.rest)
      case None => g
      case Some(title) =>
        match SplitField(title.rest)
        case None => g
        case Some(url) =>
          g.(active := true, staged := GuestPage(
            Fit(title.first, 128), Fit(url.first, 256), StatusLine(status.first), Fit(url.rest, 8192), []))
  }

  /** All complete lines of `text` handled in order; what follows the last line break is left on the wire. */
  function Drain(g: Guest, text: Chars): (after: Guest)
    ensures NEWLINE !in after.wire
    decreases |text|
  {
    var i := IndexOf(text, NEWLINE);
    if i == |text| then g.(wire := text) else Drain(Handle(g, text[..i]), text[i + 1..])
  }

  /** The bytes of a read that still fit the wire buffer. */
  function Kept(g: Guest, incoming: Chars): Chars {
    if |g.wire| >= BUFFER - 1 then []
    else if |g.wire| + |incoming| > BUFFER - 1 then incoming[..BUFFER - 1 - |g.wire|] else incoming
  }

  /** ui_poll_services on one read of at most 256 bytes. */
  function Poll(g: Guest, incoming: Chars): Guest {
    if incoming == [] then g else Drain(g, g.wire + Kept(g, incoming))
  }

  class Interface {
    var guest: Guest

    constructor (shown: GuestPage)
      ensures guest == Guest([], false, GuestPage([], [], [], [], []), shown)
    {
      guest := Guest([], false, GuestPage([], [], [], [], []), shown);
    }

    /** The polling loop. */
    method PollServices(incoming: Chars)
      requires |incoming| <= READ_MAX && |guest.wire| < BUFFER && NEWLINE !in guest.wire
      modifies this
      ensures guest == Poll(old(guest), incoming) && |guest.wire| < BUFFER && NEWLINE !in guest.wire
    {
      hide Drain, Handle;
      if |incoming| == 0 {
        return;
      }
      var received := |incoming|;
      var room := BUFFER - 1 - |guest.wire|;
      if received > room {
        received := room;
      }
      if received > 0 {
        guest := guest.(wire := guest.wire + incoming[..received]);
      }
      ghost var text := guest.wire;
      assert text == old(guest).wire + Kept(old(guest), incoming);
      assert guest == old(guest).(wire := text);
      WireIgnored(old(guest), text);
      while true
        invariant Drain(old(guest), text) == Drain(guest, guest.wire) && |guest.wire| < BUFFER
        decreases |guest.wire|
      {
        var newline := 0;
        while newline < |guest.wire| && guest.wire[newline] != NEWLINE
          invariant 0 <= newline <= |guest.wire| && forall k :: 0 <= k < newline ==> guest.wire[k] != NEWLINE
        {
          newline := newline + 1;
        }
        IndexUnique(guest.wire, NEWLINE, newline);
        DrainStep(guest, guest.wire);
        if newline == |guest.wire| {
          break;
        }
        ghost var before := guest;
        var rest := guest.wire[newline + 1..];
        guest := Handle(guest, guest.wire[..newline]).(wire := rest);
        WireIgnored(Handle(before, before.wire[..newline]), rest);
      }
    }
  }

  lemma {:induction false} IndexUnique(text: Chars, c: byte, i: nat)
    requires i <= |text| && (i < |text| ==> text[i] == c) && forall k :: 0 <= k < i ==> text[k] != c
    ensures IndexOf(text, c) == i
  {
    if i > 0 {
      IndexUnique(text[1..], c, i - 1);
    }
  }

  lemma DrainStep(g: Guest, text: Chars)
    ensures var i := IndexOf(text, NEWLINE);
      Drain(g, text) == if i == |text| then g.(wire := text) else Drain(Handle(g, text[..i]), text[i + 1..])
  {
    hide Handle, IndexOf;
  }

  /** Handling a line does not look at what else is on the wire. */
  lemma HandleIgnoresWire(g: Guest, wire: Chars, line: Chars)
    ensures Handle(g.(wire := wire), line) == Handle(g, line).(wire := wire)
  {
  }

  lemma {:induction false} DrainIgnoresWire(g: Guest, wire: Chars, text: Chars)
    ensures Drain(g.(wire := wire), text) == Drain(g, text)
    decreases |text|
  {
    hide Handle;
    var i := IndexOf(text, NEWLINE);
    if i < |text| {
      HandleIgnoresWire(g, wire, text[..i]);
      DrainIgnoresWire(Handle(g, text[..i]), wire, text[i + 1..]);
    }
  }

  lemma WireIgnored(g: Guest, rest: Chars)
    ensures Drain(g.(wire := rest), rest) == Drain(g, rest)
  {
    DrainIgnoresWire(g, rest, rest);
  }
}
