/**
 Copy-on-write over any number of address spaces (kernel/vm.c).  The machine's
 steps are the relations the VmSpace methods are proved against.  Against it
 stands an eager machine, in which a clone copies every private page at once
 and pages hold their bytes directly: no frames, no reference counts, no
 copy-on-write bits.
 */
module CowMachine {
  import opened VmTypes
  import opened PageOps
  import AddressSpaces

  /** A page of a memfd: object number and page number. */
  type Backing = (nat, nat)

  datatype Machine = Machine(spaces: map<nat, Records>, memfds: map<Backing, nat>, frames: Frames)

  const EMPTY := Machine(map[], map[], map[])

  /** Whatever holds one reference to a frame. */
  datatype Holder = PageHolder(space: nat, page: nat) | MemfdHolder(backing: Backing)

  ghost function Held(m: Machine, h: Holder): Option<nat> {
    match h
    case PageHolder(s, a) => if s in m.spaces && a in m.spaces[s] then Some(m.spaces[s][a].frame) else None
    case MemfdHolder(k) => if k in m.memfds then Some(m.memfds[k]) else None
  }

  ghost function Holders(m: Machine, f: nat): (holders: set<Holder>)
    ensures forall h :: h in holders <==> Held(m, h) == Some(f)
  {
    var pages := set s, a | s in m.spaces && a in m.spaces[s] && m.spaces[s][a].frame == f :: PageHolder(s, a);
    var slots := set k | k in m.memfds && m.memfds[k] == f :: MemfdHolder(k);
    pages + slots
  }

  /** The frame backs a shared mapping or a memfd page. */
  ghost predicate Common(m: Machine, f: nat) {
    exists h :: SharedHolder(m, h) && Held(m, h) == Some(f)
  }

  ghost predicate SharedHolder(m: Machine, h: Holder) {
    match h
    case PageHolder(s, a) => s in m.spaces && a in m.spaces[s] && m.spaces[s][a].shared
    case MemfdHolder(k) => k in m.memfds
  }

  /** The copy-on-write bit is sound: a private page writable without a fault is its frame's only user. */
  ghost predicate BitsOk(frames: Frames, record: Record) {
    && record.frame in frames
    && (record.copyOnWrite ==> record.protection.write && !record.shared)
    && (!record.shared && record.protection.write && !record.copyOnWrite ==> frames[record.frame].references == 1)
  }

  ghost predicate PageOk(m: Machine, record: Record) {
    BitsOk(m.frames, record) && (!record.shared ==> !Common(m, record.frame))
  }

  /** A frame's reference count is exactly the number of its holders. */
  ghost predicate CountsExact(m: Machine) {
    forall f :: f in m.frames ==> m.frames[f].references == |Holders(m, f)|
  }

  ghost predicate PagesOk(m: Machine) {
    forall s, a :: s in m.spaces && a in m.spaces[s] ==> PageOk(m, m.spaces[s][a])
  }

  ghost predicate Inv(m: Machine) {
    && FramesOk(m.frames) && CountsExact(m) && PagesOk(m)
    && (forall k :: k in m.memfds ==> m.memfds[k] in m.frames)
  }

  /** Nothing live is ever freed: every holder's frame exists and is counted. */
  lemma HeldIsLive(m: Machine, h: Holder)
    requires Inv(m) && Held(m, h).Some?
    ensures Held(m, h).value in m.frames
    ensures m.frames[Held(m, h).value].references > 0
  {
    if h.PageHolder? {
      assert PageOk(m, m.spaces[h.space][h.page]);
    }
  }

  lemma PageIsOk(m: Machine, s: nat, a: nat)
    requires PagesOk(m) && s in m.spaces && a in m.spaces[s]
    ensures PageOk(m, m.spaces[s][a])
  {
  }

  lemma SpaceBacked(m: Machine, s: nat)
    requires PagesOk(m) && s in m.spaces
    ensures Backed(m.spaces[s], m.frames)
  {
    forall a | a in m.spaces[s] ensures m.spaces[s][a].frame in m.frames {
      PageIsOk(m, s, a);
    }
  }

  // ----- the eager machine

  datatype EagerPage =
    | Private(protection: Protection, data: seq<byte>)
    | Shared(protection: Protection, object: nat)

  datatype Eager = Eager(
    spaces: map<nat, map<nat, EagerPage>>, memfds: map<Backing, nat>, objects: map<nat, seq<byte>>)

  ghost predicate Referenced(x: Eager, o: nat) {
    || (exists k :: k in x.memfds && x.memfds[k] == o)
    || (exists s, a :: s in x.spaces && a in x.spaces[s] && x.spaces[s][a] == Shared(x.spaces[s][a].protection, o))
  }

  /** Shared objects disappear with their last reference. */
  ghost function Collect(x: Eager): Eager {
    x.(objects := map o | o in x.objects && Referenced(x, o) :: x.objects[o])
  }

  ghost function ReadEager(x: Eager, s: nat, address: nat): Option<byte> {
    var page := AlignDown(address);
    if s in x.spaces && page in x.spaces[s] then
      match x.spaces[s][page]
      case Private(_, data) => if address - page < |data| then Some(data[address - page]) else None
      case Shared(_, o) =>
        if o in x.objects && address - page < |x.objects[o]| then Some(x.objects[o][address - page]) else None
    else None
  }

  /** The byte the copy-on-write machine lets space `s` read at `address`. */
  ghost function Read(m: Machine, s: nat, address: nat): Option<byte>
    requires Inv(m)
  {
    if s in m.spaces then
      SpaceBacked(m, s);
      ByteAt(View(m.spaces[s], m.frames), address)
    else None
  }

  // ----- what the eager machine sees of the copy-on-write machine

  ghost function AbsPage(record: Record, frames: Frames): EagerPage {
    if record.shared then Shared(record.protection, record.frame)
    else Private(record.protection, if record.frame in frames then frames[record.frame].data else [])
  }

  ghost function AbsSpace(records: Records, frames: Frames): map<nat, EagerPage> {
    map a | a in records :: AbsPage(records[a], frames)
  }

  ghost function Abs(m: Machine): Eager {
    Eager(
      map s | s in m.spaces :: AbsSpace(m.spaces[s], m.frames),
      m.memfds,
      map f | f in m.frames && Common(m, f) :: m.frames[f].data)
  }

  /** Both machines let every space read the same bytes. */
  lemma ReadsAgree(m: Machine, s: nat, address: nat)
    requires Inv(m)
    ensures Read(m, s, address) == ReadEager(Abs(m), s, address)
  {
    hide CountsExact, PagesOk, Common, AlignDown;
    AlignDownAligned(address);
    var page := AlignDown(address);
    if s in m.spaces && page in m.spaces[s] {
      PageIsOk(m, s, page);
      SpaceBacked(m, s);
      var record := m.spaces[s][page];
      if record.shared {
        SharedIsCommon(m, PageHolder(s, page));
      }
    }
  }

  lemma SharedIsCommon(m: Machine, h: Holder)
    requires SharedHolder(m, h)
    ensures Held(m, h).Some? && Common(m, Held(m, h).value)
  {
  }

  // ----- steps

  datatype Event =
    | NewSpace(s: nat)
    | MapNew(s: nat, a: nat, protection: Protection, frame: nat)
    | MapMemfd(s: nat, a: nat, backing: Backing, protection: Protection)
    | Protect(s: nat, first: nat, end: nat, protection: Protection)
    | MarkShared(s: nat, a: nat, object: nat)
    | Unmap(s: nat, a: nat)
    | Clone(parent: nat, child: nat)
    | CloneFailed(parent: nat)
    | Write(s: nat, a: nat, offset: nat, bytes: seq<byte>)
    | CowFault(s: nat, a: nat)
    | Destroy(s: nat)
    | MemfdPage(backing: Backing, frame: nat)
    | MemfdWrite(backing: Backing, offset: nat, bytes: seq<byte>)
    | MemfdDrop(backing: Backing)

  ghost predicate Step(m: Machine, e: Event, m': Machine) {
    match e
    case NewSpace(s) =>
      s !in m.spaces && m' == m.(spaces := m.spaces[s := map[]])
    case MapNew(s, a, protection, f) =>
      && s in m.spaces && a !in m.spaces[s] && f !in m.frames
      && m' == Put(m, s, m.spaces[s][a := Record(f, protection, false, false)], Created(m.frames, f))
    case MapMemfd(s, a, k, protection) =>
      && s in m.spaces && a !in m.spaces[s] && k in m.memfds && m.memfds[k] in m.frames
      && m' == Put(m, s, m.spaces[s][a := Record(m.memfds[k], protection, false, true)], Retained(m.frames, m.memfds[k]))
    case Protect(s, first, end, protection) =>
      && s in m.spaces && Backed(m.spaces[s], m.frames)
      && m' == Put(m, s, ProtectRange(m.spaces[s], m.frames, first, end, protection), m.frames)
    case MarkShared(s, a, f) =>
      && s in m.spaces && a in m.spaces[s] && !m.spaces[s][a].shared && m.spaces[s][a].frame == f
      && f in m.frames && m.frames[f].references == 1
      && m' == Put(m, s, m.spaces[s][a := m.spaces[s][a].(shared := true, copyOnWrite := false)], m.frames)
    case Unmap(s, a) =>
      && s in m.spaces && HasFrame(View(m.spaces[s], m.frames), a)
      && m' == Put(m, s, m.spaces[s] - {a}, Released(m.frames, m.spaces[s][a].frame))
    case Clone(parent, child) =>
      && parent in m.spaces && child !in m.spaces && Backed(m.spaces[parent], m.frames)
      && m' == Machine(m.spaces[parent := AddressSpaces.ParentRecords(m.spaces[parent])]
                               [child := AddressSpaces.ChildRecords(m.spaces[parent])],
                       m.memfds, RetainAll(m.spaces[parent], m.frames))
    case CloneFailed(parent) =>
      && parent in m.spaces && parent in m'.spaces
      && AddressSpaces.PartlyMarked(m.spaces[parent], m'.spaces[parent])
      && m' == Put(m, parent, m'.spaces[parent], m.frames)
    case Write(s, a, offset, bytes) =>
      && s in m.spaces && s in m'.spaces
      && ChunkCopied(View(m.spaces[s], m.frames), a, offset, bytes, View(m'.spaces[s], m'.frames))
      && m' == Put(m, s, m'.spaces[s], m'.frames)
    case CowFault(s, a) =>
      && s in m.spaces && s in m'.spaces && HasFrame(View(m.spaces[s], m.frames), a)
      && (exists spare: nat :: MadePrivate(m.spaces[s], m.frames, a, spare, m'.spaces[s], m'.frames))
      && m' == Put(m, s, m'.spaces[s], m'.frames)
    case Destroy(s) =>
      && s in m.spaces && Counted(m.spaces[s], m.frames)
      && m' == Machine(m.spaces - {s}, m.memfds, ReleaseAll(m.spaces[s], m.frames))
    case MemfdPage(k, f) =>
      && k !in m.memfds && f !in m.frames
      && m' == Machine(m.spaces, m.memfds[k := f], Created(m.frames, f))
    case MemfdWrite(k, offset, bytes) =>
      && k in m.memfds && m.memfds[k] in m.frames && offset + |bytes| <= |m.frames[m.memfds[k]].data|
      && m' == m.(frames := Stored(m.frames, m.memfds[k], offset, bytes))
    case MemfdDrop(k) =>
      && k in m.memfds && m.memfds[k] in m.frames && m.frames[m.memfds[k]].references > 0
      && m' == Machine(m.spaces, m.memfds - {k}, Released(m.frames, m.memfds[k]))
  }

  function Put(m: Machine, s: nat, records: Records, frames: Frames): Machine {
    Machine(m.spaces[s := records], m.memfds, frames)
  }

  ghost function PutPage(x: Eager, s: nat, a: nat, page: EagerPage): Eager
    requires s in x.spaces
  {
    var pages: map<nat, EagerPage> := x.spaces[s][a := page];
    x.(spaces := x.spaces[s := pages])
  }

  /** The eager machine's answer to the same event. */
  ghost predicate EagerStep(x: Eager, e: Event, x': Eager) {
    match e
    case NewSpace(s) =>
      s !in x.spaces && x' == x.(spaces := x.spaces[s := map[]])
    case MapNew(s, a, protection, _) =>
      && s in x.spaces && a !in x.spaces[s]
      && x' == PutPage(x, s, a, Private(protection, ZeroPage()))
    case MapMemfd(s, a, k, protection) =>
      && s in x.spaces && a !in x.spaces[s] && k in x.memfds
      && x' == PutPage(x, s, a, Shared(protection, x.memfds[k]))
    case Protect(s, first, end, protection) =>
      && s in x.spaces
      && x' == x.(spaces := x.spaces[s := map a | a in x.spaces[s] ::
           if first <= a < end then x.spaces[s][a].(protection := protection) else x.spaces[s][a]])
    case MarkShared(s, a, o) =>
      && s in x.spaces && a in x.spaces[s] && x.spaces[s][a].Private? && o !in x.objects
      && x' == PutPage(x, s, a, Shared(x.spaces[s][a].protection, o)).(objects := x.objects[o := x.spaces[s][a].data])
    case Unmap(s, a) =>
      && s in x.spaces && a in x.spaces[s]
      && x' == Collect(x.(spaces := x.spaces[s := x.spaces[s] - {a}]))
    case Clone(parent, child) =>
      && parent in x.spaces && child !in x.spaces
      && x' == x.(spaces := x.spaces[child := x.spaces[parent]])
    case CloneFailed(_) => x' == x
    case Write(s, a, offset, bytes) =>
      && s in x.spaces && a in x.spaces[s] && x.spaces[s][a].protection.write
      && (match x.spaces[s][a]
          case Private(protection, data) =>
            && offset + |bytes| <= |data|
            && x' == PutPage(x, s, a, Private(protection, Splice(data, offset, bytes)))
          case Shared(_, o) =>
            && o in x.objects && offset + |bytes| <= |x.objects[o]|
            && x' == x.(objects := x.objects[o := Splice(x.objects[o], offset, bytes)]))
    case CowFault(_, _) => x' == x
    case Destroy(s) =>
      s in x.spaces && x' == Collect(x.(spaces := x.spaces - {s}))
    case MemfdPage(k, o) =>
      && k !in x.memfds && o !in x.objects
      && x' == x.(memfds := x.memfds[k := o], objects := x.objects[o := ZeroPage()])
    case MemfdWrite(k, offset, bytes) =>
      && k in x.memfds && x.memfds[k] in x.objects && offset + |bytes| <= |x.objects[x.memfds[k]]|
      && x' == x.(objects := x.objects[x.memfds[k] := Splice(x.objects[x.memfds[k]], offset, bytes)])
    case MemfdDrop(k) =>
      k in x.memfds && x' == Collect(x.(memfds := x.memfds - {k}))
  }
}
