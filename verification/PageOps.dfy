/**
 What each operation of kernel/vm.c does to the page records of one address
 space and to the shared frame table, stated on values.  The VmSpace methods
 are proved against these relations, and the copy-on-write machine is built
 from them.
 */
module PageOps {
  import opened VmTypes

  type Records = map<nat, Record>
  type Frames = map<nat, Frame>

  /** Every record points at a live frame of page size. */
  ghost predicate Backed(records: Records, frames: Frames) {
    forall a :: a in records ==> records[a].frame in frames
  }

  ghost predicate FramesOk(frames: Frames) {
    forall f :: f in frames ==> frames[f].references > 0 && |frames[f].data| == PAGE_SIZE
  }

  /** vm_frame_create */
  function Created(frames: Frames, f: nat): Frames {
    frames[f := Frame(ZeroPage(), 1)]
  }

  /** vm_frame_retain */
  function Retained(frames: Frames, f: nat): Frames
    requires f in frames
  {
    frames[f := frames[f].(references := frames[f].references + 1)]
  }

  /** vm_frame_release: the last release frees the frame. */
  function Released(frames: Frames, f: nat): Frames
    requires f in frames && frames[f].references > 0
  {
    if frames[f].references == 1 then frames - {f}
    else frames[f := frames[f].(references := frames[f].references - 1)]
  }

  /** The record vm_protect leaves behind. */
  function Protected(record: Record, references: nat, protection: Protection): Record {
    record.(protection := protection,
            copyOnWrite := !record.shared && protection.write && references > 1)
  }

  /** vm_protect over the pages in [first, end). */
  function ProtectRange(records: Records, frames: Frames, first: nat, end: nat, protection: Protection): Records
    requires Backed(records, frames)
  {
    map a | a in records :: if first <= a < end
      then Protected(records[a], frames[records[a].frame].references, protection) else records[a]
  }

  /** All pages of the range are mapped. */
  ghost predicate RangeMapped(records: Records, first: nat, end: nat) {
    forall a: nat :: first <= a < end && Aligned(a) ==> a in records
  }

  /**
   The range test of vm_protect and vm_mark_shared, with the end rounded up in
   64-bit arithmetic; CoveredExactly says what it lets through.
   */
  ghost predicate Covered(records: Records, address: nat, size: nat) {
    && size > 0 && address + size < WORD
    && RangeMapped(records, AlignDown(address), AlignUp(address + size))
  }

  /** Every page that meets [address, address + size) is mapped. */
  ghost predicate AllMet(records: Records, address: nat, size: nat) {
    forall a: nat :: address <= a < address + size ==> AlignDown(a) in records
  }

  /** Rounding the end of the range up exceeds 64 bits. */
  predicate RoundsOver(address: nat, size: nat) {
    address + size + PAGE_SIZE - 1 >= WORD
  }

  /** Exactly what the range test lets through: mapped ranges, and all that round over. */
  lemma CoveredExactly(records: Records, address: nat, size: nat)
    ensures Covered(records, address, size) <==>
      size > 0 && address + size < WORD && (RoundsOver(address, size) || AllMet(records, address, size))
  {
    if size > 0 && address + size < WORD {
      if RoundsOver(address, size) {
        RoundedToZero(address, size);
      } else {
        RoundedUp(records, address, size);
      }
    }
  }

  lemma RoundedToZero(address: nat, size: nat)
    requires address + size < WORD && RoundsOver(address, size)
    ensures AlignUp(address + size) == 0
  {
  }

  lemma RoundedUp(records: Records, address: nat, size: nat)
    requires size > 0 && address + size < WORD && !RoundsOver(address, size)
    ensures RangeMapped(records, AlignDown(address), AlignUp(address + size)) <==> AllMet(records, address, size)
  {
    var first, end := AlignDown(address), AlignUp(address + size);
    AlignDownAligned(address);
    assert end == (address + size + PAGE_SIZE - 1) / PAGE_SIZE * PAGE_SIZE && end >= address + size > end - PAGE_SIZE;
    if RangeMapped(records, first, end) {
      forall a: nat | address <= a < address + size ensures AlignDown(a) in records {
        AlignDownAligned(a);
        assert first <= AlignDown(a) < end;
      }
    }
    if AllMet(records, address, size) {
      forall a: nat | first <= a < end && Aligned(a) ensures a in records {
        var met := if a < address then address else a;
        SamePage(a, met);
        assert AlignDown(met) in records;
      }
    }
  }

  lemma SamePage(page: nat, a: nat)
    requires Aligned(page) && page <= a < page + PAGE_SIZE
    ensures AlignDown(a) == page
  {
  }

  /** The range test means what it should exactly when the end does not round over, or the pages are mapped anyway. */
  lemma CoveredMeans(records: Records, address: nat, size: nat)
    requires size > 0 && address + size < WORD
    ensures (Covered(records, address, size) <==> AllMet(records, address, size)) <==>
      !RoundsOver(address, size) || AllMet(records, address, size)
  {
    CoveredExactly(records, address, size);
  }

  /** Half of the last page of the 64-bit space passes the test in an empty space. */
  lemma LastPage()
    ensures Covered(map[], WORD - PAGE_SIZE, 2048) && !AllMet(map[], WORD - PAGE_SIZE, 2048)
  {
    var none: Records := map[];
    CoveredExactly(none, WORD - PAGE_SIZE, 2048);
    assert AlignDown(WORD - PAGE_SIZE) !in none;
  }

  /** A range that rounds over passes the test and then no page of it is touched. */
  lemma RoundsOverTouchesNothing(
      records: Records, frames: Frames, address: nat, size: nat, protection: Protection)
    requires Backed(records, frames) && size > 0 && address + size < WORD && RoundsOver(address, size)
    ensures Covered(records, address, size)
    ensures ProtectRange(records, frames, AlignDown(address), AlignUp(address + size), protection) == records
    ensures ShareRange(records, AlignDown(address), AlignUp(address + size)) == records
  {
    CoveredExactly(records, address, size);
    RoundedToZero(address, size);
  }

  /** vm_mark_shared over the pages in [first, end). */
  function ShareRange(records: Records, first: nat, end: nat): Records {
    map a | a in records :: if first <= a < end
      then records[a].(shared := true, copyOnWrite := false) else records[a]
  }

  /** The records of one space together with the frame table. */
  datatype View = View(records: Records, frames: Frames)

  ghost predicate HasFrame(v: View, a: nat) {
    a in v.records && v.records[a].frame in v.frames && v.frames[v.records[a].frame].references > 0
  }

  /** make_private on page `a`; `spare` is the replacement frame when one is needed. */
  function Privatized(v: View, a: nat, spare: nat): View
    requires a in v.records && v.records[a].frame in v.frames && v.frames[v.records[a].frame].references > 0
  {
    var record := v.records[a];
    if !record.copyOnWrite then v
    else if v.frames[record.frame].references > 1 then
      View(v.records[a := record.(frame := spare, copyOnWrite := false)],
           Released(v.frames, record.frame)[spare := Frame(v.frames[record.frame].data, 1)])
    else View(v.records[a := record.(copyOnWrite := false)], v.frames)
  }

  ghost predicate MadePrivate(records: Records, frames: Frames, a: nat, spare: nat, records': Records, frames': Frames)
    requires a in records && records[a].frame in frames && frames[records[a].frame].references > 0
  {
    && (records[a].copyOnWrite && frames[records[a].frame].references > 1 ==> spare !in frames)
    && View(records', frames') == Privatized(View(records, frames), a, spare)
  }

  /** One chunk of vm_copy_to_user: make the page private, then copy into its frame. */
  ghost predicate ChunkWritten(v: View, a: nat, offset: nat, bytes: seq<byte>, spare: nat, v': View) {
    && HasFrame(v, a) && v.records[a].protection.write
    && (v.records[a].copyOnWrite && v.frames[v.records[a].frame].references > 1 ==> spare !in v.frames)
    && var private := Privatized(v, a, spare);
    && var f := private.records[a].frame;
    && f in private.frames && offset + |bytes| <= |private.frames[f].data|
    && v' == View(private.records, Stored(private.frames, f, offset, bytes))
  }

  ghost predicate ChunkCopied(v: View, a: nat, offset: nat, bytes: seq<byte>, v': View) {
    exists spare: nat :: ChunkWritten(v, a, offset, bytes, spare, v')
  }

  /** The byte user mode reads at `address`. */
  ghost function ByteAt(v: View, address: nat): Option<byte>
    requires Backed(v.records, v.frames) && FramesOk(v.frames)
  {
    var page := AlignDown(address);
    if page in v.records then Some(v.frames[v.records[page].frame].data[address - page]) else None
  }

  /** A store of `bytes` through the (private or shared) frame of page `a`. */
  function Stored(frames: Frames, f: nat, offset: nat, bytes: seq<byte>): Frames
    requires f in frames && offset + |bytes| <= |frames[f].data|
  {
    frames[f := frames[f].(data := Splice(frames[f].data, offset, bytes))]
  }

  /** The record a clone installs in the child for a parent record. */
  function ChildRecord(record: Record): Record {
    record.(copyOnWrite := !record.shared && record.protection.write)
  }

  /** The parent record after the clone. */
  function ParentRecord(record: Record): Record {
    record.(copyOnWrite := record.copyOnWrite || (!record.shared && record.protection.write))
  }

  /** Pages of `records` backed by frame `f`. */
  function Users(records: Records, f: nat): set<nat> {
    set a | a in records && records[a].frame == f
  }

  /** How many pages use the frame. */
  function UserCount(records: Records, f: nat): nat {
    |Users(records, f)|
  }

  /** Reference counts after every page of `records` has retained its frame. */
  function RetainAll(records: Records, frames: Frames): Frames
    requires Backed(records, frames)
  {
    map f | f in frames :: frames[f].(references := frames[f].references + UserCount(records, f))
  }

  lemma ProtectStep(records: Records, frames: Frames, first: nat, page: nat, protection: Protection)
    requires Backed(records, frames) && page in records && first <= page && Aligned(page)
    requires forall a :: a in records ==> Aligned(a)
    ensures page in ProtectRange(records, frames, first, page, protection)
    ensures ProtectRange(records, frames, first, page, protection)[page] == records[page]
    ensures ProtectRange(records, frames, first, page + PAGE_SIZE, protection) ==
      ProtectRange(records, frames, first, page, protection)
        [page := Protected(records[page], frames[records[page].frame].references, protection)]
  {
    forall a | a in records && page <= a < page + PAGE_SIZE ensures a == page {
      AlignedGap(a, page);
    }
  }

  lemma ShareStep(records: Records, first: nat, page: nat)
    requires page in records && first <= page && Aligned(page)
    requires forall a :: a in records ==> Aligned(a)
    ensures page in ShareRange(records, first, page)
    ensures ShareRange(records, first, page)[page] == records[page]
    ensures ShareRange(records, first, page + PAGE_SIZE) ==
      ShareRange(records, first, page)[page := records[page].(shared := true, copyOnWrite := false)]
  {
    forall a | a in records && page <= a < page + PAGE_SIZE ensures a == page {
      AlignedGap(a, page);
    }
  }

  lemma AlignedGap(a: nat, page: nat)
    requires Aligned(a) && Aligned(page) && page <= a < page + PAGE_SIZE
    ensures a == page
  {
  }

  lemma NextPage(page: nat, end: nat)
    requires Aligned(page) && Aligned(end) && page < end
    ensures Aligned(page + PAGE_SIZE) && page + PAGE_SIZE <= end
  {
  }

  lemma RangeMappedStep(records: Records, first: nat, page: nat)
    requires RangeMapped(records, first, page) && page in records && Aligned(page)
    ensures RangeMapped(records, first, page + PAGE_SIZE)
  {
    forall a: nat | first <= a < page + PAGE_SIZE && Aligned(a) ensures a in records {
      if page <= a {
        AlignedGap(a, page);
      }
    }
  }

  lemma RangeStarts(records: Records, first: nat, end: nat)
    requires end <= first
    ensures RangeMapped(records, first, end)
  {
  }

  lemma ProtectNothing(records: Records, frames: Frames, first: nat, end: nat, protection: Protection)
    requires Backed(records, frames) && end <= first
    ensures ProtectRange(records, frames, first, end, protection) == records
  {
  }

  lemma RangeHas(records: Records, first: nat, end: nat, page: nat)
    requires RangeMapped(records, first, end) && first <= page < end && Aligned(page)
    ensures page in records
  {
  }

  lemma RangeLacks(records: Records, first: nat, end: nat, page: nat)
    requires page !in records && first <= page < end && Aligned(page)
    ensures !RangeMapped(records, first, end)
  {
  }

  lemma ShareNothing(records: Records, first: nat, end: nat)
    requires end <= first
    ensures ShareRange(records, first, end) == records
  {
  }

  /** vm_map_page succeeded: the page exists with a new zero frame, or had its protection changed. */
  ghost predicate MappedPage(records: Records, frames: Frames, a: nat, protection: Protection, f: nat,
                             records': Records, frames': Frames)
    requires Backed(records, frames)
  {
    && Aligned(a) && CanonicalUser(a)
    && if a in records
       then records' == ProtectRange(records, frames, a, a + PAGE_SIZE, protection) && frames' == frames
       else && f !in frames
            && records' == records[a := Record(f, protection, false, false)]
            && frames' == Created(frames, f)
  }

  /** A one-page range on a mapped user page is covered and does not wrap. */
  lemma OnePageRange(records: Records, a: nat)
    requires Aligned(a) && CanonicalUser(a)
    ensures AlignDown(a) == a && AlignUp(a + PAGE_SIZE) == a + PAGE_SIZE
    ensures Covered(records, a, PAGE_SIZE) <==> a in records
  {
    if a in records {
      RangeStarts(records, a, a);
      RangeMappedStep(records, a, a);
    }
  }

  lemma PrivatizedKeeps(v: View, a: nat, spare: nat)
    requires Backed(v.records, v.frames) && FramesOk(v.frames) && a in v.records
    requires v.records[a].copyOnWrite && v.frames[v.records[a].frame].references > 1 ==> spare !in v.frames
    ensures var p := Privatized(v, a, spare);
      && Backed(p.records, p.frames) && FramesOk(p.frames) && a in p.records
      && p.records.Keys == v.records.Keys
      && p.records[a].protection == v.records[a].protection
      && p.frames[p.records[a].frame].data == v.frames[v.records[a].frame].data
  {
  }

  /** Bytes consumed after `chunks` chunks of a user copy: chunks end at page boundaries. */
  function Consumed(start: nat, size: nat, chunks: nat): nat {
    if chunks == 0 then 0
    else if AlignDown(start) + chunks * PAGE_SIZE - start < size
    then AlignDown(start) + chunks * PAGE_SIZE - start else size
  }

  /** Consecutive states of a user copy are related by one chunk each. */
  ghost predicate CopyTrace(trace: seq<View>, start: nat, bytes: seq<byte>) {
    && |trace| > 0
    && forall i: nat {:trigger trace[i]} :: i + 1 < |trace| ==> CopyStep(trace, start, bytes, i)
  }

  ghost predicate CopyStep(trace: seq<View>, start: nat, bytes: seq<byte>, i: nat)
    requires i + 1 < |trace|
  {
    var from, to := Consumed(start, |bytes|, i), Consumed(start, |bytes|, i + 1);
    && from < to <= |bytes|
    && ChunkCopied(trace[i], AlignDown(start + from), (start + from) % PAGE_SIZE, bytes[from..to], trace[i + 1])
  }

  lemma ConsumedStep(start: nat, size: nat, chunks: nat)
    requires Consumed(start, size, chunks) < size
    ensures var from := Consumed(start, size, chunks);
      var room := PAGE_SIZE - (start + from) % PAGE_SIZE;
      Consumed(start, size, chunks + 1) == from + if room > size - from then size - from else room
  {
    var from := Consumed(start, size, chunks);
    if chunks > 0 {
      assert start + from == (start / PAGE_SIZE + chunks) * PAGE_SIZE;
      assert (start + from) % PAGE_SIZE == 0;
    }
  }

  lemma ExtendTrace(trace: seq<View>, start: nat, bytes: seq<byte>, v: View)
    requires CopyTrace(trace, start, bytes) && Consumed(start, |bytes|, |trace| - 1) < |bytes|
    requires var from, to := Consumed(start, |bytes|, |trace| - 1), Consumed(start, |bytes|, |trace|);
      && from < to <= |bytes|
      && ChunkCopied(trace[|trace| - 1], AlignDown(start + from), (start + from) % PAGE_SIZE, bytes[from..to], v)
    ensures CopyTrace(trace + [v], start, bytes)
  {
    hide ChunkCopied, AlignDown, Consumed;
    var longer := trace + [v];
    forall i: nat | i + 1 < |longer| ensures CopyStep(longer, start, bytes, i) {
      if i + 1 < |trace| {
        assert trace[i] == longer[i];
        assert CopyStep(trace, start, bytes, i);
      }
    }
  }

  /** A run of addresses inside one mapped page reads that page's frame. */
  lemma PageBytes(v: View, address: nat, size: nat)
    requires Backed(v.records, v.frames) && FramesOk(v.frames) && AlignDown(address) in v.records
    requires address % PAGE_SIZE + size <= PAGE_SIZE
    ensures v.records[AlignDown(address)].frame in v.frames
    ensures |v.frames[v.records[AlignDown(address)].frame].data| == PAGE_SIZE
    ensures var data := v.frames[v.records[AlignDown(address)].frame].data;
      forall a: nat :: address <= a < address + size ==>
        ByteAt(v, a) == Some(data[address % PAGE_SIZE + (a - address)])
  {
    forall a: nat | address <= a < address + size
      ensures AlignDown(a) == AlignDown(address)
      ensures a - AlignDown(a) == address % PAGE_SIZE + (a - address)
    {
    }
  }

  lemma ChunkDone(v: View, a: nat, offset: nat, bytes: seq<byte>, spare: nat)
    requires Backed(v.records, v.frames) && FramesOk(v.frames) && a in v.records && v.records[a].protection.write
    requires v.records[a].copyOnWrite && v.frames[v.records[a].frame].references > 1 ==> spare !in v.frames
    requires offset + |bytes| <= PAGE_SIZE
    ensures var p := Privatized(v, a, spare);
      && a in p.records && p.records[a].frame in p.frames && |p.frames[p.records[a].frame].data| == PAGE_SIZE
      && var after := Stored(p.frames, p.records[a].frame, offset, bytes);
      && ChunkCopied(v, a, offset, bytes, View(p.records, after))
      && Backed(p.records, after) && FramesOk(after) && after.Keys == p.frames.Keys
  {
    PrivatizedKeeps(v, a, spare);
    var p := Privatized(v, a, spare);
    var after := Stored(p.frames, p.records[a].frame, offset, bytes);
    assert ChunkWritten(v, a, offset, bytes, spare, View(p.records, after));
  }

  lemma StartTrace(v: View, start: nat, bytes: seq<byte>)
    ensures CopyTrace([v], start, bytes) && Consumed(start, |bytes|, 0) == 0
  {
  }

  /** Each frame has at least as many references as `records` has pages on it. */
  ghost predicate Counted(records: Records, frames: Frames) {
    Backed(records, frames) && forall f :: f in frames ==> UserCount(records, f) <= frames[f].references
  }

  /** The frame table after every page of `records` has released its frame. */
  function ReleaseAll(records: Records, frames: Frames): Frames
    requires Counted(records, frames)
  {
    map f | f in frames && UserCount(records, f) < frames[f].references ::
      frames[f].(references := frames[f].references - UserCount(records, f))
  }

  lemma UsersAdd(records: Records, a: nat, record: Record, f: nat)
    requires a !in records
    ensures Users(records[a := record], f) == Users(records, f) + (if record.frame == f then {a} else {})
    ensures UserCount(records[a := record], f) == UserCount(records, f) + if record.frame == f then 1 else 0
  {
    assert a !in Users(records, f);
  }

  lemma CountedPart(records: Records, a: nat, record: Record, frames: Frames)
    requires a !in records && Counted(records[a := record], frames)
    ensures Counted(records, frames)
    ensures record.frame in frames && UserCount(records, record.frame) < frames[record.frame].references
  {
    hide UserCount;
    var more := records[a := record];
    forall b | b in records ensures records[b].frame in frames {
      assert more[b] == records[b];
    }
    assert more[a] == record;
    forall f: nat ensures UserCount(more, f) == UserCount(records, f) + if record.frame == f then 1 else 0 {
      UsersAdd(records, a, record, f);
    }
  }

  lemma ReleaseAllStep(records: Records, a: nat, record: Record, frames: Frames)
    requires a !in records && FramesOk(frames) && Counted(records[a := record], frames)
    ensures Counted(records, frames)
    ensures var rest := ReleaseAll(records, frames);
      && record.frame in rest && FramesOk(rest)
      && ReleaseAll(records[a := record], frames) == Released(rest, record.frame)
  {
    CountedPart(records, a, record, frames);
    ReleaseMore(records, records[a := record], record.frame, frames) by {
      forall f: nat ensures UserCount(records[a := record], f) == UserCount(records, f) + if record.frame == f then 1 else 0 {
        UsersAdd(records, a, record, f);
      }
    }
  }

  /** One more user of frame `f0`, one more release of it. */
  lemma ReleaseMore(records: Records, more: Records, f0: nat, frames: Frames)
    requires FramesOk(frames) && Counted(records, frames) && Counted(more, frames)
    requires f0 in frames && UserCount(records, f0) < frames[f0].references
    requires forall f: nat :: UserCount(more, f) == UserCount(records, f) + if f0 == f then 1 else 0
    ensures var rest := ReleaseAll(records, frames);
      f0 in rest && FramesOk(rest) && ReleaseAll(more, frames) == Released(rest, f0)
  {
    hide UserCount, Counted;
    var rest := ReleaseAll(records, frames);
    assert f0 in rest;
  }

  lemma ReleaseNothing(frames: Frames)
    requires FramesOk(frames)
    ensures Counted(map[], frames) && ReleaseAll(map[], frames) == frames
  {
    assert forall f :: f in frames ==> Users(map[], f) == {};
  }

  lemma RetainAllStep(records: Records, a: nat, record: Record, frames: Frames)
    requires a !in records && Backed(records, frames) && record.frame in frames
    ensures Backed(records[a := record], frames)
    ensures RetainAll(records[a := record], frames) == Retained(RetainAll(records, frames), record.frame)
  {
    forall f | f in frames
      ensures UserCount(records[a := record], f) == UserCount(records, f) + if record.frame == f then 1 else 0
    {
      UsersAdd(records, a, record, f);
    }
  }

  lemma RetainNothing(frames: Frames)
    ensures RetainAll(map[], frames) == frames
  {
    assert forall f :: f in frames ==> Users(map[], f) == {};
  }

  /** Releasing exactly what was retained restores the frame table. */
  lemma RetainRelease(records: Records, copies: Records, frames: Frames)
    requires Backed(records, frames) && FramesOk(frames)
    requires copies.Keys == records.Keys && forall a :: a in records ==> copies[a].frame == records[a].frame
    ensures Counted(copies, RetainAll(records, frames))
    ensures ReleaseAll(copies, RetainAll(records, frames)) == frames
  {
    forall f ensures Users(copies, f) == Users(records, f) {
    }
    forall a | a in copies ensures copies[a].frame in RetainAll(records, frames) {
      assert records[a].frame in frames;
    }
  }
}
