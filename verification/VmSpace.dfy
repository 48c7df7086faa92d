/**
 The address space object of kernel/vm.c.  Three representations of the same
 mapping are kept in step: the page records, the hash index over them, and the
 four-level page table.  `Valid` says they agree; every method keeps it and is
 proved against the value-level relations of PageOps.
 */
module AddressSpaces {
  import opened VmTypes
  import opened PageLookup
  import opened PageTables
  import opened PageOps

  /** The leaf entry page_flags builds for a record. */
  function EntryFor(record: Record): Entry {
    Entry(true, record.protection.write && !record.copyOnWrite, true, false, !record.protection.exec, record.frame)
  }

  function LeafFor(records: Records, page: nat): Entry {
    if page in records then EntryFor(records[page]) else ZERO
  }

  /** The page table holds exactly the leaves the records call for. */
  ghost predicate TableAgrees(tables: Tables, root: nat, records: Records) {
    forall a: nat :: a < 0x1_0000_0000_0000 ==> Leaf(tables, root, a) == LeafFor(records, AlignDown(a))
  }

  ghost predicate CanonicalPages(records: Records) {
    forall a :: a in records ==> Aligned(a) && CanonicalUser(a)
  }

  /**
   What user mode can reach is exactly what the records say: the processor's walk,
   with the permissions of every level combined, ends in a present user leaf iff
   a record exists, with its frame and W/NX bits.
   */
  lemma UserSeesRecords(directory: PageDirectory, records: Records, a: nat)
    requires directory.Valid() && TableAgrees(directory.tables, directory.root, records)
    requires a < 0x1_0000_0000_0000
    ensures UserTranslation(directory.tables, directory.root, a) == LeafFor(records, AlignDown(a))
    ensures HardwareTranslation(directory.tables, directory.root, a) == LeafFor(records, AlignDown(a))
  {
    hide HardwareTranslation;
    var tables, root := directory.tables, directory.root;
    var table := TableAt(tables, root, a, 2);
    if table.Some? {
      TableAtPlace(tables, directory.place, root, a, 2);
      assert LinkOk(tables, directory.place, table.value, Index(a, 2));
    }
    LeafDecides(tables, directory.place, root, a);
  }

  /** Setting the leaf of one page keeps table and records in step. */
  lemma SetLeafAgrees(directory: PageDirectory, records: Records, records': Records, a: nat, entry: Entry)
    requires directory.Valid() && TableAgrees(directory.tables, directory.root, records)
    requires Aligned(a) && CanonicalUser(a) && TableAt(directory.tables, directory.root, a, 1).Some?
    requires entry == LeafFor(records', a)
    requires forall b: nat :: b != a ==> LeafFor(records', b) == LeafFor(records, b)
    ensures var table := TableAt(directory.tables, directory.root, a, 1).value;
      && table in directory.tables && |directory.tables[table]| == 512
      && var after := SetEntry(directory.tables, table, Index(a, 1), entry);
      TreeOk(after, directory.place, directory.root) && LowIdentity(after, directory.root)
      && TableAgrees(after, directory.root, records')
  {
    SetLeaf(directory.tables, directory.place, directory.root, a, entry);
    AlignDownAligned(a);
  }

  lemma OneChange(records: Records, a: nat, record: Record)
    requires a in records && CanonicalPages(records)
    ensures Aligned(a) && CanonicalUser(a) && CanonicalPages(records[a := record])
    ensures records[a := record] - {a} == records - {a}
    ensures LeafFor(records[a := record], a) == EntryFor(record)
  {
  }

  /** Table pages and frame pages are live and disjoint. */
  ghost predicate HeapSplit(tables: set<nat>, frames: set<nat>, live: set<nat>) {
    tables <= live && frames <= live - tables
  }

  /** Live pages that are neither tables nor frames. */
  ghost function Remaining(tables: set<nat>, frames: set<nat>, live: set<nat>): set<nat> {
    live - tables - frames
  }

  lemma SplitRelease(tables: set<nat>, frames: set<nat>, live: set<nat>, f: nat)
    requires HeapSplit(tables, frames, live) && f in frames
    ensures HeapSplit(tables, frames - {f}, live - {f})
    ensures Remaining(tables, frames - {f}, live - {f}) == Remaining(tables, frames, live)
  {
  }

  /** vm_frame_create, vm_frame_retain and vm_frame_release over one heap. */
  class FrameTable {
    const heap: PageHeap
    var frames: Frames

    ghost predicate Valid()
      reads this, heap
    {
      FramesOk(frames) && frames.Keys <= heap.live
    }

    constructor (heap: PageHeap)
      ensures Valid() && this.heap == heap && frames == map[]
    {
      this.heap := heap;
      frames := map[];
    }

    method Create() returns (frame: Option<nat>)
      requires Valid()
      modifies this, heap
      ensures Valid()
      ensures frame.None? ==> frames == old(frames) && heap.live == old(heap.live)
      ensures heap.refusals == old(heap.refusals) + if frame.None? then 1 else 0
      ensures frame.Some? ==> frame.value !in old(heap.live) && frames == Created(old(frames), frame.value)
      ensures frame.Some? ==> heap.live == old(heap.live) + {frame.value}
    {
      frame := heap.Allocate();
      if frame.Some? {
        frames := Created(frames, frame.value);
      }
    }

    method Retain(frame: nat)
      requires frame in frames
      modifies this
      ensures frames == Retained(old(frames), frame) && frames.Keys == old(frames.Keys)
      ensures FramesOk(old(frames)) ==> FramesOk(frames)
    {
      frames := frames[frame := frames[frame].(references := frames[frame].references + 1)];
    }

    method Release(frame: nat)
      requires Valid() && frame in frames
      modifies this, heap
      ensures Valid() && frames == Released(old(frames), frame) && heap.refusals == old(heap.refusals)
      ensures old(frames)[frame].references == 1 ==>
        frames.Keys == old(frames.Keys) - {frame} && heap.live == old(heap.live) - {frame}
      ensures old(frames)[frame].references > 1 ==>
        frames.Keys == old(frames.Keys) && heap.live == old(heap.live)
    {
      var count := frames[frame].references - 1;
      if count > 0 {
        frames := frames[frame := frames[frame].(references := count)];
        return;
      }
      frames := frames - {frame};
      heap.Free(frame);
    }

    /** The copying part of make_private: a private copy of a frame, in exchange for one reference to it. */
    method Replace(frame: nat) returns (copy: Option<nat>)
      requires Valid() && frame in frames && frames[frame].references > 1
      modifies this, heap
      ensures Valid()
      ensures copy.None? ==> frames == old(frames) && heap.live == old(heap.live)
      ensures heap.refusals == old(heap.refusals) + if copy.None? then 1 else 0
      ensures copy.Some? ==> copy.value !in old(heap.live) && heap.live == old(heap.live) + {copy.value}
      ensures copy.Some? ==>
        frames == Released(old(frames), frame)[copy.value := Frame(old(frames)[frame].data, 1)]
    {
      copy := Create();
      if copy.Some? {
        frames := frames[copy.value := Frame(frames[frame].data, 1)];
        var count := frames[frame].references - 1;
        frames := frames[frame := frames[frame].(references := count)];
      }
    }
  }

  /** A page is mapped at `address` and its protection allows stores. */
  ghost predicate Writable(records: Records, address: nat) {
    AlignDown(address) in records && records[AlignDown(address)].protection.write
  }

  /** The page at `address` is writable for its owner but still waits for its own frame. */
  ghost predicate CopyPending(records: Records, address: nat) {
    Writable(records, address) && records[AlignDown(address)].copyOnWrite
  }

  lemma StackPage(address: nat)
    requires USER_STACK_BASE <= address < USER_STACK_TOP
    ensures Aligned(AlignDown(address)) && CanonicalUser(AlignDown(address))
  {
  }

  datatype FaultResult = Unhandled | Cow | Demand

  class VmSpace {
    const index: PageIndex
    const directory: PageDirectory

    ghost predicate Valid()
      reads this, index, index.pages, index.lookup, directory
    {
      && index.Valid() && directory.Valid()
      && CanonicalPages(Records())
      && TableAgrees(directory.tables, directory.root, Records())
    }

    ghost function Records(): map<nat, Record>
      reads index, index.pages
    {
      RecordsOf(index.pages[..])
    }

    /** The heap pages of the tables and of the frames are live and disjoint. */
    ghost predicate HeapOk(table: FrameTable)
      reads this, directory, table, table.heap
    {
      && FramesOk(table.frames)
      && HeapSplit(directory.tables.Keys, table.frames.Keys, table.heap.live)
    }

    /** Heap pages that belong to neither this space's tables nor any frame. */
    ghost function Others(table: FrameTable): set<nat>
      reads this, directory, table, table.heap
    {
      Remaining(directory.tables.Keys, table.frames.Keys, table.heap.live)
    }

    constructor (pages: seq<nat>, maxPages: nat, hashSize: nat, maxTables: nat)
      requires |pages| == 6 && Distinct(pages) && maxPages > 0 && hashSize > 0
      ensures Valid() && Records() == map[]
      ensures directory.tables.Keys == (set page | page in pages) && directory.rootPages == pages
      ensures fresh(index) && fresh(index.pages) && fresh(index.lookup) && fresh(directory)
      ensures index.pages.Length == maxPages && index.lookup.Length == hashSize && directory.maxTables == maxTables
      ensures index.Load() == 0 && directory.extraTables == []
    {
      index := new PageIndex(maxPages, hashSize);
      directory := new PageDirectory(pages, maxTables);
    }

    /** vm_frame_create as seen from a space. */
    method TakeFrame(table: FrameTable) returns (frame: Option<nat>)
      requires HeapOk(table)
      modifies table, table.heap
      ensures HeapOk(table) && Others(table) == old(Others(table))
      ensures frame.None? ==> table.frames == old(table.frames)
      ensures table.heap.refusals == old(table.heap.refusals) + if frame.None? then 1 else 0
      ensures frame.Some? ==> frame.value !in old(table.frames) && table.frames == Created(old(table.frames), frame.value)
    {
      frame := table.Create();
    }

    /** vm_frame_release as seen from a space. */
    method DropFrame(table: FrameTable, frame: nat)
      requires HeapOk(table) && frame in table.frames && table.frames[frame].references > 0
      modifies table, table.heap
      ensures HeapOk(table) && Others(table) == old(Others(table))
      ensures table.frames == Released(old(table.frames), frame) && table.heap.refusals == old(table.heap.refusals)
    {
      SplitRelease(directory.tables.Keys, table.frames.Keys, table.heap.live, frame);
      table.Release(frame);
    }

    /** The copying part of make_private as seen from a space. */
    method SwapFrame(table: FrameTable, frame: nat) returns (copy: Option<nat>)
      requires HeapOk(table) && frame in table.frames && table.frames[frame].references > 1
      modifies table, table.heap
      ensures HeapOk(table) && Others(table) == old(Others(table))
      ensures copy.None? ==> table.frames == old(table.frames)
      ensures table.heap.refusals == old(table.heap.refusals) + if copy.None? then 1 else 0
      ensures copy.Some? ==> copy.value !in old(table.frames)
      ensures copy.Some? ==>
        table.frames == Released(old(table.frames), frame)[copy.value := Frame(old(table.frames)[frame].data, 1)]
    {
      copy := table.Replace(frame);
    }

    /** Writes the leaf entry of a page whose record was just changed. */
    method WriteLeaf(table: nat, address: nat, entry: Entry, ghost before: Records)
      requires index.Valid() && directory.Valid() && CanonicalPages(Records())
      requires TableAgrees(directory.tables, directory.root, before)
      requires Aligned(address) && CanonicalUser(address)
      requires TableAt(directory.tables, directory.root, address, 1) == Some(table)
      requires entry == LeafFor(Records(), address)
      requires Records() - {address} == before - {address}
      modifies directory
      ensures Valid() && directory.tables.Keys == old(directory.tables.Keys)
      ensures directory.extraTables == old(directory.extraTables)
    {
      forall b: nat | b != address ensures LeafFor(Records(), b) == LeafFor(before, b) {
        assert b in Records() <==> b in Records() - {address};
        assert b in before <==> b in before - {address};
        if b in before {
          assert Records()[b] == (Records() - {address})[b] == (before - {address})[b];
        }
      }
      SetLeafAgrees(directory, before, Records(), address, entry);
      directory.tables := SetEntry(directory.tables, table, Index(address, 1), entry);
    }

    /** install_page: record, index slot and leaf entry for a page not mapped yet. */
    method InstallPage(table: FrameTable, address: nat, record: Record) returns (ok: bool)
      requires Valid() && HeapOk(table) && Aligned(address) && address !in Records()
      modifies index, index.pages, index.lookup, directory, table.heap
      ensures Valid() && HeapOk(table) && Others(table) == old(Others(table))
      ensures ok ==> CanonicalUser(address) && Records() == old(Records())[address := record]
      ensures !ok ==> Records() == old(Records())
      ensures !ok && CanonicalUser(address) ==>
        old(index.Crowded()) || directory.Starved(table.heap, old(table.heap.refusals))
      ensures table.heap.refusals >= old(table.heap.refusals)
      ensures |directory.extraTables| <= old(|directory.extraTables|) + 3
      ensures index.Load() <= old(index.Load()) + 1
    {
      hide PageIndex.Valid, PageDirectory.Valid, RecordsOf, CanonicalUser, PageIndex.Load;
      hide TableAt, Index, AlignDown, TreeOk, Distinct, UserTranslation;
      var slot := index.ReserveRecord();
      var leafTable := directory.WalkEntry(table.heap, address);
      if slot.None? || leafTable.None? {
        return false;
      }
      var page := VmPage(true, address, record.frame, record.protection, record.copyOnWrite, record.shared);
      ok := index.AddRecord(slot.value, page);
      if ok {
        WriteLeaf(leafTable.value, address, EntryFor(record), old(Records()));
      }
    }

    /** A mapped page has a leaf table, so the walk to it cannot fail. */
    lemma MappedHasTable(slot: nat)
      requires Valid() && slot < index.pages.Length && index.pages[slot].used
      ensures var address := index.pages[slot].virtualAddress;
        && address in Records() && Records()[address] == RecordOf(index.pages[slot])
        && TableAt(directory.tables, directory.root, address, 1).Some?
    {
      var address := index.pages[slot].virtualAddress;
      RecordsAt(index.pages[..], slot);
      AlignDownAligned(address);
      assert Leaf(directory.tables, directory.root, address).present;
    }

    /** Changes a page's record in place and rewrites its leaf entry to match. */
    method RewriteRecord(slot: nat, record: Record)
      requires Valid()
      requires slot < index.pages.Length && index.pages[slot].used
      modifies index.pages, directory
      ensures Valid() && directory.tables.Keys == old(directory.tables.Keys)
      ensures Records() == old(Records())[old(index.pages[slot].virtualAddress) := record]
      ensures index.pages[..] == old(index.pages[..])[slot := WithRecord(old(index.pages[slot]), record)]
    {
      var address := index.pages[slot].virtualAddress;
      MappedHasTable(slot);
      OneChange(Records(), address, record);
      hide PageIndex.Valid, PageDirectory.Valid, RecordsOf, CanonicalUser, CanonicalPages, LeafFor, TableAgrees;
      index.ChangeRecord(slot, record);
      var leafTable := directory.FindEntry(address);
      if leafTable.None? {
        assert false;
      }
      WriteLeaf(leafTable.value, address, EntryFor(record), old(Records()));
    }

    lemma AlignedRecords()
      requires Valid()
      ensures forall a :: a in Records() ==> Aligned(a)
    {
    }

    /** The first loop of vm_protect and vm_mark_shared: is every page of the range mapped? */
    method AllMapped(first: nat, end: nat) returns (ok: bool)
      requires Valid() && Aligned(first) && Aligned(end)
      ensures ok <==> RangeMapped(Records(), first, end)
    {
      hide PageIndex.Valid, PageDirectory.Valid, RecordsOf, CanonicalPages, TableAgrees, AlignDown, Aligned, RangeMapped;
      RangeStarts(Records(), first, first);
      if end <= first {
        RangeStarts(Records(), first, end);
        return true;
      }
      var page := first;
      while page < end
        invariant Aligned(page) && first <= page <= end
        invariant RangeMapped(Records(), first, page)
      {
        AlignDownAligned(page);
        var found := index.FindPage(page);
        if found.None? {
          RangeLacks(Records(), first, end, page);
          return false;
        }
        RangeMappedStep(Records(), first, page);
        NextPage(page, end);
        page := page + PAGE_SIZE;
      }
      return true;
    }

    /** The second loop of vm_protect. */
    method ProtectPages(table: FrameTable, first: nat, end: nat, protection: Protection)
      requires Valid() && Backed(Records(), table.frames)
      requires Aligned(first) && Aligned(end) && RangeMapped(Records(), first, end)
      modifies index.pages, directory
      ensures Valid() && directory.tables.Keys == old(directory.tables.Keys)
      ensures Records() == ProtectRange(old(Records()), table.frames, first, end, protection)
    {
      hide PageIndex.Valid, PageDirectory.Valid, RecordsOf, CanonicalPages, TableAgrees, AlignDown, Aligned;
      hide Protected, ProtectRange, RangeMapped;
      ghost var before := Records();
      ProtectNothing(before, table.frames, first, first, protection);
      if end <= first {
        ProtectNothing(before, table.frames, first, end, protection);
        return;
      }
      AlignedRecords();
      var page := first;
      while page < end
        invariant Aligned(page) && first <= page <= end
        invariant Valid() && directory.tables.Keys == old(directory.tables.Keys)
        invariant Records() == ProtectRange(before, table.frames, first, page, protection)
      {
        AlignDownAligned(page);
        RangeHas(before, first, end, page);
        ProtectStep(before, table.frames, first, page, protection);
        var found := index.FindPage(page);
        if found.None? {
          assert false;
        }
        var record := RecordOf(index.pages[found.value]);
        RewriteRecord(found.value, Protected(record, table.frames[record.frame].references, protection));
        NextPage(page, end);
        page := page + PAGE_SIZE;
      }
    }

    /** vm_protect: all pages of the range or none; writable private pages with other users become copy-on-write. */
    method Protect(table: FrameTable, address: nat, size: nat, protection: Protection) returns (ok: bool)
      requires Valid() && Backed(Records(), table.frames)
      modifies index.pages, directory
      ensures Valid() && directory.tables.Keys == old(directory.tables.Keys)
      ensures ok <==> Covered(old(Records()), address, size)
      ensures Records() == if ok
        then ProtectRange(old(Records()), table.frames, AlignDown(address), AlignUp(address + size), protection)
        else old(Records())
      ensures ok <==>
        size > 0 && address + size < WORD && (RoundsOver(address, size) || AllMet(old(Records()), address, size))
      ensures RoundsOver(address, size) ==> Records() == old(Records())
    {
      hide RecordsOf, TableAgrees, CanonicalPages, RangeMapped, AlignDown, AlignUp, AllMet, ProtectRange;
      CoveredExactly(Records(), address, size);
      if size > 0 && address + size < WORD && RoundsOver(address, size) {
        RoundsOverTouchesNothing(Records(), table.frames, address, size, protection);
      }
      if size == 0 || address + size >= WORD {
        return false;
      }
      AlignDownAligned(address);
      AlignUpAligned(address + size);
      ok := AllMapped(AlignDown(address), AlignUp(address + size));
      if ok {
        ProtectPages(table, AlignDown(address), AlignUp(address + size), protection);
      }
    }

    /** The second loop of vm_mark_shared. */
    method SharePages(first: nat, end: nat)
      requires Valid() && Aligned(first) && Aligned(end) && RangeMapped(Records(), first, end)
      modifies index.pages, directory
      ensures Valid() && directory.tables.Keys == old(directory.tables.Keys)
      ensures Records() == ShareRange(old(Records()), first, end)
    {
      hide PageIndex.Valid, PageDirectory.Valid, RecordsOf, CanonicalPages, TableAgrees, AlignDown, Aligned;
      hide ShareRange, RangeMapped;
      ghost var before := Records();
      ShareNothing(before, first, first);
      if end <= first {
        ShareNothing(before, first, end);
        return;
      }
      AlignedRecords();
      var page := first;
      while page < end
        invariant Aligned(page) && first <= page <= end
        invariant Valid() && directory.tables.Keys == old(directory.tables.Keys)
        invariant Records() == ShareRange(before, first, page)
      {
        AlignDownAligned(page);
        RangeHas(before, first, end, page);
        ShareStep(before, first, page);
        var found := index.FindPage(page);
        if found.None? {
          assert false;
        }
        var record := RecordOf(index.pages[found.value]);
        RewriteRecord(found.value, record.(shared := true, copyOnWrite := false));
        NextPage(page, end);
        page := page + PAGE_SIZE;
      }
    }

    /** vm_mark_shared: all pages of the range or none. */
    method MarkShared(address: nat, size: nat) returns (ok: bool)
      requires Valid()
      modifies index.pages, directory
      ensures Valid() && directory.tables.Keys == old(directory.tables.Keys)
      ensures ok <==> Covered(old(Records()), address, size)
      ensures Records() == if ok
        then ShareRange(old(Records()), AlignDown(address), AlignUp(address + size)) else old(Records())
      ensures ok <==>
        size > 0 && address + size < WORD && (RoundsOver(address, size) || AllMet(old(Records()), address, size))
      ensures RoundsOver(address, size) ==> Records() == old(Records())
    {
      hide RecordsOf, TableAgrees, CanonicalPages, RangeMapped, AlignDown, AlignUp, AllMet;
      CoveredExactly(Records(), address, size);
      if size > 0 && address + size < WORD && RoundsOver(address, size) {
        RoundedToZero(address, size);
        ShareNothing(Records(), AlignDown(address), AlignUp(address + size));
      }
      if size == 0 || address + size >= WORD {
        return false;
      }
      AlignDownAligned(address);
      AlignUpAligned(address + size);
      ok := AllMapped(AlignDown(address), AlignUp(address + size));
      if ok {
        SharePages(AlignDown(address), AlignUp(address + size));
      }
    }

    /** vm_map_page: a zeroed private page, or new protection for a page that exists. */
    method MapPage(table: FrameTable, address: nat, protection: Protection) returns (ok: bool, ghost frame: nat)
      requires Valid() && HeapOk(table) && Backed(Records(), table.frames)
      modifies index, index.pages, index.lookup, directory, table, table.heap
      ensures Valid() && HeapOk(table) && Others(table) == old(Others(table))
      ensures ok ==> MappedPage(old(Records()), old(table.frames), address, protection, frame, Records(), table.frames)
      ensures !ok ==> Records() == old(Records()) && table.frames == old(table.frames)
      ensures !ok && Aligned(address) && CanonicalUser(address) ==> address !in old(Records())
      ensures !ok && Aligned(address) && CanonicalUser(address) ==>
        old(index.Crowded()) || directory.Starved(table.heap, old(table.heap.refusals))
    {
      hide HeapSplit, Remaining;
      hide PageIndex.Valid, PageDirectory.Valid, RecordsOf, CanonicalPages, TableAgrees, AlignDown, AlignUp, RangeMapped;
      hide ProtectRange, ZeroPage;
      frame := 0;
      if !Aligned(address) || !CanonicalUser(address) {
        return false, 0;
      }
      AlignDownAligned(address);
      var existing := index.FindPage(address);
      if existing.Some? {
        OnePageRange(Records(), address);
        ok := Protect(table, address, PAGE_SIZE, protection);
        return;
      }
      var created := TakeFrame(table);
      if created.None? {
        return false, 0;
      }
      frame := created.value;
      ok := InstallPage(table, address, Record(created.value, protection, false, false));
      if !ok {
        DropFrame(table, created.value);
        assert table.frames == old(table.frames);
      }
    }

    /** vm_map_shared_frame: alias an existing frame; a mapped page is refused. */
    method MapSharedFrame(table: FrameTable, address: nat, frame: nat, protection: Protection) returns (ok: bool)
      requires Valid() && HeapOk(table) && frame in table.frames
      modifies index, index.pages, index.lookup, directory, table, table.heap
      ensures Valid() && HeapOk(table) && Others(table) == old(Others(table))
      ensures ok ==> Aligned(address) && CanonicalUser(address) && address !in old(Records())
      ensures ok ==> Records() == old(Records())[address := Record(frame, protection, false, true)]
      ensures ok ==> table.frames == Retained(old(table.frames), frame)
      ensures !ok ==> Records() == old(Records()) && table.frames == old(table.frames)
      ensures !ok && Aligned(address) && CanonicalUser(address) && address !in old(Records()) ==>
        old(index.Crowded()) || directory.Starved(table.heap, old(table.heap.refusals))
    {
      hide HeapSplit, Remaining;
      hide PageIndex.Valid, PageDirectory.Valid, RecordsOf, CanonicalPages, TableAgrees, AlignDown;
      if !Aligned(address) || !CanonicalUser(address) {
        return false;
      }
      AlignDownAligned(address);
      var existing := index.FindPage(address);
      if existing.Some? {
        return false;
      }
      table.Retain(frame);
      ok := InstallPage(table, address, Record(frame, protection, false, true));
      if !ok {
        DropFrame(table, frame);
        assert table.frames == old(table.frames);
      }
    }

    /** vm_unmap_page: clear the leaf, drop the record, release the frame. */
    method UnmapPage(table: FrameTable, address: nat) returns (ok: bool)
      requires Valid() && HeapOk(table) && Backed(Records(), table.frames)
      modifies index, index.pages, index.lookup, directory, table, table.heap
      ensures Valid() && HeapOk(table) && Others(table) == old(Others(table))
      ensures ok <==> AlignDown(address) in old(Records())
      ensures ok ==> Records() == old(Records()) - {AlignDown(address)}
      ensures ok ==> table.frames == Released(old(table.frames), old(Records())[AlignDown(address)].frame)
      ensures !ok ==> Records() == old(Records()) && table.frames == old(table.frames)
    {
      hide HeapSplit, Remaining;
      hide PageIndex.Valid, PageDirectory.Valid, RecordsOf, CanonicalPages, TableAgrees, AlignDown, CanonicalUser, Aligned;
      var page := AlignDown(address);
      AlignDownAligned(address);
      AlignDownAligned(page);
      var found := index.FindPage(page);
      if found.None? {
        return false;
      }
      OneRemoval(found.value);
      var frame := index.pages[found.value].frame;
      var leafTable := directory.FindEntry(page);
      if leafTable.None? {
        assert false;
      }
      index.DropRecord(found.value);
      WriteLeaf(leafTable.value, page, ZERO, old(Records()));
      DropFrame(table, frame);
      return true;
    }

    lemma OneRemoval(slot: nat)
      requires Valid() && slot < index.pages.Length && index.pages[slot].used
      ensures var a := index.pages[slot].virtualAddress;
        && a in Records() && Records()[a] == RecordOf(index.pages[slot])
        && Aligned(a) && CanonicalUser(a) && CanonicalPages(Records() - {a})
        && LeafFor(Records() - {a}, a) == ZERO && Records() - {a} - {a} == Records() - {a}
        && TableAt(directory.tables, directory.root, a, 1).Some?
    {
      MappedHasTable(slot);
    }

    /** make_private: give a copy-on-write page a frame of its own. */
    method MakePrivate(table: FrameTable, slot: nat) returns (ok: bool, ghost spare: nat)
      requires Valid() && HeapOk(table) && Backed(Records(), table.frames)
      requires slot < index.pages.Length && index.pages[slot].used
      modifies index.pages, directory, table, table.heap
      ensures Valid() && HeapOk(table) && Others(table) == old(Others(table))
      ensures var a := old(index.pages[slot].virtualAddress);
        && a in old(Records()) && old(Records())[a] == RecordOf(old(index.pages[slot]))
        && index.pages[slot].used && index.pages[slot].virtualAddress == a
        && (ok ==> MadePrivate(old(Records()), old(table.frames), a, spare, Records(), table.frames))
        && (ok ==> Records()[a] == RecordOf(index.pages[slot]))
      ensures !ok ==> Records() == old(Records()) && table.frames == old(table.frames)
      ensures !ok ==> !old(index.pages[slot]).protection.write || table.heap.refusals > old(table.heap.refusals)
      ensures table.heap.refusals >= old(table.heap.refusals)
    {
      hide HeapSplit, Remaining;
      hide PageIndex.Valid, PageDirectory.Valid, RecordsOf, CanonicalPages, TableAgrees, CanonicalUser, Aligned, ZeroPage;
      spare := 0;
      MappedHasTable(slot);
      var record := RecordOf(index.pages[slot]);
      if !record.copyOnWrite {
        return true, 0;
      }
      if !record.protection.write {
        return false, 0;
      }
      var frame := record.frame;
      if table.frames[frame].references > 1 {
        var replacement := SwapFrame(table, frame);
        if replacement.None? {
          return false, 0;
        }
        frame := replacement.value;
        spare := replacement.value;
      }
      RewriteRecord(slot, record.(frame := frame, copyOnWrite := false));
      return true, spare;
    }

    ghost function Snapshot(table: FrameTable): View
      reads index, index.pages, table
    {
      View(Records(), table.frames)
    }

    /** One chunk of vm_copy_to_user, inside one page. */
    method CopyChunk(table: FrameTable, address: nat, bytes: seq<byte>) returns (ok: bool)
      requires Valid() && HeapOk(table) && Backed(Records(), table.frames)
      requires address % PAGE_SIZE + |bytes| <= PAGE_SIZE
      modifies index.pages, directory, table, table.heap
      ensures Valid() && HeapOk(table) && Others(table) == old(Others(table)) && Backed(Records(), table.frames)
      ensures ok ==> ChunkCopied(old(Snapshot(table)), AlignDown(address), address % PAGE_SIZE, bytes, Snapshot(table))
      ensures !ok ==> Snapshot(table) == old(Snapshot(table))
      ensures AlignDown(address) !in old(Records()) ==> !ok
      ensures AlignDown(address) in old(Records()) && !old(Records())[AlignDown(address)].protection.write ==> !ok
      ensures !ok ==> !Writable(Records(), address) || table.heap.refusals > old(table.heap.refusals)
      ensures table.heap.refusals >= old(table.heap.refusals)
    {
      hide HeapSplit, Remaining;
      hide PageIndex.Valid, PageDirectory.Valid, RecordsOf, CanonicalPages, TableAgrees, AlignDown, CanonicalUser;
      hide Splice, Privatized, Stored, ChunkCopied, Backed, FramesOk;
      var found := index.FindPage(address);
      if found.None? {
        return false;
      }
      var slot := found.value;
      if !index.pages[slot].protection.write {
        return false;
      }
      ghost var spare;
      ok, spare := MakePrivate(table, slot);
      if !ok {
        return false;
      }
      ChunkDone(old(Snapshot(table)), AlignDown(address), address % PAGE_SIZE, bytes, spare);
      var frame := index.pages[slot].frame;
      table.frames := Stored(table.frames, frame, address % PAGE_SIZE, bytes);
      return true;
    }

    /**
     vm_copy_to_user: chunk by chunk; the trace holds the state after each
     chunk, so a failed copy has written exactly the chunks before the failure.
     */
    method CopyToUser(table: FrameTable, destination: nat, source: seq<byte>)
      returns (ok: bool, ghost trace: seq<View>)
      requires Valid() && HeapOk(table) && Backed(Records(), table.frames)
      modifies index.pages, directory, table, table.heap
      ensures Valid() && HeapOk(table) && Others(table) == old(Others(table)) && Backed(Records(), table.frames)
      ensures CopyTrace(trace, destination, source)
      ensures trace[0] == old(Snapshot(table)) && trace[|trace| - 1] == Snapshot(table)
      ensures ok <==> Consumed(destination, |source|, |trace| - 1) == |source|
      ensures !ok ==> var next := destination + Consumed(destination, |source|, |trace| - 1);
        !Writable(Records(), next) || table.heap.refusals > old(table.heap.refusals)
    {
      hide Writable;
      hide VmSpace.Valid, VmSpace.HeapOk, VmSpace.Others, VmSpace.Snapshot, VmSpace.Records;
      hide CopyTrace, Consumed, ChunkCopied, AlignDown, Backed;
      trace := [Snapshot(table)];
      StartTrace(Snapshot(table), destination, source);
      ok := true;
      var consumed := 0;
      while consumed < |source|
        invariant Valid() && HeapOk(table) && Others(table) == old(Others(table)) && Backed(Records(), table.frames)
        invariant CopyTrace(trace, destination, source)
        invariant |trace| > 0 && trace[0] == old(Snapshot(table)) && trace[|trace| - 1] == Snapshot(table)
        invariant consumed == Consumed(destination, |source|, |trace| - 1) <= |source|
        invariant table.heap.refusals >= old(table.heap.refusals)
        decreases |source| - consumed
      {
        var within := (destination + consumed) % PAGE_SIZE;
        var chunk := PAGE_SIZE - within;
        if chunk > |source| - consumed {
          chunk := |source| - consumed;
        }
        ConsumedStep(destination, |source|, |trace| - 1);
        var written := CopyChunk(table, destination + consumed, source[consumed..consumed + chunk]);
        if !written {
          return false, trace;
        }
        ExtendTrace(trace, destination, source, Snapshot(table));
        trace := trace + [Snapshot(table)];
        consumed := consumed + chunk;
      }
    }

    /** vm_copy_from_user: the bytes of the range, if every page of it is mapped. */
    method CopyFromUser(table: FrameTable, source: nat, size: nat) returns (bytes: Option<seq<byte>>)
      requires Valid() && FramesOk(table.frames) && Backed(Records(), table.frames)
      ensures bytes.Some? <==> forall a: nat :: source <= a < source + size ==> ByteAt(Snapshot(table), a).Some?
      ensures bytes.Some? ==> |bytes.value| == size
      ensures bytes.Some? ==>
        forall a: nat :: source <= a < source + size ==> ByteAt(Snapshot(table), a) == Some(bytes.value[a - source])
    {
      hide PageIndex.Valid, PageDirectory.Valid, RecordsOf, CanonicalPages, TableAgrees, CanonicalUser, FramesOk, Backed;
      var output: seq<byte> := [];
      while |output| < size
        invariant |output| <= size
        invariant forall a: nat :: source <= a < source + |output| ==>
          ByteAt(Snapshot(table), a) == Some(output[a - source])
        decreases size - |output|
      {
        var address := source + |output|;
        var found := index.FindPage(address);
        if found.None? {
          assert ByteAt(Snapshot(table), address).None?;
          return None;
        }
        var within := address % PAGE_SIZE;
        var chunk := PAGE_SIZE - within;
        if chunk > size - |output| {
          chunk := size - |output|;
        }
        PageBytes(Snapshot(table), address, chunk);
        var data := table.frames[index.pages[found.value].frame].data;
        output := output + data[within..within + chunk];
      }
      return Some(output);
    }

    /** vm_handle_page_fault: copy-on-write on a user write to a present page, demand paging in the stack. */
    method HandlePageFault(table: FrameTable, address: nat, present: bool, write: bool, user: bool)
      returns (result: FaultResult, ghost spare: nat)
      requires Valid() && HeapOk(table) && Backed(Records(), table.frames)
      modifies index, index.pages, index.lookup, directory, table, table.heap
      ensures Valid() && HeapOk(table) && Others(table) == old(Others(table))
      ensures result.Unhandled? ==> Snapshot(table) == old(Snapshot(table))
      ensures result.Cow? ==> present && write && user
      ensures result.Cow? ==> AlignDown(address) in old(Records()) && old(Records())[AlignDown(address)].copyOnWrite
      ensures result.Cow? ==>
        MadePrivate(old(Records()), old(table.frames), AlignDown(address), spare, Records(), table.frames)
      ensures result.Demand? ==> !present && user && USER_STACK_BASE <= address < USER_STACK_TOP
      ensures result.Demand? ==>
        MappedPage(old(Records()), old(table.frames), AlignDown(address), READ_WRITE, spare, Records(), table.frames)
      ensures present && write && user && CopyPending(old(Records()), address) ==>
        result.Cow? || table.heap.refusals > old(table.heap.refusals)
      ensures !present && user && USER_STACK_BASE <= address < USER_STACK_TOP ==>
        result.Demand? || old(index.Crowded()) || directory.Starved(table.heap, old(table.heap.refusals))
    {
      hide HeapSplit, Remaining;
      hide PageIndex.Valid, PageDirectory.Valid, RecordsOf, CanonicalPages, TableAgrees, CanonicalUser, AlignDown;
      hide MadePrivate, MappedPage;
      spare := 0;
      if !user {
        return Unhandled, 0;
      }
      if present && write {
        var found := index.FindPage(address);
        if found.None? || !index.pages[found.value].copyOnWrite {
          return Unhandled, 0;
        }
        var ok;
        ok, spare := MakePrivate(table, found.value);
        return if ok then Cow else Unhandled, spare;
      }
      if !present && USER_STACK_BASE <= address < USER_STACK_TOP {
        StackPage(address);
        var ok;
        ok, spare := MapPage(table, AlignDown(address), READ_WRITE);
        return if ok then Demand else Unhandled, spare;
      }
      return Unhandled, 0;
    }

    /** vm_space_reset_user: release every frame and return to an empty space. */
    method Reset(table: FrameTable)
      requires Valid() && HeapOk(table) && Counted(Records(), table.frames)
      modifies index, index.pages, index.lookup, directory, table, table.heap
      ensures Valid() && HeapOk(table) && Others(table) == old(Others(table))
      ensures Records() == map[] && table.frames == ReleaseAll(old(Records()), old(table.frames))
      ensures directory.tables.Keys == (set page | page in directory.rootPages)
      ensures table.heap.refusals == old(table.heap.refusals)
    {
      hide PageDirectory.Valid, RecordsOf, TableAgrees, CanonicalPages, Counted, ReleaseAll;
      ghost var pages, frames := index.pages[..], table.frames;
      ReleaseNothing(frames);
      EmptyPrefix(pages);
      for i := 0 to index.pages.Length
        invariant forall j: nat :: j < i ==> !index.pages[j].used
        invariant forall j: nat :: i <= j < index.pages.Length ==> index.pages[j] == pages[j]
        invariant directory.Valid() && directory.tables == old(directory.tables)
        invariant HeapOk(table) && Others(table) == old(Others(table)) && table.heap.refusals == old(table.heap.refusals)
        invariant Counted(RecordsOf(pages[..i]), frames) && table.frames == ReleaseAll(RecordsOf(pages[..i]), frames)
      {
        PrefixCounted(pages, i + 1, frames);
        RecordsPrefix(pages, i);
        if index.pages[i].used {
          ReleaseAllStep(RecordsOf(pages[..i]), pages[i].virtualAddress, RecordOf(pages[i]), frames);
          DropFrame(table, index.pages[i].frame);
          index.pages[i] := UNUSED;
        }
      }
      assert pages[..index.pages.Length] == pages;
      index.ClearLookup();
      ResetTables(table);
    }

    method ResetTables(table: FrameTable)
      requires index.Valid() && Records() == map[] && directory.Valid() && HeapOk(table)
      modifies directory, table.heap
      ensures Valid() && HeapOk(table) && Others(table) == old(Others(table))
      ensures directory.tables.Keys == (set page | page in directory.rootPages)
      ensures table.heap.refusals == old(table.heap.refusals)
    {
      directory.Reset(table.heap);
    }

    /** This space and its clone live side by side on the heap. */
    ghost predicate Apart(table: FrameTable, clone: VmSpace, others: set<nat>)
      reads this, directory, clone, clone.directory, table, table.heap
    {
      && HeapOk(table) && clone.HeapOk(table)
      && directory.tables.Keys <= others && clone.Others(table) == others
    }

    /** No heap object is shared with the clone. */
    ghost predicate Separate(clone: VmSpace) {
      && index != clone.index && index.pages != clone.index.pages
      && index.lookup != clone.index.lookup && directory != clone.directory
    }

    /** Makes the clone alias one page: a reference to its frame and a record, or nothing at all. */
    method AliasPage(table: FrameTable, clone: VmSpace, slot: nat, ghost others: set<nat>, ghost used: nat)
      returns (ok: bool)
      requires Valid() && clone.Valid() && clone.Light(used) && Apart(table, clone, others) && Backed(Records(), table.frames)
      requires Separate(clone)
      requires slot < index.pages.Length && index.pages[slot].used
      requires index.pages[slot].virtualAddress !in clone.Records()
      modifies clone.index, clone.index.pages, clone.index.lookup, clone.directory, table, table.heap
      ensures Valid() && clone.Valid() && Apart(table, clone, others)
      ensures var record := RecordOf(index.pages[slot]);
        && record.frame in old(table.frames)
        && (ok ==> table.frames == Retained(old(table.frames), record.frame))
        && (ok ==> clone.Records() == old(clone.Records())[index.pages[slot].virtualAddress := ChildRecord(record)])
      ensures !ok ==> table.frames == old(table.frames) && clone.Records() == old(clone.Records())
      ensures !ok ==> table.heap.refusals > old(table.heap.refusals) || !clone.RoomFor(used + 1)
      ensures table.heap.refusals >= old(table.heap.refusals) && clone.Light(used + 1)
    {
      hide HeapSplit, Remaining;
      hide PageIndex.Valid, PageDirectory.Valid, RecordsOf, TableAgrees, CanonicalPages, CanonicalUser, Backed, Aligned, FramesOk;
      hide VmSpace.Light, VmSpace.RoomFor, Roomy;
      MappedHasTable(slot);
      AlignedSlot(slot);
      BackedAt(Records(), table.frames, index.pages[slot].virtualAddress);
      var page := index.pages[slot];
      var copyOnWrite := !page.shared && page.protection.write;
      RetainThenRelease(table.frames, page.frame);
      table.Retain(page.frame);
      ok := clone.InstallWithin(table, page.virtualAddress,
                                Record(page.frame, page.protection, copyOnWrite, page.shared), used);
      if !ok {
        clone.DropFrame(table, page.frame);
      }
      StayApart(table, clone, others);
    }

    /** One iteration of vm_space_clone_cow: alias the page, copy-on-write on both sides when it is private and writable. */
    method CloneSlot(table: FrameTable, clone: VmSpace, slot: nat, ghost others: set<nat>, ghost used: nat)
      returns (ok: bool)
      requires Valid() && clone.Valid() && clone.Light(used) && Apart(table, clone, others) && Backed(Records(), table.frames)
      requires Separate(clone)
      requires slot < index.pages.Length && index.pages[slot].used
      requires index.pages[slot].virtualAddress !in clone.Records()
      modifies index.pages, directory, clone.index, clone.index.pages, clone.index.lookup, clone.directory
      modifies table, table.heap
      ensures Valid() && clone.Valid() && Apart(table, clone, others)
      ensures directory.tables.Keys == old(directory.tables.Keys)
      ensures var record := old(RecordOf(index.pages[slot]));
        && record.frame in old(table.frames)
        && (ok ==> table.frames == Retained(old(table.frames), record.frame))
        && (ok ==> clone.Records() == old(clone.Records())[old(index.pages[slot]).virtualAddress := ChildRecord(record)])
        && (ok ==> index.pages[..] == old(index.pages[..])[slot := MarkPage(old(index.pages[slot]))])
        && (ok ==> Records() == old(Records())[old(index.pages[slot]).virtualAddress := ParentRecord(record)])
      ensures !ok ==> table.frames == old(table.frames)
      ensures !ok ==> clone.Records() == old(clone.Records()) && index.pages[..] == old(index.pages[..])
      ensures !ok ==> table.heap.refusals > old(table.heap.refusals) || !clone.RoomFor(used + 1)
      ensures table.heap.refusals >= old(table.heap.refusals) && clone.Light(used + 1)
    {
      hide HeapSplit, Remaining, Retained, ChildRecord;
      hide PageIndex.Valid, PageDirectory.Valid, RecordsOf, TableAgrees, CanonicalPages, CanonicalUser, Backed, Aligned, FramesOk;
      hide VmSpace.Light, VmSpace.RoomFor, Roomy;
      MappedHasTable(slot);
      var page := index.pages[slot];
      ok := AliasPage(table, clone, slot, others, used);
      if !ok {
        return false;
      }
      if !page.shared && page.protection.write {
        RewriteRecord(slot, RecordOf(page).(copyOnWrite := true));
      } else {
        assert old(index.pages[..])[slot := page] == old(index.pages[..]);
        assert old(Records())[page.virtualAddress := RecordOf(page)] == old(Records());
      }
      return true;
    }

    /** vm_space_clone_cow: on success the clone aliases every frame; on failure all references are given back. */
    method CloneCow(table: FrameTable, maxPages: nat, hashSize: nat, maxTables: nat) returns (clone: Option<VmSpace>)
      requires Valid() && HeapOk(table) && Backed(Records(), table.frames) && maxPages > 0 && hashSize > 0
      modifies index.pages, directory, table, table.heap
      ensures Valid() && HeapOk(table) && directory.tables.Keys == old(directory.tables.Keys)
      ensures clone.Some? ==> fresh(clone.value) && clone.value.Valid() && Separate(clone.value)
      ensures clone.Some? ==> Apart(table, clone.value, old(table.heap.live) - old(table.frames.Keys))
      ensures clone.Some? ==> clone.value.Records() == ChildRecords(old(Records()))
      ensures clone.Some? ==> Records() == ParentRecords(old(Records()))
      ensures clone.Some? ==> table.frames == RetainAll(old(Records()), old(table.frames))
      ensures clone.None? ==> PartlyMarked(old(Records()), Records())
      ensures clone.None? ==> table.frames == old(table.frames) && table.heap.live == old(table.heap.live)
      ensures clone.None? ==>
        table.heap.refusals > old(table.heap.refusals) || !Roomy(maxPages, hashSize, maxTables, PageCount(old(Records())))
    {
      hide PageIndex.Crowded, PageIndex.Load, Roomy, VmSpace.Light, PageCount;
      hide PageIndex.Valid, PageDirectory.Valid, RecordsOf, TableAgrees, CanonicalPages, ChildRecords, ParentRecords;
      hide PartlyMarked, RetainAll, Backed, FramesOk;
      var root := table.heap.AllocateRun(6);
      if root.None? {
        NothingMarked(Records());
        return None;
      }
      var child := new VmSpace(root.value, maxPages, hashSize, maxTables);
      ghost var others := old(table.heap.live) - table.frames.Keys;
      NewSpaceApart(table, child, old(table.heap.live));
      child.NewIsLight();
      var ok := CloneInto(table, child, others);
      if !ok {
        StillHeapOk(table, others);
        assert table.heap.live == old(table.heap.live);
        return None;
      }
      return Some(child);
    }

    /** The loop of vm_space_clone_cow over all record slots. */
    method CloneInto(table: FrameTable, child: VmSpace, ghost others: set<nat>) returns (ok: bool)
      requires Valid() && child.Valid() && Apart(table, child, others) && Separate(child)
      requires Backed(Records(), table.frames) && child.Records() == map[]
      requires child.Light(0)
      modifies index.pages, directory, table, table.heap
      modifies child.index, child.index.pages, child.index.lookup, child.directory
      ensures Valid() && directory.tables.Keys == old(directory.tables.Keys)
      ensures ok ==> child.Valid() && Apart(table, child, others)
      ensures ok ==> child.Records() == ChildRecords(old(Records())) && Records() == ParentRecords(old(Records()))
      ensures ok ==> table.frames == RetainAll(old(Records()), old(table.frames))
      ensures !ok ==> PartlyMarked(old(Records()), Records())
      ensures !ok ==> table.frames == old(table.frames) && table.heap.live == others + old(table.frames).Keys
      ensures !ok ==> table.heap.refusals > old(table.heap.refusals) || !child.RoomFor(PageCount(old(Records())))
    {
      hide VmSpace.Light, VmSpace.RoomFor, Roomy, PageCount, VmSpace.Valid, VmSpace.HeapOk, VmSpace.Others;
      hide PageIndex.Valid, PageDirectory.Valid, RecordsOf, TableAgrees, CanonicalPages, ChildRecords, ParentRecords;
      hide PartlyMarked, RetainAll, Backed, FramesOk, MarkedTo, HeapSplit, Remaining, ChildRecord, ParentRecord;
      ghost var pages, frames := index.pages[..], table.frames;
      DistinctNow();
      FramesAreOk(table);
      CloneStart(pages, frames);
      for i := 0 to index.pages.Length
        invariant Valid() && Progress(table, child, others, pages, frames, i)
        invariant directory.tables.Keys == old(directory.tables.Keys)
        invariant table.heap.refusals >= old(table.heap.refusals)
      {
        ok := CloneNext(table, child, others, i, pages, frames);
        if !ok {
          return false;
        }
      }
      MarkedAll(pages, index.pages[..]);
      return true;
    }

    /** The first `i` of the record slots `pages` have been cloned. */
    ghost predicate Progress(
      table: FrameTable, child: VmSpace, others: set<nat>, pages: seq<VmPage>, frames: Frames, i: nat)
      reads this, index, index.pages, directory, table, table.heap
      reads child, child.index, child.index.pages, child.index.lookup, child.directory
    {
      && child.Valid() && Apart(table, child, others) && i <= |pages|
      && MarkedTo(pages, index.pages[..], i) && Backed(Records(), table.frames)
      && child.Records() == ChildRecords(RecordsOf(pages[..i]))
      && child.Light(PageCount(child.Records()))
      && Backed(RecordsOf(pages[..i]), frames) && table.frames == RetainAll(RecordsOf(pages[..i]), frames)
    }

    /** One turn of the clone loop; a failing turn destroys the clone. */
    method CloneNext(
      table: FrameTable, child: VmSpace, ghost others: set<nat>, i: nat, ghost pages: seq<VmPage>, ghost frames: Frames)
      returns (ok: bool)
      requires Valid() && Progress(table, child, others, pages, frames, i) && Separate(child)
      requires DistinctAddresses(pages) && FramesOk(frames) && i < |pages| == index.pages.Length
      modifies index.pages, directory, table, table.heap
      modifies child.index, child.index.pages, child.index.lookup, child.directory
      ensures Valid() && directory.tables.Keys == old(directory.tables.Keys)
      ensures ok ==> Progress(table, child, others, pages, frames, i + 1)
      ensures !ok ==> PartlyMarked(RecordsOf(pages), Records())
      ensures !ok ==> table.frames == frames && table.heap.live == others + frames.Keys
      ensures !ok ==> table.heap.refusals > old(table.heap.refusals) || !child.RoomFor(PageCount(RecordsOf(pages)))
      ensures table.heap.refusals >= old(table.heap.refusals)
    {
      hide VmSpace.Light, VmSpace.RoomFor, Roomy, PageCount, VmSpace.Valid;
      hide PageIndex.Valid, PageDirectory.Valid, RecordsOf, TableAgrees, CanonicalPages, ChildRecords, ParentRecords;
      hide PartlyMarked, RetainAll, Backed, FramesOk, MarkedTo, HeapSplit, Remaining, ChildRecord, ParentRecord;
      hide DistinctAddresses, Retained, MarkPage;
      RecordsPrefix(pages, i);
      MarkedStep(pages, index.pages[..], i);
      if !index.pages[i].used {
        return true;
      }
      MappedHasTable(i);
      CloneStep(pages, i, frames, Records(), table.frames);
      PrefixSmaller(pages, i);
      child.LessRoom(PageCount(child.Records()) + 1, PageCount(RecordsOf(pages)));
      ok := CloneSlot(table, child, i, others, PageCount(child.Records()));
      if !ok {
        MarkedPart(pages, index.pages[..], i);
        child.Abandon(table, RecordsOf(pages[..i]), frames);
      }
    }

    /** The capacities of this space suffice for `count` pages at three tables each. */
    ghost predicate RoomFor(count: nat) {
      Roomy(index.pages.Length, index.lookup.Length, directory.maxTables, count)
    }

    /** This space has taken up no more room than `count` pages need. */
    ghost predicate Light(count: nat)
      reads index.pages, index.lookup, directory
    {
      index.Load() <= count && |directory.extraTables| <= 3 * count
    }

    lemma NewIsLight()
      requires index.Load() == 0 && directory.extraTables == []
      ensures Light(0)
    {
    }

    lemma LessRoom(less: nat, count: nat)
      requires less <= count
      ensures RoomFor(count) ==> RoomFor(less)
    {
    }

    /** install_page in a space that has held no more than `used` pages: only the heap can refuse while there is room. */
    method InstallWithin(table: FrameTable, address: nat, record: Record, ghost used: nat) returns (ok: bool)
      requires Valid() && HeapOk(table) && Aligned(address) && address !in Records()
      requires Light(used) && CanonicalUser(address)
      modifies index, index.pages, index.lookup, directory, table.heap
      ensures Valid() && HeapOk(table) && Others(table) == old(Others(table))
      ensures Records() == if ok then old(Records())[address := record] else old(Records())
      ensures Light(used + 1) && table.heap.refusals >= old(table.heap.refusals)
      ensures !ok ==> table.heap.refusals > old(table.heap.refusals) || !RoomFor(used + 1)
    {
      hide PageIndex.Valid, PageDirectory.Valid, RecordsOf, TableAgrees, CanonicalPages, CanonicalUser, HeapSplit, Remaining;
      hide PageIndex.Crowded, PageIndex.Load;
      if index.Crowded() {
        index.CrowdedLoad();
      }
      ok := InstallPage(table, address, record);
    }

    /** The failure path of vm_space_clone_cow: destroy the half-built clone. */
    method Abandon(table: FrameTable, ghost cloned: Records, ghost frames: Frames)
      requires Valid() && HeapOk(table) && Backed(cloned, frames) && FramesOk(frames)
      requires Records() == ChildRecords(cloned) && table.frames == RetainAll(cloned, frames)
      modifies index, index.pages, index.lookup, directory, table, table.heap
      ensures table.frames == frames && table.heap.live == old(Others(table)) + frames.Keys
      ensures table.heap.refusals == old(table.heap.refusals)
    {
      hide PageIndex.Valid, PageDirectory.Valid, RecordsOf, TableAgrees, CanonicalPages, Backed, FramesOk, RetainAll, Counted, ReleaseAll;
      RetainRelease(cloned, Records(), frames);
      Reset(table);
      table.heap.FreeRun(directory.rootPages);
      assert table.heap.live == old(Others(table)) + frames.Keys;
    }

    lemma FramesAreOk(table: FrameTable)
      requires HeapOk(table)
      ensures FramesOk(table.frames)
    {
    }

    lemma DistinctNow()
      requires Valid()
      ensures DistinctAddresses(index.pages[..])
    {
    }

    lemma NewSpaceApart(table: FrameTable, child: VmSpace, live: set<nat>)
      requires FramesOk(table.frames) && table.frames.Keys <= live - directory.tables.Keys
      requires directory.tables.Keys <= live && child.directory.tables.Keys !! live
      requires table.heap.live == live + child.directory.tables.Keys
      ensures Apart(table, child, live - table.frames.Keys)
    {
    }

    lemma StillHeapOk(table: FrameTable, others: set<nat>)
      requires FramesOk(table.frames) && directory.tables.Keys <= others && others !! table.frames.Keys
      requires table.heap.live == others + table.frames.Keys
      ensures HeapOk(table)
    {
    }

    lemma StayApart(table: FrameTable, clone: VmSpace, others: set<nat>)
      requires clone.HeapOk(table) && clone.Others(table) == others && directory.tables.Keys <= others
      ensures Apart(table, clone, others)
    {
    }

    lemma AlignedSlot(slot: nat)
      requires Valid() && slot < index.pages.Length && index.pages[slot].used
      ensures Aligned(index.pages[slot].virtualAddress) && CanonicalUser(index.pages[slot].virtualAddress)
    {
      RecordsAt(index.pages[..], slot);
    }
  }

  ghost function PageCount(records: Records): nat {
    |records|
  }

  ghost predicate Roomy(maxPages: nat, hashSize: nat, maxTables: nat, count: nat) {
    count <= maxPages && count <= hashSize && 3 * count < maxTables
  }

  /** The records before a used slot are fewer than all of them. */
  lemma PrefixSmaller(pages: seq<VmPage>, i: nat)
    requires DistinctAddresses(pages) && i < |pages| && pages[i].used
    ensures PageCount(ChildRecords(RecordsOf(pages[..i + 1]))) == PageCount(ChildRecords(RecordsOf(pages[..i]))) + 1
    ensures PageCount(ChildRecords(RecordsOf(pages[..i]))) + 1 <= PageCount(RecordsOf(pages))
  {
    hide RecordsOf;
    var part, a := RecordsOf(pages[..i]), pages[i].virtualAddress;
    forall b | b in part ensures b in RecordsOf(pages) && b != a {
      assert Names(pages, IndexFor(pages[..i], b), b);
      assert Names(pages, i, a);
    }
    assert Names(pages, i, a);
    RecordsPrefix(pages, i);
    assert ChildRecords(part).Keys == part.Keys;
    assert ChildRecords(RecordsOf(pages[..i + 1])).Keys == part.Keys + {a};
    SubsetCount(part.Keys + {a}, RecordsOf(pages).Keys);
  }

  /** A record slot of the parent after the clone visited it. */
  function MarkPage(page: VmPage): VmPage {
    WithRecord(page, ParentRecord(RecordOf(page)))
  }

  function ChildRecords(records: Records): (child: Records)
    ensures child.Keys == records.Keys
    ensures forall a :: a in records ==> child[a].frame == records[a].frame
  {
    map a | a in records :: ChildRecord(records[a])
  }

  function ParentRecords(records: Records): Records {
    map a | a in records :: ParentRecord(records[a])
  }

  /** Some records were marked copy-on-write, nothing else changed. */
  ghost predicate PartlyMarked(before: Records, after: Records) {
    && after.Keys == before.Keys
    && forall a :: a in before ==> after[a] == before[a] || after[a] == ParentRecord(before[a])
  }

  /** The clone has visited the first `i` record slots. */
  ghost predicate MarkedTo(before: seq<VmPage>, after: seq<VmPage>, i: nat) {
    && |after| == |before| && i <= |before|
    && (forall j: nat :: j < i ==> after[j] == if before[j].used then MarkPage(before[j]) else before[j])
    && (forall j: nat :: i <= j < |before| ==> after[j] == before[j])
  }

  lemma MarkedStep(before: seq<VmPage>, after: seq<VmPage>, i: nat)
    requires MarkedTo(before, after, i) && i < |before|
    ensures |after| == |before| && after[i] == before[i]
    ensures !before[i].used ==> MarkedTo(before, after, i + 1)
    ensures before[i].used ==> MarkedTo(before, after[i := MarkPage(before[i])], i + 1)
  {
  }

  lemma MarkedRecords(before: seq<VmPage>, after: seq<VmPage>, i: nat)
    requires MarkedTo(before, after, i) && DistinctAddresses(before)
    ensures DistinctAddresses(after) && RecordsOf(after).Keys == RecordsOf(before).Keys
    ensures forall j: nat :: j < |before| && before[j].used ==>
      && before[j].virtualAddress in RecordsOf(before)
      && RecordsOf(before)[before[j].virtualAddress] == RecordOf(before[j])
      && RecordsOf(after)[before[j].virtualAddress] == RecordOf(after[j])
  {
    hide RecordsOf;
    forall a: nat, j: nat ensures Names(after, j, a) <==> Names(before, j, a) {
    }
    forall a: nat ensures a in RecordsOf(after) <==> a in RecordsOf(before) {
      if Mapped(before, a) {
        assert Names(after, IndexFor(before, a), a);
      }
      if Mapped(after, a) {
        assert Names(before, IndexFor(after, a), a);
      }
    }
    forall j: nat | j < |before| && before[j].used
      ensures before[j].virtualAddress in RecordsOf(before)
      ensures RecordsOf(before)[before[j].virtualAddress] == RecordOf(before[j])
      ensures RecordsOf(after)[before[j].virtualAddress] == RecordOf(after[j])
    {
      RecordsAt(before, j);
      RecordsAt(after, j);
    }
  }

  lemma MarkedPart(before: seq<VmPage>, after: seq<VmPage>, i: nat)
    requires MarkedTo(before, after, i) && DistinctAddresses(before)
    ensures PartlyMarked(RecordsOf(before), RecordsOf(after))
  {
    hide RecordsOf;
    MarkedRecords(before, after, i);
    forall a | a in RecordsOf(before)
      ensures RecordsOf(after)[a] == RecordsOf(before)[a] || RecordsOf(after)[a] == ParentRecord(RecordsOf(before)[a])
    {
      var j := IndexFor(before, a);
      assert before[j].used;
    }
  }

  lemma MarkedAll(before: seq<VmPage>, after: seq<VmPage>)
    requires MarkedTo(before, after, |before|) && DistinctAddresses(before)
    ensures RecordsOf(after) == ParentRecords(RecordsOf(before)) && before[..|before|] == before
  {
    hide RecordsOf;
    MarkedRecords(before, after, |before|);
    forall a | a in RecordsOf(before) ensures RecordsOf(after)[a] == ParentRecord(RecordsOf(before)[a]) {
      var j := IndexFor(before, a);
      assert before[j].used;
    }
  }

  lemma NothingMarked(records: Records)
    ensures PartlyMarked(records, records)
  {
  }

  lemma CloneStart(pages: seq<VmPage>, frames: Frames)
    ensures RecordsOf(pages[..0]) == map[] && ChildRecords(map[]) == map[] && PageCount(map[]) == 0
    ensures Backed(map[], frames) && RetainAll(map[], frames) == frames && MarkedTo(pages, pages, 0)
  {
    RetainNothing(frames);
  }

  /** What one successful CloneSlot adds up to. */
  lemma CloneStep(pages: seq<VmPage>, i: nat, frames: Frames, records: Records, now: Frames)
    requires DistinctAddresses(pages) && i < |pages| && pages[i].used
    requires Backed(RecordsOf(pages[..i]), frames) && now == RetainAll(RecordsOf(pages[..i]), frames)
    requires Backed(records, now) && pages[i].virtualAddress in records
    requires records[pages[i].virtualAddress] == RecordOf(pages[i])
    ensures var a, record := pages[i].virtualAddress, RecordOf(pages[i]);
      && a !in RecordsOf(pages[..i]) && record.frame in now
      && Backed(RecordsOf(pages[..i + 1]), frames)
      && RetainAll(RecordsOf(pages[..i + 1]), frames) == Retained(now, record.frame)
      && ChildRecords(RecordsOf(pages[..i + 1])) == ChildRecords(RecordsOf(pages[..i]))[a := ChildRecord(record)]
      && Backed(records[a := ParentRecord(record)], Retained(now, record.frame))
  {
    hide RecordsOf, RetainAll, ChildRecords, ChildRecord, ParentRecord;
    RecordsPrefix(pages, i);
    BackedAt(records, now, pages[i].virtualAddress);
    SameFrames(RecordsOf(pages[..i]), frames);
    RetainAllStep(RecordsOf(pages[..i]), pages[i].virtualAddress, RecordOf(pages[i]), frames);
    ChildRecordsAdd(RecordsOf(pages[..i]), pages[i].virtualAddress, RecordOf(pages[i]));
    StillBacked(records, now, pages[i].virtualAddress);
  }

  lemma SameFrames(records: Records, frames: Frames)
    requires Backed(records, frames)
    ensures RetainAll(records, frames).Keys == frames.Keys
  {
  }

  lemma ChildRecordsAdd(records: Records, a: nat, record: Record)
    ensures ChildRecords(records[a := record]) == ChildRecords(records)[a := ChildRecord(record)]
  {
  }

  lemma StillBacked(records: Records, frames: Frames, a: nat)
    requires Backed(records, frames) && a in records
    ensures Backed(records[a := ParentRecord(records[a])], Retained(frames, records[a].frame))
  {
  }

  lemma RetainThenRelease(frames: Frames, f: nat)
    requires FramesOk(frames) && f in frames
    ensures FramesOk(Retained(frames, f)) && Released(Retained(frames, f), f) == frames
  {
  }

  lemma BackedAt(records: Records, frames: Frames, a: nat)
    requires Backed(records, frames) && a in records
    ensures records[a].frame in frames
  {
  }

  lemma EmptyPrefix(pages: seq<VmPage>)
    ensures RecordsOf(pages[..0]) == map[]
  {
  }

  /** A prefix of the records is counted if all of them are. */
  lemma {:induction false} PrefixCounted(pages: seq<VmPage>, i: nat, frames: Frames)
    requires DistinctAddresses(pages) && i <= |pages| && Counted(RecordsOf(pages), frames)
    ensures Counted(RecordsOf(pages[..i]), frames)
    decreases |pages| - i
  {
    hide RecordsOf, Counted;
    if i == |pages| {
      assert pages[..i] == pages;
    } else {
      PrefixCounted(pages, i + 1, frames);
      RecordsPrefix(pages, i);
      if pages[i].used {
        CountedPart(RecordsOf(pages[..i]), pages[i].virtualAddress, RecordOf(pages[i]), frames);
      }
    }
  }
}
