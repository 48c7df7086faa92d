/**
 The page records of an address space and the open-addressing hash index over
 them: `find_page`, `reserve_page_record`, `insert_page_lookup` and
 `remove_page_lookup` of kernel/vm.c.  A lookup slot holds 0 (never used),
 -1 (tombstone) or a record index plus one.  Both table sizes are symbolic.
 */
module PageLookup {
  import opened VmTypes

  /** First slot probed for a page address, in a table of `size` slots. */
  function HomeSlot(virtualAddress: nat, size: nat): (slot: nat)
    requires size > 0
    ensures slot < size
  {
    virtualAddress / PAGE_SIZE * 2654435761 % WORD % size
  }

  /** The slot reached after `distance` linear probes. */
  function ProbeSlot(home: nat, distance: nat, size: nat): (slot: nat)
    requires home < size && distance <= size
    ensures slot < size
  {
    if home + distance < size then home + distance else home + distance - size
  }

  /** Every slot is exactly one probe distance away from every home slot. */
  lemma ProbeReachesEverySlot(home: nat, slot: nat, size: nat) returns (distance: nat)
    requires home < size && slot < size
    ensures distance < size && ProbeSlot(home, distance, size) == slot
  {
    distance := if home <= slot then slot - home else slot + size - home;
  }

  /** Record `index` sits `distance` probes from `home`, and no probe before it is empty. */
  ghost predicate Reaches(lookup: seq<int>, home: nat, index: nat, distance: nat) {
    && home < |lookup| && distance < |lookup|
    && lookup[ProbeSlot(home, distance, |lookup|)] == index + 1
    && Occupied(lookup, home, distance)
  }

  /** The first `probes` slots probed from `home` are not empty. */
  ghost predicate Occupied(lookup: seq<int>, home: nat, probes: nat)
    requires home < |lookup| && probes <= |lookup|
  {
    forall d: nat :: d < probes ==> lookup[ProbeSlot(home, d, |lookup|)] != 0
  }

  ghost predicate Reachable(lookup: seq<int>, home: nat, index: nat) {
    exists distance: nat :: Reaches(lookup, home, index, distance)
  }

  /** No two used records carry the same page address. */
  ghost predicate DistinctAddresses(pages: seq<VmPage>) {
    forall i: nat, j: nat :: i < |pages| && j < |pages| && pages[i].used && pages[j].used ==>
      pages[i].virtualAddress == pages[j].virtualAddress ==> i == j
  }

  ghost predicate SlotsNameRecords(pages: seq<VmPage>, lookup: seq<int>) {
    && (forall s: nat :: s < |lookup| ==> -1 <= lookup[s] <= |pages|)
    && (forall s: nat :: s < |lookup| && lookup[s] > 0 ==> pages[lookup[s] - 1].used)
    && (forall s: nat, t: nat :: s < |lookup| && t < |lookup| && lookup[s] > 0 ==>
          lookup[s] == lookup[t] ==> s == t)
  }

  ghost predicate Indexed(pages: seq<VmPage>, lookup: seq<int>, i: nat) {
    |lookup| > 0 && i < |pages| && Reachable(lookup, HomeSlot(pages[i].virtualAddress, |lookup|), i)
  }

  ghost predicate RecordsReachable(pages: seq<VmPage>, lookup: seq<int>) {
    forall i: nat {:trigger Indexed(pages, lookup, i)} :: i < |pages| && pages[i].used ==>
      Indexed(pages, lookup, i)
  }

  /** The index invariant: what every operation on the records keeps. */
  ghost predicate IndexOk(pages: seq<VmPage>, lookup: seq<int>) {
    && |lookup| > 0 && |pages| > 0
    && DistinctAddresses(pages)
    && SlotsNameRecords(pages, lookup)
    && RecordsReachable(pages, lookup)
    && (forall i: nat :: i < |pages| && pages[i].used ==> Aligned(pages[i].virtualAddress))
  }

  ghost function UsedRecords(pages: seq<VmPage>): set<nat> {
    set i: nat | i < |pages| && pages[i].used
  }

  /** Lookup slots that hold a record or a tombstone. */
  ghost function UsedSlots(lookup: seq<int>): set<nat> {
    set s: nat | s < |lookup| && lookup[s] != 0
  }

  /** A value is written into at most one slot, so at most one slot is newly taken. */
  lemma OneSlotTaken(pages: seq<VmPage>, before: seq<int>, after: seq<int>, value: int)
    requires |before| == |after| && SlotsNameRecords(pages, after) && value > 0
    requires forall s: nat :: s < |after| && after[s] != before[s] ==> after[s] == value
    ensures |UsedSlots(after)| <= |UsedSlots(before)| + 1
  {
    if s: nat :| s < |after| && after[s] == value {
      SubsetCount(UsedSlots(after), UsedSlots(before) + {s});
    } else {
      SubsetCount(UsedSlots(after), UsedSlots(before));
    }
  }

  lemma OneRecordTaken(pages: seq<VmPage>, slot: nat, page: VmPage)
    requires slot < |pages|
    ensures |UsedRecords(pages[slot := page])| <= |UsedRecords(pages)| + 1
  {
    SubsetCount(UsedRecords(pages[slot := page]), UsedRecords(pages) + {slot});
  }

  ghost function Below(n: nat): (numbers: set<nat>)
    ensures |numbers| == n && forall i: nat :: i in numbers <==> i < n
  {
    if n == 0 then {} else Below(n - 1) + {n - 1}
  }

  function RecordOf(page: VmPage): Record {
    Record(page.frame, page.protection, page.copyOnWrite, page.shared)
  }

  function WithRecord(page: VmPage, record: Record): VmPage {
    VmPage(page.used, page.virtualAddress, record.frame, record.protection, record.copyOnWrite, record.shared)
  }

  ghost predicate Names(pages: seq<VmPage>, i: nat, address: nat) {
    i < |pages| && pages[i].used && pages[i].virtualAddress == address
  }

  ghost predicate Mapped(pages: seq<VmPage>, address: nat) {
    exists i: nat :: Names(pages, i, address)
  }

  ghost function IndexFor(pages: seq<VmPage>, address: nat): (i: nat)
    requires Mapped(pages, address)
    ensures Names(pages, i, address)
  {
    var i: nat :| Names(pages, i, address);
    i
  }

  /** The abstract content of the records: page address to record. */
  ghost function RecordsOf(pages: seq<VmPage>): (records: map<nat, Record>)
    ensures forall a :: a in records <==> a >= 0 && Mapped(pages, a)
  {
    var addresses := set i: nat | i < |pages| && pages[i].used :: pages[i].virtualAddress;
    assert forall i: nat :: i < |pages| && pages[i].used ==> Names(pages, i, pages[i].virtualAddress);
    map a | a in addresses && Mapped(pages, a) :: RecordOf(pages[IndexFor(pages, a)])
  }

  lemma RecordsAt(pages: seq<VmPage>, i: nat)
    requires DistinctAddresses(pages) && i < |pages| && pages[i].used
    ensures pages[i].virtualAddress in RecordsOf(pages)
    ensures RecordsOf(pages)[pages[i].virtualAddress] == RecordOf(pages[i])
  {
    assert Names(pages, i, pages[i].virtualAddress);
  }

  lemma RecordsInsert(pages: seq<VmPage>, i: nat, page: VmPage)
    requires DistinctAddresses(pages) && i < |pages| && !pages[i].used && page.used
    requires page.virtualAddress !in RecordsOf(pages)
    ensures DistinctAddresses(pages[i := page])
    ensures RecordsOf(pages[i := page]) == RecordsOf(pages)[page.virtualAddress := RecordOf(page)]
  {
    hide RecordsOf;
    var after := pages[i := page];
    forall j: nat | j < |pages| && pages[j].used
      ensures pages[j].virtualAddress != page.virtualAddress
    {
      RecordsAt(pages, j);
    }
    RecordsAgree(pages, after, i);
    RecordsAt(after, i);
  }

  lemma RecordsRemove(pages: seq<VmPage>, i: nat)
    requires DistinctAddresses(pages) && i < |pages| && pages[i].used
    ensures DistinctAddresses(pages[i := UNUSED])
    ensures RecordsOf(pages[i := UNUSED]) == RecordsOf(pages) - {pages[i].virtualAddress}
  {
    hide RecordsOf;
    RecordsAgree(pages, pages[i := UNUSED], i);
  }

  lemma RecordsUpdate(pages: seq<VmPage>, i: nat, page: VmPage)
    requires DistinctAddresses(pages) && i < |pages| && pages[i].used && page.used
    requires page.virtualAddress == pages[i].virtualAddress
    ensures DistinctAddresses(pages[i := page])
    ensures RecordsOf(pages[i := page]) == RecordsOf(pages)[page.virtualAddress := RecordOf(page)]
  {
    hide RecordsOf;
    RecordsAgree(pages, pages[i := page], i);
    RecordsAt(pages[i := page], i);
  }

  /** Record sequences that differ only at `i` agree on every address not named by slot `i`. */
  lemma RecordsAgree(before: seq<VmPage>, after: seq<VmPage>, i: nat)
    requires DistinctAddresses(before) && DistinctAddresses(after)
    requires |before| == |after| && i < |before| && after == before[i := after[i]]
    ensures forall a: nat :: !Names(before, i, a) && !Names(after, i, a) ==>
      (a in RecordsOf(before) <==> a in RecordsOf(after))
    ensures forall a: nat :: !Names(before, i, a) && !Names(after, i, a) && a in RecordsOf(before) ==>
      RecordsOf(before)[a] == RecordsOf(after)[a]
  {
    forall a: nat | !Names(before, i, a) && !Names(after, i, a)
      ensures a in RecordsOf(before) <==> a in RecordsOf(after)
      ensures a in RecordsOf(before) ==> RecordsOf(before)[a] == RecordsOf(after)[a]
    {
      forall j: nat ensures Names(before, j, a) <==> Names(after, j, a) {
      }
      if a in RecordsOf(before) {
        var j := IndexFor(before, a);
        assert Names(after, j, a);
        RecordsAt(before, j);
        RecordsAt(after, j);
      }
    }
  }

  /** The records of one more slot. */
  lemma RecordsPrefix(pages: seq<VmPage>, i: nat)
    requires DistinctAddresses(pages) && i < |pages|
    ensures DistinctAddresses(pages[..i]) && DistinctAddresses(pages[..i + 1])
    ensures !pages[i].used ==> RecordsOf(pages[..i + 1]) == RecordsOf(pages[..i])
    ensures pages[i].used ==> pages[i].virtualAddress !in RecordsOf(pages[..i])
    ensures pages[i].used ==>
      RecordsOf(pages[..i + 1]) == RecordsOf(pages[..i])[pages[i].virtualAddress := RecordOf(pages[i])]
  {
    hide RecordsOf, Mapped;
    var before := pages[..i] + [UNUSED];
    RecordsPad(pages[..i]);
    assert before[i := pages[i]] == pages[..i + 1];
    if pages[i].used {
      NotMapped(before, pages[i].virtualAddress);
      RecordsInsert(before, i, pages[i]);
    } else {
      RecordsUnused(before, i, pages[i]);
    }
  }

  lemma NotMapped(pages: seq<VmPage>, address: nat)
    requires forall j: nat :: j < |pages| && pages[j].used ==> pages[j].virtualAddress != address
    ensures address !in RecordsOf(pages)
  {
  }

  lemma RecordsUnused(pages: seq<VmPage>, i: nat, page: VmPage)
    requires DistinctAddresses(pages) && i < |pages| && !pages[i].used && !page.used
    ensures DistinctAddresses(pages[i := page]) && RecordsOf(pages[i := page]) == RecordsOf(pages)
  {
    hide RecordsOf;
    RecordsAgree(pages, pages[i := page], i);
  }

  lemma RecordsPad(pages: seq<VmPage>)
    requires DistinctAddresses(pages)
    ensures DistinctAddresses(pages + [UNUSED])
    ensures RecordsOf(pages + [UNUSED]) == RecordsOf(pages)
  {
    hide RecordsOf;
    var longer := pages + [UNUSED];
    forall i: nat, a: nat ensures Names(longer, i, a) <==> Names(pages, i, a) {
    }
    forall a | a in RecordsOf(pages) ensures a in RecordsOf(longer) && RecordsOf(longer)[a] == RecordsOf(pages)[a] {
      var i := IndexFor(pages, a);
      assert Names(longer, i, a);
      RecordsAt(pages, i);
      RecordsAt(longer, i);
    }
    forall a | a in RecordsOf(longer) ensures a in RecordsOf(pages) {
      assert Names(pages, IndexFor(longer, a), a);
    }
  }

  /** Changing a record in place, address kept, leaves the index consistent. */
  lemma UpdateKeepsIndex(pages: seq<VmPage>, lookup: seq<int>, i: nat, page: VmPage)
    requires IndexOk(pages, lookup) && i < |pages| && pages[i].used && page.used
    requires page.virtualAddress == pages[i].virtualAddress
    ensures IndexOk(pages[i := page], lookup)
  {
    forall j: nat | j < |pages| && pages[j].used
      ensures Indexed(pages[i := page], lookup, j)
    {
      assert Indexed(pages, lookup, j);
    }
  }

  /** Filling a tombstone or an empty slot keeps every record reachable. */
  lemma FillKeepsReaches(lookup: seq<int>, slot: nat, value: int, home: nat, index: nat)
    requires slot < |lookup| && lookup[slot] <= 0 && value > 0
    requires Reachable(lookup, home, index)
    ensures Reachable(lookup[slot := value], home, index)
  {
    var d: nat :| Reaches(lookup, home, index, d);
    assert Reaches(lookup[slot := value], home, index, d);
  }

  lemma FillReaches(lookup: seq<int>, home: nat, index: nat, distance: nat)
    requires home < |lookup| && distance < |lookup| && Occupied(lookup, home, distance)
    ensures Reaches(lookup[ProbeSlot(home, distance, |lookup|) := index + 1], home, index, distance)
  {
  }

  /** Adding a record for a new address together with its slot keeps the invariant. */
  lemma InsertKeepsIndex(pages: seq<VmPage>, lookup: seq<int>, i: nat, page: VmPage, slot: nat, distance: nat)
    requires IndexOk(pages, lookup) && i < |pages| && !pages[i].used && page.used && Aligned(page.virtualAddress)
    requires page.virtualAddress !in RecordsOf(pages)
    requires slot < |lookup| && lookup[slot] <= 0
    requires Reaches(lookup[slot := i + 1], HomeSlot(page.virtualAddress, |lookup|), i, distance)
    ensures IndexOk(pages[i := page], lookup[slot := i + 1])
  {
    RecordsInsert(pages, i, page);
    InsertKeepsSlots(pages, lookup, i, page, slot);
    InsertKeepsReachable(pages, lookup, i, page, slot, distance);
  }

  lemma InsertKeepsReachable(pages: seq<VmPage>, lookup: seq<int>, i: nat, page: VmPage, slot: nat, distance: nat)
    requires slot < |lookup| && lookup[slot] <= 0 && i < |pages|
    requires RecordsReachable(pages, lookup)
    requires Reaches(lookup[slot := i + 1], HomeSlot(page.virtualAddress, |lookup|), i, distance)
    ensures RecordsReachable(pages[i := page], lookup[slot := i + 1])
  {
    var after, table := pages[i := page], lookup[slot := i + 1];
    forall j: nat | j < |after| && after[j].used
      ensures Indexed(after, table, j)
    {
      if j != i {
        assert Indexed(pages, lookup, j);
        FillKeepsReaches(lookup, slot, i + 1, HomeSlot(pages[j].virtualAddress, |lookup|), j);
      }
    }
  }

  lemma InsertKeepsSlots(pages: seq<VmPage>, lookup: seq<int>, i: nat, page: VmPage, slot: nat)
    requires SlotsNameRecords(pages, lookup)
    requires i < |pages| && !pages[i].used && page.used && slot < |lookup|
    ensures SlotsNameRecords(pages[i := page], lookup[slot := i + 1])
  {
  }

  /** Turning a record's slot into a tombstone keeps every other record reachable. */
  lemma RemoveKeepsIndex(pages: seq<VmPage>, lookup: seq<int>, i: nat, slot: nat)
    requires IndexOk(pages, lookup) && i < |pages| && pages[i].used
    requires slot < |lookup| && lookup[slot] == i + 1
    ensures IndexOk(pages[i := UNUSED], lookup[slot := -1])
  {
    RecordsRemove(pages, i);
    RemoveKeepsReachable(pages, lookup, i, slot);
  }

  lemma RemoveKeepsReachable(pages: seq<VmPage>, lookup: seq<int>, i: nat, slot: nat)
    requires i < |pages| && slot < |lookup| && lookup[slot] == i + 1
    requires RecordsReachable(pages, lookup)
    ensures RecordsReachable(pages[i := UNUSED], lookup[slot := -1])
  {
    var after, table := pages[i := UNUSED], lookup[slot := -1];
    forall j: nat | j < |after| && after[j].used
      ensures Indexed(after, table, j)
    {
      assert Indexed(pages, lookup, j);
      var home := HomeSlot(pages[j].virtualAddress, |lookup|);
      var d: nat :| Reaches(lookup, home, j, d);
      assert Reaches(table, home, j, d);
    }
  }

  lemma EmptyIndexOk(pages: seq<VmPage>, lookup: seq<int>)
    requires |pages| > 0 && |lookup| > 0
    requires forall i: nat :: i < |pages| ==> !pages[i].used
    requires forall s: nat :: s < |lookup| ==> lookup[s] == 0
    ensures IndexOk(pages, lookup) && RecordsOf(pages) == map[]
  {
  }

  /** The slot is occupied, but not by a record for `address`: a probe goes on. */
  ghost predicate Passes(pages: seq<VmPage>, value: int, address: nat) {
    value != 0 && (0 < value <= |pages| ==> !Names(pages, value - 1, address))
  }

  ghost predicate ProbedPast(pages: seq<VmPage>, lookup: seq<int>, home: nat, address: nat, probes: nat)
    requires home < |lookup| && probes <= |lookup|
  {
    forall d: nat :: d < probes ==> Passes(pages, lookup[ProbeSlot(home, d, |lookup|)], address)
  }

  /** A probe sequence that ran into an empty slot, or around the table, proves absence. */
  lemma Absent(pages: seq<VmPage>, lookup: seq<int>, address: nat, probes: nat)
    requires |lookup| > 0 && RecordsReachable(pages, lookup) && probes <= |lookup|
    requires probes < |lookup| ==> lookup[ProbeSlot(HomeSlot(address, |lookup|), probes, |lookup|)] == 0
    requires ProbedPast(pages, lookup, HomeSlot(address, |lookup|), address, probes)
    ensures address !in RecordsOf(pages)
  {
    forall i: nat ensures !Names(pages, i, address) {
      assert Names(pages, i, address) ==> Indexed(pages, lookup, i);
      forall d: nat ensures Names(pages, i, address) ==> !Reaches(lookup, HomeSlot(address, |lookup|), i, d) {
      }
    }
  }

  /** `pages`, `page_lookup` and `free_page_hint` of a VmSpace. */
  class PageIndex {
    const pages: array<VmPage>
    const lookup: array<int>
    var freeHint: nat

    ghost predicate Valid()
      reads this, pages, lookup
    {
      && IndexOk(pages[..], lookup[..])
      && freeHint < pages.Length
    }

    ghost function Records(): map<nat, Record>
      requires Valid()
      reads this, pages, lookup
    {
      RecordsOf(pages[..])
    }

    /** No record is unused, or no lookup slot was never used: nothing can be added. */
    ghost predicate Crowded()
      reads pages, lookup
    {
      || (forall i: nat :: i < pages.Length ==> pages[i].used)
      || (forall s: nat :: s < lookup.Length ==> lookup[s] != 0)
    }

    /** How many records or lookup slots are taken, whichever is more. */
    ghost function Load(): nat
      reads pages, lookup
    {
      var records, slots := |UsedRecords(pages[..])|, |UsedSlots(lookup[..])|;
      if records > slots then records else slots
    }

    /** An index is crowded only once its load has reached one of the two table sizes. */
    lemma CrowdedLoad()
      requires Crowded()
      ensures Load() >= pages.Length || Load() >= lookup.Length
    {
      if forall i: nat :: i < pages.Length ==> pages[i].used {
        assert UsedRecords(pages[..]) == Below(pages.Length);
      } else {
        assert UsedSlots(lookup[..]) == Below(lookup.Length);
      }
    }

    constructor (maxPages: nat, hashSize: nat)
      requires maxPages > 0 && hashSize > 0
      ensures Valid() && fresh(pages) && fresh(lookup) && Records() == map[]
      ensures pages.Length == maxPages && lookup.Length == hashSize && Load() == 0
    {
      pages := new VmPage[maxPages](_ => UNUSED);
      lookup := new int[hashSize](_ => 0);
      freeHint := 0;
      new;
      EmptyIndexOk(pages[..], lookup[..]);
      assert UsedRecords(pages[..]) == {} && UsedSlots(lookup[..]) == {};
    }

    /** find_page: the used record for the page holding `address`, or None. */
    method FindPage(address: nat) returns (found: Option<nat>)
      requires Valid()
      ensures found.Some? <==> AlignDown(address) in Records()
      ensures found.Some? ==> Names(pages[..], found.value, AlignDown(address))
      ensures found.Some? ==> Records()[AlignDown(address)] == RecordOf(pages[found.value])
    {
      var pageAddress := AlignDown(address);
      var home := HomeSlot(pageAddress, lookup.Length);
      var slot := home;
      for probe := 0 to lookup.Length
        invariant slot == ProbeSlot(home, probe, lookup.Length)
        invariant ProbedPast(pages[..], lookup[..], home, pageAddress, probe)
      {
        var value := lookup[slot];
        if value == 0 {
          Absent(pages[..], lookup[..], pageAddress, probe);
          return None;
        }
        if value > 0 {
          var page := pages[value - 1];
          if page.used && page.virtualAddress == pageAddress {
            RecordsAt(pages[..], value - 1);
            return Some(value - 1);
          }
        }
        slot := if slot + 1 == lookup.Length then 0 else slot + 1;
      }
      Absent(pages[..], lookup[..], pageAddress, lookup.Length);
      return None;
    }

    /** reserve_page_record: the first unused record at or after the hint, cyclically. */
    method ReserveRecord() returns (found: Option<nat>)
      requires Valid()
      modifies this
      ensures Valid()
      ensures found.Some? <==> exists i: nat :: i < pages.Length && !pages[i].used
      ensures found.Some? ==> found.value < pages.Length && !pages[found.value].used
      ensures found.None? ==> freeHint == old(freeHint)
    {
      var size := pages.Length;
      for offset := 0 to size
        invariant freeHint == old(freeHint)
        invariant forall d: nat :: d < offset ==> pages[ProbeSlot(freeHint, d, size)].used
      {
        var index := ProbeSlot(freeHint, offset, size);
        if !pages[index].used {
          freeHint := if index + 1 == size then 0 else index + 1;
          return Some(index);
        }
      }
      forall i: nat | i < size ensures pages[i].used {
        var d := ProbeReachesEverySlot(freeHint, i, size);
      }
      return None;
    }

    /**
     insert_page_lookup: index the record `index`, already filled in and marked
     used by the caller.  It succeeds exactly when the table still has a slot
     that was never used; tombstones alone do not make room.
     */
    method InsertLookup(index: nat, page: VmPage) returns (ok: bool)
      requires Valid() && index < pages.Length && !pages[index].used
      requires page.used && Aligned(page.virtualAddress) && page.virtualAddress !in Records()
      modifies lookup
      ensures ok <==> exists s: nat :: s < lookup.Length && old(lookup[s]) == 0
      ensures ok ==> IndexOk(pages[..][index := page], lookup[..])
      ensures !ok ==> lookup[..] == old(lookup[..])
      ensures forall s: nat :: s < lookup.Length && lookup[s] != old(lookup[s]) ==>
        lookup[s] == index + 1 && old(lookup[s]) <= 0
    {
      var home := HomeSlot(page.virtualAddress, lookup.Length);
      var slot := home;
      var tombstone: Option<nat> := None;
      ghost var depth: nat := 0;
      for probe := 0 to lookup.Length
        invariant slot == ProbeSlot(home, probe, lookup.Length)
        invariant Occupied(lookup[..], home, probe)
        invariant tombstone.Some? ==> depth < probe && tombstone.value == ProbeSlot(home, depth, lookup.Length)
        invariant tombstone.Some? ==> lookup[tombstone.value] == -1
        invariant lookup[..] == old(lookup[..])
      {
        var value := lookup[slot];
        if value == -1 && tombstone.None? {
          tombstone := Some(slot);
          depth := probe;
        }
        if value == 0 {
          var target := if tombstone.Some? then tombstone.value else slot;
          ghost var distance := if tombstone.Some? then depth else probe;
          FillReaches(lookup[..], home, index, distance);
          lookup[target] := index + 1;
          assert lookup[..] == old(lookup[..])[target := index + 1];
          assert old(lookup[..])[slot] == 0;
          InsertKeepsIndex(pages[..], old(lookup[..]), index, page, target, distance);
          return true;
        }
        slot := if slot + 1 == lookup.Length then 0 else slot + 1;
      }
      forall s: nat | s < lookup.Length ensures lookup[..][s] != 0 {
        var d := ProbeReachesEverySlot(home, s, lookup.Length);
      }
      return false;
    }

    /** remove_page_lookup: leave a tombstone in the record's slot and lower the hint. */
    method RemoveLookup(index: nat)
      requires Valid() && index < pages.Length && pages[index].used
      modifies this, lookup
      ensures IndexOk(pages[..][index := UNUSED], lookup[..])
      ensures freeHint < pages.Length && freeHint <= old(freeHint)
      ensures forall s: nat :: s < lookup.Length ==>
        lookup[s] == (if old(lookup[s]) == index + 1 then -1 else old(lookup[s]))
    {
      var home := HomeSlot(pages[index].virtualAddress, lookup.Length);
      assert Indexed(pages[..], lookup[..], index);
      ghost var distance: nat :| Reaches(lookup[..], home, index, distance);
      var slot := home;
      for probe := 0 to lookup.Length
        invariant slot == ProbeSlot(home, probe, lookup.Length)
        invariant probe <= distance
        invariant lookup[..] == old(lookup[..]) && freeHint == old(freeHint)
      {
        var value := lookup[slot];
        assert value == lookup[..][ProbeSlot(home, probe, lookup.Length)];
        if value == 0 {
          assert false;
        }
        if value > 0 && value - 1 == index {
          RemoveKeepsIndex(pages[..], lookup[..], index, slot);
          lookup[slot] := -1;
          assert lookup[..] == old(lookup[..])[slot := -1];
          if index < freeHint {
            freeHint := index;
          }
          return;
        }
        slot := if slot + 1 == lookup.Length then 0 else slot + 1;
      }
      assert false;
    }

    /** Fills the reserved slot and indexes it; an unindexable record is cleared again. */
    method AddRecord(slot: nat, page: VmPage) returns (ok: bool)
      requires Valid() && slot < pages.Length && !pages[slot].used
      requires page.used && Aligned(page.virtualAddress) && page.virtualAddress !in Records()
      modifies pages, lookup
      ensures Valid()
      ensures ok <==> exists s: nat :: s < lookup.Length && old(lookup[s]) == 0
      ensures ok ==> Records() == old(Records())[page.virtualAddress := RecordOf(page)]
      ensures !ok ==> Records() == old(Records())
      ensures Load() <= old(Load()) + 1
    {
      hide RecordsOf, DistinctAddresses, RecordsReachable, UsedSlots, UsedRecords;
      OneRecordTaken(pages[..], slot, page);
      ok := InsertLookup(slot, page);
      if ok {
        OneSlotTaken(pages[..][slot := page], old(lookup[..]), lookup[..], slot + 1);
        RecordsInsert(pages[..], slot, page);
        pages[slot] := page;
        assert pages[..] == old(pages[..])[slot := page];
      }
    }

    /** remove_page_lookup followed by clearing the record. */
    method DropRecord(slot: nat)
      requires Valid() && slot < pages.Length && pages[slot].used
      modifies this, pages, lookup
      ensures Valid() && Records() == old(Records()) - {old(pages[slot].virtualAddress)}
    {
      RecordsRemove(pages[..], slot);
      RemoveLookup(slot);
      pages[slot] := UNUSED;
      assert pages[..] == old(pages[..])[slot := UNUSED];
    }

    /** In-place change of a record that keeps its address. */
    method ChangeRecord(slot: nat, record: Record)
      requires Valid() && slot < pages.Length && pages[slot].used
      modifies pages
      ensures Valid() && Records() == old(Records())[old(pages[slot].virtualAddress) := record]
      ensures pages[..] == old(pages[..])[slot := WithRecord(old(pages[slot]), record)]
    {
      var page := WithRecord(pages[slot], record);
      RecordsUpdate(pages[..], slot, page);
      UpdateKeepsIndex(pages[..], lookup[..], slot, page);
      pages[slot] := page;
      assert pages[..] == old(pages[..])[slot := page];
    }

    /** The index part of vm_space_reset_user, after every record has been cleared. */
    method ClearLookup()
      requires pages.Length > 0 && lookup.Length > 0
      requires forall i: nat :: i < pages.Length ==> !pages[i].used
      modifies this, lookup
      ensures Valid() && Records() == map[]
    {
      for s := 0 to lookup.Length
        invariant forall t: nat :: t < s ==> lookup[t] == 0
      {
        lookup[s] := 0;
      }
      freeHint := 0;
      EmptyIndexOk(pages[..], lookup[..]);
    }
  }
}
