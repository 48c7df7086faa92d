/**
 What processes hold (kernel/process.c): address spaces shared by threads and
 memfd objects shared by descriptors.  Every reference count is the number of
 holders, over every sequence of calls from an empty table.
 */
module ProcessRefs {
  const FIRST_DESCRIPTOR := 3
  const MAX_DESCRIPTORS := 256

  /** A descriptor; `backing` (its memfd object) is meaningful for memfd descriptors only. */
  datatype Descriptor = Descriptor(used: bool, memfd: bool, backing: nat)

  const CLOSED := Descriptor(false, false, 0)

  /** A process slot; space 0 stands for none. */
  datatype Slot = Slot(used: bool, zombie: bool, space: nat, descriptors: seq<Descriptor>)

  function NoDescriptors(): (ds: seq<Descriptor>)
    ensures |ds| == MAX_DESCRIPTORS && forall i :: 0 <= i < MAX_DESCRIPTORS ==> ds[i] == CLOSED
  {
    seq(MAX_DESCRIPTORS, _ => CLOSED)
  }

  function Blank(): Slot {
    Slot(false, false, 0, NoDescriptors())
  }

  datatype Memfd = Memfd(used: bool, references: nat)

  predicate Refers(d: Descriptor, backing: nat) {
    d.used && d.memfd && d.backing == backing
  }

  /** The descriptors from 3 on that refer to the object. */
  function DescriptorUsers(ds: seq<Descriptor>, backing: nat): nat {
    if |ds| <= FIRST_DESCRIPTOR then 0
    else DescriptorUsers(ds[..|ds| - 1], backing) + if Refers(ds[|ds| - 1], backing) then 1 else 0
  }

  /** The descriptors of all processes that refer to the object. */
  function ObjectUsers(slots: seq<Slot>, backing: nat): nat {
    if slots == [] then 0
    else ObjectUsers(slots[..|slots| - 1], backing) + DescriptorUsers(slots[|slots| - 1].descriptors, backing)
  }

  /** The process slots that run in the address space. */
  function SpaceUsers(slots: seq<Slot>, space: nat): nat {
    if slots == [] then 0
    else SpaceUsers(slots[..|slots| - 1], space) + if slots[|slots| - 1].space == space then 1 else 0
  }

  lemma {:induction false} DescriptorChanges(ds: seq<Descriptor>, i: nat, d: Descriptor, backing: nat)
    requires FIRST_DESCRIPTOR <= i < |ds|
    ensures DescriptorUsers(ds[i := d], backing) + (if Refers(ds[i], backing) then 1 else 0) ==
      DescriptorUsers(ds, backing) + if Refers(d, backing) then 1 else 0
  {
    var n := |ds| - 1;
    if i < n {
      DescriptorChanges(ds[..n], i, d, backing);
      assert ds[i := d][..n] == ds[..n][i := d];
    } else {
      assert ds[i := d][..n] == ds[..n];
    }
  }

  lemma {:induction false} ObjectChanges(slots: seq<Slot>, i: nat, s: Slot, backing: nat)
    requires i < |slots|
    ensures ObjectUsers(slots[i := s], backing) + DescriptorUsers(slots[i].descriptors, backing) ==
      ObjectUsers(slots, backing) + DescriptorUsers(s.descriptors, backing)
  {
    var n := |slots| - 1;
    if i < n {
      ObjectChanges(slots[..n], i, s, backing);
      assert slots[i := s][..n] == slots[..n][i := s];
    } else {
      assert slots[i := s][..n] == slots[..n];
    }
  }

  lemma {:induction false} SpaceChanges(slots: seq<Slot>, i: nat, s: Slot, space: nat)
    requires i < |slots|
    ensures SpaceUsers(slots[i := s], space) + (if slots[i].space == space then 1 else 0) ==
      SpaceUsers(slots, space) + if s.space == space then 1 else 0
  {
    var n := |slots| - 1;
    if i < n {
      SpaceChanges(slots[..n], i, s, space);
      assert slots[i := s][..n] == slots[..n][i := s];
    } else {
      assert slots[i := s][..n] == slots[..n];
    }
  }

  lemma {:induction false} NoUsers(n: nat, backing: nat)
    requires n <= MAX_DESCRIPTORS
    ensures DescriptorUsers(NoDescriptors()[..n], backing) == 0
  {
    if n > FIRST_DESCRIPTOR {
      NoUsers(n - 1, backing);
      assert NoDescriptors()[..n][..n - 1] == NoDescriptors()[..n - 1];
    }
  }

  /** A descriptor that refers to an object keeps its count positive. */
  lemma {:induction false} DescriptorCounts(ds: seq<Descriptor>, i: nat, backing: nat)
    requires FIRST_DESCRIPTOR <= i < |ds| && Refers(ds[i], backing)
    ensures DescriptorUsers(ds, backing) > 0
  {
    if i < |ds| - 1 {
      DescriptorCounts(ds[..|ds| - 1], i, backing);
    }
  }

  lemma {:induction false} ObjectCounts(slots: seq<Slot>, k: nat, backing: nat)
    requires k < |slots|
    ensures DescriptorUsers(slots[k].descriptors, backing) <= ObjectUsers(slots, backing)
  {
    if k < |slots| - 1 {
      ObjectCounts(slots[..|slots| - 1], k, backing);
    }
  }

  lemma {:induction false} SpaceCounts(slots: seq<Slot>, k: nat)
    requires k < |slots|
    ensures SpaceUsers(slots, slots[k].space) > 0
  {
    if k < |slots| - 1 {
      SpaceCounts(slots[..|slots| - 1], k);
    }
  }

  // ----- the invariant

  ghost predicate SlotOk(s: Slot, memfds: nat) {
    && |s.descriptors| == MAX_DESCRIPTORS
    && (forall i :: 0 <= i < MAX_DESCRIPTORS && s.descriptors[i].used && s.descriptors[i].memfd ==>
          FIRST_DESCRIPTOR <= i && s.descriptors[i].backing < memfds)
    && (!s.used ==> s == Blank())
  }

  /** A memfd object is in use exactly while descriptors refer to it, and counts them. */
  ghost predicate ObjectExact(slots: seq<Slot>, memfds: seq<Memfd>, backing: nat)
    requires backing < |memfds|
  {
    && memfds[backing].references == ObjectUsers(slots, backing)
    && (memfds[backing].used <==> memfds[backing].references > 0)
  }

  /** An address space exists exactly while process slots run in it, and counts them. */
  ghost predicate SpaceExact(slots: seq<Slot>, spaces: map<nat, nat>, space: nat) {
    && (space in spaces <==> SpaceUsers(slots, space) > 0)
    && (space in spaces ==> spaces[space] == SpaceUsers(slots, space))
  }

  ghost predicate SlotsOk(slots: seq<Slot>, memfds: nat) {
    forall k :: 0 <= k < |slots| ==> SlotOk(slots[k], memfds)
  }

  ghost predicate ObjectsExact(slots: seq<Slot>, memfds: seq<Memfd>) {
    forall backing: nat :: backing < |memfds| ==> ObjectExact(slots, memfds, backing)
  }

  ghost predicate SpacesExact(slots: seq<Slot>, spaces: map<nat, nat>) {
    0 !in spaces && forall space: nat :: space > 0 ==> SpaceExact(slots, spaces, space)
  }

  /** One holder of a memfd object fewer. */
  function Dropped(m: Memfd): Memfd {
    if !m.used || m.references == 0 then m
    else if m.references == 1 then Memfd(false, 0) else Memfd(true, m.references - 1)
  }

  /** One holder of an address space fewer; the last one destroys it. */
  function Lose(spaces: map<nat, nat>, space: nat): map<nat, nat>
    requires space == 0 || (space in spaces && spaces[space] > 0)
  {
    if space == 0 then spaces
    else if spaces[space] == 1 then spaces - {space}
    else spaces[space := spaces[space] - 1]
  }

  /** One holder of an address space more. */
  function Gain(spaces: map<nat, nat>, space: nat): map<nat, nat> {
    if space == 0 then spaces else spaces[space := (if space in spaces then spaces[space] else 0) + 1]
  }

  /** The counts follow when slot `k` becomes `s`. */
  lemma ObjectsFollow(slots: seq<Slot>, memfds: seq<Memfd>, memfds': seq<Memfd>, k: nat, s: Slot)
    requires ObjectsExact(slots, memfds) && |memfds'| == |memfds| && k < |slots|
    requires forall o: nat :: o < |memfds| ==>
      && memfds'[o].references + DescriptorUsers(slots[k].descriptors, o) ==
           memfds[o].references + DescriptorUsers(s.descriptors, o)
      && (memfds'[o].used <==> memfds'[o].references > 0)
    ensures ObjectsExact(slots[k := s], memfds')
  {
    var slots' := slots[k := s];
    forall o: nat | o < |memfds'| ensures ObjectExact(slots', memfds', o) {
      assert ObjectExact(slots, memfds, o);
      ObjectChanges(slots, k, s, o);
    }
  }

  lemma SpacesFollow(slots: seq<Slot>, spaces: map<nat, nat>, k: nat, s: Slot)
    requires SpacesExact(slots, spaces) && k < |slots| && s.space != slots[k].space
    ensures slots[k].space == 0 || (slots[k].space in spaces && spaces[slots[k].space] > 0)
    ensures SpacesExact(slots[k := s], Gain(Lose(spaces, slots[k].space), s.space))
  {
    SpaceCounts(slots, k);
    assert slots[k].space > 0 ==> SpaceExact(slots, spaces, slots[k].space);
    var slots', after := slots[k := s], Gain(Lose(spaces, slots[k].space), s.space);
    forall a: nat | a > 0 ensures SpaceExact(slots', after, a) {
      assert SpaceExact(slots, spaces, a);
      SpaceChanges(slots, k, s, a);
    }
  }

  /** Same space, same users. */
  lemma SpacesStay(slots: seq<Slot>, spaces: map<nat, nat>, k: nat, s: Slot)
    requires SpacesExact(slots, spaces) && k < |slots| && s.space == slots[k].space
    ensures SpacesExact(slots[k := s], spaces)
  {
    var slots' := slots[k := s];
    forall a: nat | a > 0 ensures SpaceExact(slots', spaces, a) {
      assert SpaceExact(slots, spaces, a);
      SpaceChanges(slots, k, s, a);
    }
  }

  /** The counts while the descriptors of slot `k` below `d` have been released. */
  ghost predicate Releasing(slots: seq<Slot>, memfds: seq<Memfd>, k: nat, d: nat)
    requires k < |slots| && d <= |slots[k].descriptors|
  {
    forall o: nat :: o < |memfds| ==>
      && memfds[o].references + DescriptorUsers(slots[k].descriptors[..d], o) == ObjectUsers(slots, o)
      && (memfds[o].used <==> memfds[o].references > 0)
  }

  lemma {:induction false} PrefixUsers(ds: seq<Descriptor>, d: nat, o: nat)
    requires d <= |ds|
    ensures DescriptorUsers(ds[..d], o) <= DescriptorUsers(ds, o)
    decreases |ds|
  {
    if d < |ds| {
      PrefixUsers(ds[..|ds| - 1], d, o);
      assert ds[..|ds| - 1][..d] == ds[..d];
    } else {
      assert ds[..d] == ds;
    }
  }

  lemma NextUser(ds: seq<Descriptor>, d: nat, o: nat)
    requires FIRST_DESCRIPTOR <= d < |ds|
    ensures DescriptorUsers(ds[..d + 1], o) == DescriptorUsers(ds[..d], o) + if Refers(ds[d], o) then 1 else 0
    ensures DescriptorUsers(ds[..d + 1], o) <= DescriptorUsers(ds, o)
  {
    assert ds[..d + 1][..d] == ds[..d];
    PrefixUsers(ds, d + 1, o);
  }

  /** Releasing descriptor `d` moves the mark one further. */
  lemma ReleaseStep(slots: seq<Slot>, memfds: seq<Memfd>, k: nat, d: nat)
    requires k < |slots| && FIRST_DESCRIPTOR <= d < |slots[k].descriptors| && Releasing(slots, memfds, k, d)
    requires var x := slots[k].descriptors[d]; x.used && x.memfd ==> x.backing < |memfds|
    ensures var x := slots[k].descriptors[d];
      var memfds' := if x.used && x.memfd then memfds[x.backing := Dropped(memfds[x.backing])] else memfds;
      Releasing(slots, memfds', k, d + 1)
  {
    var x := slots[k].descriptors[d];
    var memfds' := if x.used && x.memfd then memfds[x.backing := Dropped(memfds[x.backing])] else memfds;
    forall o: nat | o < |memfds'|
      ensures memfds'[o].references + DescriptorUsers(slots[k].descriptors[..d + 1], o) == ObjectUsers(slots, o)
      ensures memfds'[o].used <==> memfds'[o].references > 0
    {
      NextUser(slots[k].descriptors, d, o);
      ObjectCounts(slots, k, o);
    }
  }

  /** The counts while the descriptors of slot `k` below `d` have been counted once more. */
  ghost predicate Retaining(slots: seq<Slot>, memfds: seq<Memfd>, ds: seq<Descriptor>, d: nat)
    requires d <= |ds|
  {
    forall o: nat :: o < |memfds| ==>
      && memfds[o].references == ObjectUsers(slots, o) + DescriptorUsers(ds[..d], o)
      && (memfds[o].used <==> memfds[o].references > 0)
  }

  lemma RetainStep(slots: seq<Slot>, memfds: seq<Memfd>, k: nat, d: nat)
    requires k < |slots| && FIRST_DESCRIPTOR <= d < |slots[k].descriptors|
    requires Retaining(slots, memfds, slots[k].descriptors, d)
    requires var x := slots[k].descriptors[d]; x.used && x.memfd ==> x.backing < |memfds|
    ensures var x := slots[k].descriptors[d];
      x.used && x.memfd ==> memfds[x.backing].used
    ensures var x := slots[k].descriptors[d];
      var memfds' := if x.used && x.memfd
        then memfds[x.backing := memfds[x.backing].(references := memfds[x.backing].references + 1)] else memfds;
      Retaining(slots, memfds', slots[k].descriptors, d + 1)
  {
    var ds := slots[k].descriptors;
    var x := ds[d];
    if x.used && x.memfd {
      DescriptorCounts(ds, d, x.backing);
      ObjectCounts(slots, k, x.backing);
    }
    var memfds' := if x.used && x.memfd
      then memfds[x.backing := memfds[x.backing].(references := memfds[x.backing].references + 1)] else memfds;
    forall o: nat | o < |memfds'|
      ensures memfds'[o].references == ObjectUsers(slots, o) + DescriptorUsers(ds[..d + 1], o)
      ensures memfds'[o].used <==> memfds'[o].references > 0
    {
      NextUser(ds, d, o);
    }
  }

  /** A slot reserve_slot may hand out: an unused one, or that of another process that has ended. */
  predicate Reusable(slots: seq<Slot>, current: int, k: int) {
    0 <= k < |slots| && (!slots[k].used || slots[k].zombie) && k != current
  }

  /** The slot of the running process, or -1 while none runs. */
  predicate Current(slots: seq<Slot>, current: int) {
    -1 <= current < |slots| && (current >= 0 ==> slots[current].used)
  }

  ghost predicate HasRoom(slots: seq<Slot>, current: int) {
    exists k :: Reusable(slots, current, k)
  }

  /** One reusable slot was cleared. */
  ghost predicate Reclaimed(before: seq<Slot>, after: seq<Slot>, current: int) {
    exists k :: Reusable(before, current, k) && after == before[k := Blank()]
  }

  ghost predicate SpareDescriptor(ds: seq<Descriptor>) {
    exists i :: FIRST_DESCRIPTOR <= i < |ds| && !ds[i].used
  }

  /** Descriptor `d` is the lowest free one. */
  ghost predicate LowestSpare(ds: seq<Descriptor>, d: int) {
    FIRST_DESCRIPTOR <= d < |ds| && !ds[d].used && forall i :: FIRST_DESCRIPTOR <= i < d ==> ds[i].used
  }

  ghost predicate SpareObject(memfds: seq<Memfd>) {
    exists o :: 0 <= o < |memfds| && !memfds[o].used
  }

  class Kernel {
    var slots: seq<Slot>
    var memfds: seq<Memfd>
    var spaces: map<nat, nat>   // address spaces and their reference counts

    ghost predicate Valid()
      reads this
    {
      SlotsOk(slots, |memfds|) && ObjectsExact(slots, memfds) && SpacesExact(slots, spaces)
    }

    constructor (processes: nat, objects: nat)
      ensures Valid() && |memfds| == objects && spaces == map[]
      ensures slots == seq(processes, _ => Blank()) && forall o :: 0 <= o < objects ==> !memfds[o].used
    {
      slots, memfds, spaces := seq(processes, _ => Blank()), seq(objects, _ => Memfd(false, 0)), map[];
      new;
      forall backing: nat ensures ObjectUsers(slots, backing) == 0 && (backing > 0 ==> SpaceUsers(slots, backing) == 0) {
        BlankUsers(processes, backing);
      }
    }

    /** memfd_release_object: the last release frees the object. */
    method ReleaseObject(backing: nat)
      requires backing < |memfds|
      modifies this`memfds
      ensures |memfds| == old(|memfds|)
      ensures memfds == old(memfds)[backing := Dropped(old(memfds[backing]))]
    {
      if !memfds[backing].used || memfds[backing].references == 0 {
        return;
      }
      memfds := memfds[backing := Memfd(true, memfds[backing].references - 1)];
      if memfds[backing].references == 0 {
        memfds := memfds[backing := Memfd(false, 0)];
      }
    }

    /** address_space_release: the last release destroys the space. */
    method ReleaseSpace(space: nat)
      requires space == 0 || (space in spaces && spaces[space] > 0)
      modifies this`spaces
      ensures spaces == Lose(old(spaces), space)
    {
      if space != 0 {
        spaces := spaces[space := spaces[space] - 1];
        if spaces[space] == 0 {
          spaces := spaces - {space};
        }
      }
    }

    /** reset_process_slot: everything the slot held is given up. */
    method ResetSlot(k: nat)
      requires Valid() && k < |slots|
      modifies this
      ensures Valid() && slots == old(slots)[k := Blank()] && |memfds| == old(|memfds|)
      ensures spaces.Keys <= old(spaces.Keys)
    {
      hide DescriptorUsers, ObjectUsers, SpaceUsers;
      ghost var before, counts := slots, memfds;
      var ds := slots[k].descriptors;
      assert SlotOk(slots[k], |memfds|);
      StartRelease(slots, memfds, k);
      var d := FIRST_DESCRIPTOR;
      while d < MAX_DESCRIPTORS
        invariant FIRST_DESCRIPTOR <= d <= MAX_DESCRIPTORS && slots == before && |memfds| == |counts|
        invariant Releasing(slots, memfds, k, d) && spaces == old(spaces)
      {
        ReleaseStep(slots, memfds, k, d);
        if ds[d].used {
          if ds[d].memfd {
            ReleaseObject(ds[d].backing);
          }
        }
        d := d + 1;
      }
      EndRelease(slots, counts, memfds, k);
      if slots[k].space != 0 {
        SpacesFollow(slots, spaces, k, Blank());
        ReleaseSpace(slots[k].space);
      } else {
        SpacesStay(slots, spaces, k, Blank());
      }
      slots := slots[k := Blank()];
    }

    /** reserve_slot: an unused slot, or that of a zombie other than the current process. */
    method ReserveSlot(current: int) returns (index: int)
      requires Valid() && Current(slots, current)
      modifies this
      ensures Valid() && |memfds| == old(|memfds|) && spaces.Keys <= old(spaces.Keys)
      ensures index >= 0 ==> Reusable(old(slots), current, index) && slots == old(slots)[index := Blank()]
      ensures index >= 0 && old(slots)[index].used ==> forall k :: 0 <= k < |old(slots)| ==> old(slots)[k].used
      ensures index < 0 ==> slots == old(slots)
      ensures index >= 0 <==> HasRoom(old(slots), current)
    {
      index := 0;
      while index < |slots|
        invariant 0 <= index <= |slots| && forall k :: 0 <= k < index ==> slots[k].used
      {
        if !slots[index].used {
          assert SlotOk(slots[index], |memfds|);
          assert slots[index := Blank()] == slots;
          assert Reusable(slots, current, index);
          return;
        }
        index := index + 1;
      }
      index := 0;
      while index < |slots|
        invariant 0 <= index <= |slots| && Valid() && slots == old(slots) && memfds == old(memfds) && spaces == old(spaces)
        invariant forall k :: 0 <= k < index && k != current ==> !slots[k].zombie
      {
        if index != current && slots[index].zombie {
          assert Reusable(slots, current, index);
          ResetSlot(index);
          return;
        }
        index := index + 1;
      }
      index := -1;
    }

    /** finish_process, as far as references go: the process becomes a zombie and keeps what it holds. */
    method Finish(k: nat)
      requires Valid() && k < |slots| && slots[k].used
      modifies this`slots
      ensures Valid() && slots == old(slots)[k := old(slots[k]).(zombie := true)]
    {
      hide DescriptorUsers, ObjectUsers, SpaceUsers;
      var s := slots[k].(zombie := true);
      SameDescriptors(slots, memfds, k, s);
      SpacesStay(slots, spaces, k, s);
      slots := slots[k := s];
    }

    /** The end of wait4: the slot of a zombie is given back. */
    method Reap(k: nat)
      requires Valid() && k < |slots| && slots[k].zombie
      modifies this
      ensures Valid() && slots == old(slots)[k := Blank()] && |memfds| == old(|memfds|)
    {
      ResetSlot(k);
    }

    /** create_process: a new space for a new slot; `loads` says whether the program can be loaded. */
    method CreateProcess(current: int, created: nat, loads: bool) returns (index: int)
      requires Valid() && Current(slots, current) && created !in spaces
      modifies this
      ensures Valid() && |memfds| == old(|memfds|)
      ensures index >= 0 ==> Reusable(old(slots), current, index) && created in spaces && spaces[created] == 1
      ensures index >= 0 ==> slots == old(slots)[index := Slot(true, false, created, NoDescriptors())]
      ensures index >= 0 <==> created > 0 && loads && HasRoom(old(slots), current)
      ensures index < 0 ==> slots == old(slots) || Reclaimed(old(slots), slots, current)
    {
      hide DescriptorUsers, ObjectUsers, SpaceUsers;
      index := ReserveSlot(current);
      if index < 0 {
        return -1;
      }
      if created == 0 {
        return -1;
      }
      if !loads {
        GainLose(spaces, created);
        spaces := Gain(spaces, created);
        ReleaseSpace(created);
        return -1;
      }
      var s := Slot(true, false, created, NoDescriptors());
      SameDescriptors(slots, memfds, index, s);
      SpacesFollow(slots, spaces, index, s);
      spaces := Gain(spaces, created);
      slots := slots[index := s];
    }

    /** clone_current: a thread in the same space, or a process in a copy of it. */
    method Clone(current: nat, share: bool, created: nat, tlsReady: bool) returns (index: int)
      requires Valid() && current < |slots| && slots[current].used && slots[current].space > 0
      requires created !in spaces
      modifies this
      ensures Valid() && |memfds| == old(|memfds|) && |slots| == old(|slots|)
      ensures index >= 0 ==> Reusable(old(slots), current, index) && slots[current] == old(slots[current]) && tlsReady
      ensures index >= 0 ==> slots == old(slots)[index :=
        Slot(true, false, if share then slots[current].space else created, slots[current].descriptors)]
      ensures index >= 0 <==> (share || created > 0) && tlsReady && HasRoom(old(slots), current)
      ensures index < 0 ==> slots == old(slots) || Reclaimed(old(slots), slots, current)
    {
      hide DescriptorUsers, ObjectUsers, SpaceUsers;
      index := ReserveSlot(current);
      if index < 0 {
        return;
      }
      var space := if share then slots[current].space else created;
      if space == 0 {
        return -1;
      }
      var parent := slots[current];
      ghost var before := spaces;
      SpacePositive(slots, spaces, space);
      SpacesFollow(slots, spaces, index, Slot(true, false, space, parent.descriptors));
      spaces := Gain(spaces, space);
      if !tlsReady {
        GainLose(before, space);
        ReleaseSpace(space);
        return -1;
      }
      assert SlotOk(parent, |memfds|);
      ghost var counts, table, held := memfds, slots, spaces;
      StartRetain(slots, memfds, parent.descriptors);
      var d := FIRST_DESCRIPTOR;
      while d < MAX_DESCRIPTORS
        invariant FIRST_DESCRIPTOR <= d <= MAX_DESCRIPTORS && |memfds| == |counts|
        invariant slots == table && spaces == held && Retaining(slots, memfds, parent.descriptors, d)
      {
        RetainStep(slots, memfds, current, d);
        var x := parent.descriptors[d];
        if x.used && x.memfd && memfds[x.backing].used {
          memfds := memfds[x.backing := memfds[x.backing].(references := memfds[x.backing].references + 1)];
        }
        d := d + 1;
      }
      EndRetain(slots, counts, memfds, index, Slot(true, false, space, parent.descriptors));
      slots := slots[index := Slot(true, false, space, parent.descriptors)];
    }

    /** replace_current_image: the process moves to a new space and gives up the old one. */
    method Exec(current: nat, created: nat, loads: bool) returns (ok: bool)
      requires Valid() && current < |slots| && slots[current].used && created !in spaces
      modifies this
      ensures Valid() && memfds == old(memfds)
      ensures ok <==> created > 0 && loads
      ensures slots == if ok then old(slots)[current := old(slots[current]).(space := created)] else old(slots)
    {
      hide DescriptorUsers, ObjectUsers, SpaceUsers;
      if created == 0 || !loads {
        return false;
      }
      var s := slots[current].(space := created);
      SpaceCountsIfAny(slots, spaces, current);
      SpacesFollow(slots, spaces, current, s);
      SameDescriptors(slots, memfds, current, s);
      var previous := slots[current].space;
      GainThenLose(spaces, previous, created);
      spaces := Gain(spaces, created);
      slots := slots[current := s];
      ReleaseSpace(previous);
      return true;
    }

    /** close: the descriptor gives up what it referred to. */
    method Close(k: nat, d: nat) returns (ok: bool)
      requires Valid() && k < |slots| && slots[k].used
      modifies this
      ensures Valid() && spaces == old(spaces) && |memfds| == old(|memfds|)
      ensures ok <==> FIRST_DESCRIPTOR <= d < MAX_DESCRIPTORS && old(slots[k].descriptors)[d].used
      ensures slots == if ok then old(slots)[k := old(slots[k]).(descriptors := old(slots[k].descriptors)[d := CLOSED])]
                       else old(slots)
    {
      hide DescriptorUsers, ObjectUsers, SpaceUsers;
      assert SlotOk(slots[k], |memfds|);
      if d < FIRST_DESCRIPTOR || d >= MAX_DESCRIPTORS || !slots[k].descriptors[d].used {
        return false;
      }
      var x := slots[k].descriptors[d];
      var s := slots[k].(descriptors := slots[k].descriptors[d := CLOSED]);
      OneDropped(slots, memfds, k, d);
      SpacesStay(slots, spaces, k, s);
      if x.memfd {
        ReleaseObject(x.backing);
      }
      slots := slots[k := s];
      return true;
    }

    method FindDescriptor(k: nat) returns (d: int)
      requires k < |slots| && |slots[k].descriptors| == MAX_DESCRIPTORS
      ensures d >= 0 ==> FIRST_DESCRIPTOR <= d < MAX_DESCRIPTORS && !slots[k].descriptors[d].used
      ensures d >= 0 ==> forall i :: FIRST_DESCRIPTOR <= i < d ==> slots[k].descriptors[i].used
      ensures d < 0 ==> forall i :: FIRST_DESCRIPTOR <= i < MAX_DESCRIPTORS ==> slots[k].descriptors[i].used
    {
      d := FIRST_DESCRIPTOR;
      while d < MAX_DESCRIPTORS
        invariant FIRST_DESCRIPTOR <= d <= MAX_DESCRIPTORS
        invariant forall i :: FIRST_DESCRIPTOR <= i < d ==> slots[k].descriptors[i].used
      {
        if !slots[k].descriptors[d].used {
          return;
        }
        d := d + 1;
      }
      d := -1;
    }

    /** linux_duplicate_descriptor: the target is closed first, then refers to the source's object as well. */
    method Duplicate(k: nat, from: nat, target: nat, exact: bool) returns (result: int)
      requires Valid() && k < |slots| && slots[k].used
      modifies this
      ensures Valid() && spaces == old(spaces) && |memfds| == old(|memfds|)
      ensures result >= 0 ==> FIRST_DESCRIPTOR <= result < MAX_DESCRIPTORS && from < MAX_DESCRIPTORS
      ensures result >= 0 ==> slots == old(slots)[k := old(slots[k]).(
        descriptors := old(slots[k].descriptors)[result := old(slots[k].descriptors)[from]])]
      ensures result < 0 ==> slots == old(slots) && memfds == old(memfds)
      ensures var ds := old(slots[k].descriptors);
        && |ds| == MAX_DESCRIPTORS
        && (result >= 0 <==>
              && FIRST_DESCRIPTOR <= from < MAX_DESCRIPTORS && ds[from].used
              && (if exact then FIRST_DESCRIPTOR <= target < MAX_DESCRIPTORS else SpareDescriptor(ds)))
        && (result >= 0 ==> if exact then result == target else LowestSpare(ds, result))
    {
      hide DescriptorUsers, ObjectUsers, SpaceUsers;
      assert SlotOk(slots[k], |memfds|);
      if from < FIRST_DESCRIPTOR || from >= MAX_DESCRIPTORS || !slots[k].descriptors[from].used {
        return -1;
      }
      var d: int := target;
      if !exact {
        d := FindDescriptor(k);
      }
      if d < FIRST_DESCRIPTOR || d >= MAX_DESCRIPTORS {
        return -1;
      }
      if d == from {
        assert slots[k].descriptors[d := slots[k].descriptors[from]] == slots[k].descriptors;
        return d;
      }
      if slots[k].descriptors[d].used {
        var closed := Close(k, d);
      }
      assert SlotOk(slots[k], |memfds|);
      var x := slots[k].descriptors[from];
      OneGained(slots, memfds, k, d, x, from);
      var s := slots[k].(descriptors := slots[k].descriptors[d := x]);
      SpacesStay(slots, spaces, k, s);
      if x.memfd && memfds[x.backing].used {
        memfds := memfds[x.backing := memfds[x.backing].(references := memfds[x.backing].references + 1)];
      }
      slots := slots[k := s];
      assert s.descriptors == old(slots[k].descriptors)[d := x];
      return d;
    }

    /** linux_memfd_create: a new object with one descriptor. */
    method CreateMemfd(k: nat) returns (result: int)
      requires Valid() && k < |slots| && slots[k].used
      modifies this
      ensures Valid() && spaces == old(spaces) && |memfds| == old(|memfds|)
      ensures result < 0 ==> slots == old(slots) && memfds == old(memfds)
      ensures result >= 0 ==> FIRST_DESCRIPTOR <= result < MAX_DESCRIPTORS
      ensures result >= 0 ==> exists o: nat ::
        && o < |memfds| && !old(memfds[o].used) && memfds == old(memfds)[o := Memfd(true, 1)]
        && slots == old(slots)[k := old(slots[k]).(
             descriptors := old(slots[k].descriptors)[result := Descriptor(true, true, o)])]
      ensures result >= 0 <==> SpareObject(old(memfds)) && SpareDescriptor(old(slots[k].descriptors))
    {
      hide DescriptorUsers, ObjectUsers, SpaceUsers;
      assert SlotOk(slots[k], |memfds|);
      var o := 0;
      while o < |memfds| && memfds[o].used
        invariant 0 <= o <= |memfds| && forall i :: 0 <= i < o ==> memfds[i].used
      {
        o := o + 1;
      }
      var d := FindDescriptor(k);
      if o == |memfds| || d < 0 {
        // An object allocated without a descriptor is released again at once.
        return -1;
      }
      var x := Descriptor(true, true, o);
      var s := slots[k].(descriptors := slots[k].descriptors[d := x]);
      FirstUser(slots, memfds, k, d, o);
      SpacesStay(slots, spaces, k, s);
      memfds := memfds[o := Memfd(true, 1)];
      slots := slots[k := s];
      return d;
    }
  }

  lemma SameDescriptors(slots: seq<Slot>, memfds: seq<Memfd>, k: nat, s: Slot)
    requires SlotsOk(slots, |memfds|) && ObjectsExact(slots, memfds) && k < |slots| && s.used
    requires s.descriptors == slots[k].descriptors
    ensures SlotsOk(slots[k := s], |memfds|) && ObjectsExact(slots[k := s], memfds)
  {
    assert SlotOk(slots[k], |memfds|);
    forall o: nat | o < |memfds| ensures memfds[o].used <==> memfds[o].references > 0 {
      assert ObjectExact(slots, memfds, o);
    }
    ObjectsFollow(slots, memfds, memfds, k, s);
  }

  lemma SpaceCountsIfAny(slots: seq<Slot>, spaces: map<nat, nat>, k: nat)
    requires SpacesExact(slots, spaces) && k < |slots|
    ensures slots[k].space > 0 ==> slots[k].space in spaces
  {
    SpaceCounts(slots, k);
    assert slots[k].space > 0 ==> SpaceExact(slots, spaces, slots[k].space);
  }

  lemma SpacePositive(slots: seq<Slot>, spaces: map<nat, nat>, space: nat)
    requires SpacesExact(slots, spaces)
    ensures space in spaces ==> spaces[space] > 0
  {
    assert space > 0 ==> SpaceExact(slots, spaces, space);
  }

  lemma GainLose(spaces: map<nat, nat>, space: nat)
    requires space > 0 && (space in spaces ==> spaces[space] > 0)
    ensures space in Gain(spaces, space) && Lose(Gain(spaces, space), space) == spaces
  {
  }

  lemma GainThenLose(spaces: map<nat, nat>, previous: nat, created: nat)
    requires created > 0 && created !in spaces && (previous == 0 || (previous in spaces && spaces[previous] > 0))
    ensures previous == 0 || (previous in Gain(spaces, created) && Gain(spaces, created)[previous] > 0)
    ensures Lose(Gain(spaces, created), previous) == Gain(Lose(spaces, previous), created)
  {
  }

  lemma StartRetain(slots: seq<Slot>, memfds: seq<Memfd>, ds: seq<Descriptor>)
    requires ObjectsExact(slots, memfds) && |ds| == MAX_DESCRIPTORS
    ensures Retaining(slots, memfds, ds, FIRST_DESCRIPTOR)
  {
    forall o: nat | o < |memfds|
      ensures memfds[o].references == ObjectUsers(slots, o) + DescriptorUsers(ds[..FIRST_DESCRIPTOR], o)
      ensures memfds[o].used <==> memfds[o].references > 0
    {
      assert ObjectExact(slots, memfds, o);
    }
  }

  lemma EndRetain(slots: seq<Slot>, counts: seq<Memfd>, memfds: seq<Memfd>, k: nat, s: Slot)
    requires SlotsOk(slots, |memfds|) && ObjectsExact(slots, counts) && |memfds| == |counts| && k < |slots|
    requires slots[k] == Blank() && s.used && SlotOk(s, |memfds|)
    requires Retaining(slots, memfds, s.descriptors, MAX_DESCRIPTORS)
    ensures SlotsOk(slots[k := s], |memfds|) && ObjectsExact(slots[k := s], memfds)
  {
    hide DescriptorUsers, ObjectUsers;
    assert s.descriptors[..MAX_DESCRIPTORS] == s.descriptors;
    forall o: nat | o < |memfds|
      ensures memfds[o].references + DescriptorUsers(slots[k].descriptors, o) ==
        counts[o].references + DescriptorUsers(s.descriptors, o)
    {
      assert ObjectExact(slots, counts, o);
      NoUsers(MAX_DESCRIPTORS, o);
      assert NoDescriptors()[..MAX_DESCRIPTORS] == NoDescriptors();
    }
    ObjectsFollow(slots, counts, memfds, k, s);
  }

  lemma OneDropped(slots: seq<Slot>, memfds: seq<Memfd>, k: nat, d: nat)
    requires SlotsOk(slots, |memfds|) && ObjectsExact(slots, memfds) && k < |slots| && slots[k].used
    requires FIRST_DESCRIPTOR <= d < MAX_DESCRIPTORS && |slots[k].descriptors| == MAX_DESCRIPTORS
    requires slots[k].descriptors[d].used
    ensures var x := slots[k].descriptors[d];
      var memfds' := if x.memfd && x.backing < |memfds| then memfds[x.backing := Dropped(memfds[x.backing])] else memfds;
      var slots' := slots[k := slots[k].(descriptors := slots[k].descriptors[d := CLOSED])];
      (x.memfd ==> x.backing < |memfds|) && SlotsOk(slots', |memfds|) && ObjectsExact(slots', memfds')
  {
    hide DescriptorUsers, ObjectUsers;
    var ds := slots[k].descriptors;
    var x := ds[d];
    assert SlotOk(slots[k], |memfds|);
    var memfds' := if x.memfd && x.backing < |memfds| then memfds[x.backing := Dropped(memfds[x.backing])] else memfds;
    forall o: nat | o < |memfds|
      ensures memfds'[o].references + DescriptorUsers(ds, o) == memfds[o].references + DescriptorUsers(ds[d := CLOSED], o)
      ensures memfds'[o].used <==> memfds'[o].references > 0
    {
      assert ObjectExact(slots, memfds, o);
      DescriptorChanges(ds, d, CLOSED, o);
      ObjectCounts(slots, k, o);
    }
    ObjectsFollow(slots, memfds, memfds', k, slots[k].(descriptors := ds[d := CLOSED]));
  }

  lemma OneGained(slots: seq<Slot>, memfds: seq<Memfd>, k: nat, d: nat, x: Descriptor, from: nat)
    requires SlotsOk(slots, |memfds|) && ObjectsExact(slots, memfds) && k < |slots| && slots[k].used
    requires |slots[k].descriptors| == MAX_DESCRIPTORS && FIRST_DESCRIPTOR <= d < MAX_DESCRIPTORS
    requires FIRST_DESCRIPTOR <= from < MAX_DESCRIPTORS && !slots[k].descriptors[d].used
    requires slots[k].descriptors[from] == x && x.used
    ensures x.memfd ==> x.backing < |memfds| && memfds[x.backing].used
    ensures var memfds' := if x.memfd
        then memfds[x.backing := memfds[x.backing].(references := memfds[x.backing].references + 1)] else memfds;
      var slots' := slots[k := slots[k].(descriptors := slots[k].descriptors[d := x])];
      SlotsOk(slots', |memfds|) && ObjectsExact(slots', memfds')
  {
    hide DescriptorUsers, ObjectUsers;
    var ds := slots[k].descriptors;
    assert SlotOk(slots[k], |memfds|);
    if x.memfd {
      assert ObjectExact(slots, memfds, x.backing);
      DescriptorCounts(ds, from, x.backing);
      ObjectCounts(slots, k, x.backing);
    }
    var memfds' := if x.memfd
      then memfds[x.backing := memfds[x.backing].(references := memfds[x.backing].references + 1)] else memfds;
    forall o: nat | o < |memfds|
      ensures memfds'[o].references + DescriptorUsers(ds, o) == memfds[o].references + DescriptorUsers(ds[d := x], o)
      ensures memfds'[o].used <==> memfds'[o].references > 0
    {
      assert ObjectExact(slots, memfds, o);
      DescriptorChanges(ds, d, x, o);
    }
    ObjectsFollow(slots, memfds, memfds', k, slots[k].(descriptors := ds[d := x]));
  }

  lemma FirstUser(slots: seq<Slot>, memfds: seq<Memfd>, k: nat, d: nat, o: nat)
    requires SlotsOk(slots, |memfds|) && ObjectsExact(slots, memfds) && k < |slots| && slots[k].used
    requires |slots[k].descriptors| == MAX_DESCRIPTORS && FIRST_DESCRIPTOR <= d < MAX_DESCRIPTORS
    requires !slots[k].descriptors[d].used && o < |memfds| && !memfds[o].used
    ensures var slots' := slots[k := slots[k].(descriptors := slots[k].descriptors[d := Descriptor(true, true, o)])];
      SlotsOk(slots', |memfds|) && ObjectsExact(slots', memfds[o := Memfd(true, 1)])
  {
    hide DescriptorUsers, ObjectUsers;
    var ds, x := slots[k].descriptors, Descriptor(true, true, o);
    var memfds' := memfds[o := Memfd(true, 1)];
    assert SlotOk(slots[k], |memfds|);
    forall p: nat | p < |memfds|
      ensures memfds'[p].references + DescriptorUsers(ds, p) == memfds[p].references + DescriptorUsers(ds[d := x], p)
      ensures memfds'[p].used <==> memfds'[p].references > 0
    {
      assert ObjectExact(slots, memfds, p);
      DescriptorChanges(ds, d, x, p);
    }
    ObjectsFollow(slots, memfds, memfds', k, slots[k].(descriptors := ds[d := x]));
  }

  lemma StartRelease(slots: seq<Slot>, memfds: seq<Memfd>, k: nat)
    requires ObjectsExact(slots, memfds) && k < |slots| && |slots[k].descriptors| == MAX_DESCRIPTORS
    ensures Releasing(slots, memfds, k, FIRST_DESCRIPTOR)
  {
    forall o: nat | o < |memfds|
      ensures memfds[o].references + DescriptorUsers(slots[k].descriptors[..FIRST_DESCRIPTOR], o) == ObjectUsers(slots, o)
    {
      assert ObjectExact(slots, memfds, o);
    }
    forall o: nat | o < |memfds| ensures memfds[o].used <==> memfds[o].references > 0 {
      assert ObjectExact(slots, memfds, o);
    }
  }

  lemma EndRelease(slots: seq<Slot>, counts: seq<Memfd>, memfds: seq<Memfd>, k: nat)
    requires SlotsOk(slots, |memfds|) && ObjectsExact(slots, counts) && |memfds| == |counts| && k < |slots|
    requires |slots[k].descriptors| == MAX_DESCRIPTORS && Releasing(slots, memfds, k, MAX_DESCRIPTORS)
    ensures SlotsOk(slots[k := Blank()], |memfds|) && ObjectsExact(slots[k := Blank()], memfds)
  {
    hide DescriptorUsers, ObjectUsers;
    var ds := slots[k].descriptors;
    assert ds[..MAX_DESCRIPTORS] == ds;
    forall o: nat | o < |memfds|
      ensures memfds[o].references + DescriptorUsers(ds, o) == counts[o].references + DescriptorUsers(Blank().descriptors, o)
    {
      assert ObjectExact(slots, counts, o);
      NoUsers(MAX_DESCRIPTORS, o);
      assert NoDescriptors()[..MAX_DESCRIPTORS] == NoDescriptors();
    }
    ObjectsFollow(slots, counts, memfds, k, Blank());
  }

  lemma {:induction false} BlankUsers(n: nat, x: nat)
    ensures var slots := seq(n, _ => Blank()); ObjectUsers(slots, x) == 0 && (x > 0 ==> SpaceUsers(slots, x) == 0)
  {
    var slots := seq(n, _ => Blank());
    if n > 0 {
      BlankUsers(n - 1, x);
      assert slots[..n - 1] == seq(n - 1, _ => Blank());
      NoUsers(MAX_DESCRIPTORS, x);
      assert NoDescriptors()[..MAX_DESCRIPTORS] == NoDescriptors();
    }
  }

  // ----- runs

  /** What processes hold, and the counts the kernel keeps. */
  datatype State = State(slots: seq<Slot>, memfds: seq<Memfd>, spaces: map<nat, nat>)

  /** Every count is the number of holders. */
  ghost predicate Exact(s: State) {
    SlotsOk(s.slots, |s.memfds|) && ObjectsExact(s.slots, s.memfds) && SpacesExact(s.slots, s.spaces)
  }

  /** A call by process slot `caller`; `space` is the address space the heap would give out for it, 0 for none. */
  datatype Call =
    | Load(space: nat, loads: bool)
    | Fork(caller: nat, share: bool, space: nat, tlsReady: bool)
    | Execute(caller: nat, space: nat, loads: bool)
    | Exit(k: nat)
    | Collect(k: nat)
    | CloseDescriptor(caller: nat, d: nat)
    | Dup(caller: nat, from: nat, target: nat, exact: bool)
    | NewMemfd(caller: nat)

  /** Slot `k` is in use. */
  predicate Running(slots: seq<Slot>, k: nat) {
    k < |slots| && slots[k].used
  }

  /** The call can be made: its caller runs in a space, what it ends runs, what it collects has ended. */
  predicate Callable(slots: seq<Slot>, spaces: map<nat, nat>, call: Call) {
    match call
    case Load(space, _) => space !in spaces
    case Fork(caller, _, space, _) => Running(slots, caller) && slots[caller].space > 0 && space !in spaces
    case Execute(caller, space, _) => Running(slots, caller) && space !in spaces
    case Exit(k) => Running(slots, k)
    case Collect(k) => k < |slots| && slots[k].zombie
    case CloseDescriptor(caller, _) => Running(slots, caller)
    case Dup(caller, _, _, _) => Running(slots, caller)
    case NewMemfd(caller) => Running(slots, caller)
  }

  /** How a call changes the slots. */
  ghost predicate Changes(call: Call, s: State, s': State) {
    match call
    case Load(space, loads) =>
      if space > 0 && loads && HasRoom(s.slots, -1)
      then Taken(s.slots, s'.slots, -1, Slot(true, false, space, NoDescriptors()))
      else s'.slots == s.slots || Reclaimed(s.slots, s'.slots, -1)
    case Fork(caller, share, space, tlsReady) =>
      if caller < |s.slots| && (share || space > 0) && tlsReady && HasRoom(s.slots, caller)
      then Taken(s.slots, s'.slots, caller,
        Slot(true, false, if share then s.slots[caller].space else space, s.slots[caller].descriptors))
      else s'.slots == s.slots || Reclaimed(s.slots, s'.slots, caller)
    case Execute(caller, space, loads) =>
      caller < |s.slots| && s'.slots == if space > 0 && loads then s.slots[caller := s.slots[caller].(space := space)] else s.slots
    case Exit(k) => k < |s.slots| && s'.slots == s.slots[k := s.slots[k].(zombie := true)]
    case Collect(k) => k < |s.slots| && s'.slots == s.slots[k := Blank()]
    case CloseDescriptor(caller, d) => OneDescriptor(s, s', caller) && s'.spaces == s.spaces
    case Dup(caller, _, _, _) => OneDescriptor(s, s', caller) && s'.spaces == s.spaces
    case NewMemfd(caller) => OneDescriptor(s, s', caller) && s'.spaces == s.spaces
  }

  /** A reusable slot became `slot`. */
  ghost predicate Taken(before: seq<Slot>, after: seq<Slot>, current: int, slot: Slot) {
    exists k :: Reusable(before, current, k) && after == before[k := slot]
  }

  /** At most one descriptor of slot `caller` changed. */
  ghost predicate OneDescriptor(s: State, s': State, caller: nat) {
    && caller < |s.slots|
    && (s'.slots == s.slots || exists d: nat, x: Descriptor :: Replaces(s, s', caller, d, x))
  }

  ghost predicate Replaces(s: State, s': State, caller: nat, d: nat, x: Descriptor) {
    && caller < |s.slots| && d < |s.slots[caller].descriptors|
    && s'.slots == s.slots[caller := s.slots[caller].(descriptors := s.slots[caller].descriptors[d := x])]
  }

  ghost function StateOf(kernel: Kernel): State
    reads kernel
  {
    State(kernel.slots, kernel.memfds, kernel.spaces)
  }

  /** One call; afterwards every count is exact again, whether it succeeded or not. */
  method Perform(kernel: Kernel, call: Call)
    requires kernel.Valid() && Callable(kernel.slots, kernel.spaces, call)
    modifies kernel
    ensures kernel.Valid() && Changes(call, old(StateOf(kernel)), StateOf(kernel))
  {
    hide DescriptorUsers, ObjectUsers, SpaceUsers, ObjectsExact, SpacesExact;
    ghost var before := StateOf(kernel);
    match call
    case Load(space, loads) => var index := kernel.CreateProcess(-1, space, loads);
    case Fork(caller, share, space, tlsReady) => var index := kernel.Clone(caller, share, space, tlsReady);
    case Execute(caller, space, loads) => var ok := kernel.Exec(caller, space, loads);
    case Exit(k) => kernel.Finish(k);
    case Collect(k) => kernel.Reap(k);
    case CloseDescriptor(caller, d) =>
      var ok := kernel.Close(caller, d);
      assert ok ==> Replaces(before, StateOf(kernel), caller, d, CLOSED);
    case Dup(caller, from, target, exact) =>
      var result := kernel.Duplicate(caller, from, target, exact);
      assert result >= 0 ==> Replaces(before, StateOf(kernel), caller, result, before.slots[caller].descriptors[from]);
    case NewMemfd(caller) =>
      var result := kernel.CreateMemfd(caller);
      if result >= 0 {
        ghost var o: nat :| o < |kernel.memfds| && kernel.slots == before.slots[caller := before.slots[caller].(
          descriptors := before.slots[caller].descriptors[result := Descriptor(true, true, o)])];
        assert Replaces(before, StateOf(kernel), caller, result, Descriptor(true, true, o));
      }
  }

  /** Any calls, from an empty table: at every moment every count is exact.  Calls nobody can make are passed over. */
  method Run(processes: nat, objects: nat, calls: seq<Call>) returns (kernel: Kernel, ghost trace: seq<State>)
    ensures |trace| == |calls| + 1 && trace[0].slots == seq(processes, _ => Blank()) && trace[0].spaces == map[]
    ensures trace[|calls|] == StateOf(kernel)
    ensures forall i :: 0 <= i <= |calls| ==> Exact(trace[i])
    ensures forall i: nat :: i < |calls| ==> StepOf(calls[i], trace, i)
  {
    hide SlotsOk, ObjectsExact, SpacesExact, Changes;
    kernel := new Kernel(processes, objects);
    trace := [StateOf(kernel)];
    var done := 0;
    while done < |calls|
      invariant 0 <= done <= |calls| && |trace| == done + 1 && trace[done] == StateOf(kernel)
      invariant kernel.Valid() && fresh(kernel)
      invariant trace[0].slots == seq(processes, _ => Blank()) && trace[0].spaces == map[]
      invariant forall i :: 0 <= i <= done ==> Exact(trace[i])
      invariant forall i: nat :: i < done ==> StepOf(calls[i], trace, i)
    {
      if Callable(kernel.slots, kernel.spaces, calls[done]) {
        Perform(kernel, calls[done]);
      }
      ghost var longer := trace + [StateOf(kernel)];
      forall i: nat | i < done + 1 ensures StepOf(calls[i], longer, i) {
        assert i < done ==> StepOf(calls[i], trace, i);
      }
      trace := longer;
      done := done + 1;
    }
  }

  ghost predicate StepOf(call: Call, trace: seq<State>, i: nat)
    requires i + 1 < |trace|
  {
    if Callable(trace[i].slots, trace[i].spaces, call) then Changes(call, trace[i], trace[i + 1])
    else trace[i + 1] == trace[i]
  }

  /** Nothing live is freed: the space of a process and the objects behind its descriptors exist and count it. */
  lemma LiveIsHeld(s: State, k: nat, d: nat)
    requires Exact(s) && k < |s.slots| && FIRST_DESCRIPTOR <= d < MAX_DESCRIPTORS
    ensures s.slots[k].space > 0 ==> s.slots[k].space in s.spaces && s.spaces[s.slots[k].space] > 0
    ensures |s.slots[k].descriptors| == MAX_DESCRIPTORS
    ensures var x := s.slots[k].descriptors[d];
      x.used && x.memfd ==> x.backing < |s.memfds| && s.memfds[x.backing].used && s.memfds[x.backing].references > 0
  {
    SpaceCounts(s.slots, k);
    assert SlotOk(s.slots[k], |s.memfds|);
    var x := s.slots[k].descriptors[d];
    if s.slots[k].space > 0 {
      assert SpaceExact(s.slots, s.spaces, s.slots[k].space);
    }
    if x.used && x.memfd {
      DescriptorCounts(s.slots[k].descriptors, d, x.backing);
      ObjectCounts(s.slots, k, x.backing);
      assert ObjectExact(s.slots, s.memfds, x.backing);
    }
  }

  /** Nothing leaks: once no process is left, no space and no object is. */
  lemma NothingLeaks(s: State)
    requires Exact(s) && s.slots == seq(|s.slots|, _ => Blank())
    ensures s.spaces == map[] && forall o :: 0 <= o < |s.memfds| ==> !s.memfds[o].used
  {
    forall o: nat ensures ObjectUsers(s.slots, o) == 0 && (o > 0 ==> SpaceUsers(s.slots, o) == 0) {
      BlankUsers(|s.slots|, o);
    }
    forall a: nat ensures a !in s.spaces {
      assert a > 0 ==> SpaceExact(s.slots, s.spaces, a);
    }
    forall o: nat | o < |s.memfds| ensures !s.memfds[o].used {
      assert ObjectExact(s.slots, s.memfds, o);
    }
  }
}
