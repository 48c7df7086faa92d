/**
 What the calls of kernel/vm.c mean to the processes: the outcomes the VmSpace
 methods may report are runs of the copy-on-write machine, and so, through the
 eager machine, a copy into private memory is seen by its own space and by no
 other, and a clone starts as an exact copy.
 */
module CowCalls {
  import opened VmTypes
  import opened PageOps
  import opened CowMachine
  import opened CowInvariant
  import opened CowRefinement
  import AddressSpaces

  /** The machine once space `s` and the frames are as in `v`. */
  ghost function At(m: Machine, s: nat, v: View): Machine {
    Put(m, s, v.records, v.frames)
  }

  /** vm_map_page is a step: a new private page, or new protection for a mapped one. */
  lemma MapIsStep(m: Machine, s: nat, a: nat, protection: Protection, f: nat, v: View)
    requires s in m.spaces && Backed(m.spaces[s], m.frames)
    requires MappedPage(m.spaces[s], m.frames, a, protection, f, v.records, v.frames)
    ensures Step(m, if a in m.spaces[s] then Event.Protect(s, a, a + PAGE_SIZE, protection)
                    else MapNew(s, a, protection, f), At(m, s, v))
  {
  }

  /** vm_unmap_page is a step. */
  lemma UnmapIsStep(m: Machine, s: nat, a: nat, v: View)
    requires s in m.spaces && a in m.spaces[s] && m.spaces[s][a].frame in m.frames
    requires m.frames[m.spaces[s][a].frame].references > 0
    requires v == View(m.spaces[s] - {a}, Released(m.frames, m.spaces[s][a].frame))
    ensures Step(m, Unmap(s, a), At(m, s, v))
  {
  }

  /** vm_protect over a range is a step. */
  lemma ProtectIsStep(m: Machine, s: nat, first: nat, end: nat, protection: Protection, v: View)
    requires s in m.spaces && Backed(m.spaces[s], m.frames)
    requires v == View(ProtectRange(m.spaces[s], m.frames, first, end, protection), m.frames)
    ensures Step(m, Event.Protect(s, first, end, protection), At(m, s, v))
  {
  }

  /** vm_map_shared_frame of a memfd page is a step. */
  lemma MapSharedIsStep(m: Machine, s: nat, a: nat, k: Backing, protection: Protection, v: View)
    requires s in m.spaces && a !in m.spaces[s] && k in m.memfds && m.memfds[k] in m.frames
    requires v == View(m.spaces[s][a := Record(m.memfds[k], protection, false, true)], Retained(m.frames, m.memfds[k]))
    ensures Step(m, MapMemfd(s, a, k, protection), At(m, s, v))
  {
  }

  /** Both outcomes of vm_space_clone_cow are steps. */
  lemma CloneIsStep(m: Machine, parent: nat, child: nat)
    requires parent in m.spaces && child !in m.spaces && Backed(m.spaces[parent], m.frames)
    ensures Step(m, Clone(parent, child),
      Machine(m.spaces[parent := AddressSpaces.ParentRecords(m.spaces[parent])]
                      [child := AddressSpaces.ChildRecords(m.spaces[parent])],
              m.memfds, RetainAll(m.spaces[parent], m.frames)))
  {
  }

  lemma CloneFailedIsStep(m: Machine, parent: nat, v: View)
    requires parent in m.spaces && AddressSpaces.PartlyMarked(m.spaces[parent], v.records) && v.frames == m.frames
    ensures Step(m, CloneFailed(parent), At(m, parent, v))
  {
  }

  /** The copy-on-write outcome of vm_handle_page_fault is a step; the demand outcome is MapIsStep on the page. */
  lemma FaultIsStep(m: Machine, s: nat, a: nat, spare: nat, v: View)
    requires s in m.spaces && HasFrame(View(m.spaces[s], m.frames), a)
    requires MadePrivate(m.spaces[s], m.frames, a, spare, v.records, v.frames)
    ensures Step(m, CowFault(s, a), At(m, s, v))
  {
    assert At(m, s, v).spaces[s] == v.records;
  }

  /** A space never uses a frame more often than it is counted. */
  lemma SpaceCounted(m: Machine, s: nat)
    requires Inv(m) && s in m.spaces
    ensures Counted(m.spaces[s], m.frames)
  {
    hide Holders, PagesOk, Users;
    SpaceBacked(m, s);
    forall f | f in m.frames ensures UserCount(m.spaces[s], f) <= m.frames[f].references {
      SubsetCount(SpaceHolders(m, s, f), Holders(m, f));
    }
  }

  /** vm_space_reset_user destroys the space and makes it anew. */
  lemma ResetIsSteps(m: Machine, s: nat)
    requires s in m.spaces && Counted(m.spaces[s], m.frames)
    ensures var gone := Machine(m.spaces - {s}, m.memfds, ReleaseAll(m.spaces[s], m.frames));
      && Step(m, Destroy(s), gone)
      && Step(gone, NewSpace(s), At(m, s, View(map[], ReleaseAll(m.spaces[s], m.frames))))
  {
    hide Counted, ReleaseAll;
    var gone := Machine(m.spaces - {s}, m.memfds, ReleaseAll(m.spaces[s], m.frames));
    assert gone.spaces[s := map[]] == m.spaces[s := map[]];
  }

  // ----- vm_mark_shared as a run

  /** Every page of the range is shared already or alone on its frame. */
  ghost predicate SoleUsers(m: Machine, s: nat, first: nat, end: nat) {
    s in m.spaces && forall a :: a in m.spaces[s] && first <= a < end ==>
      m.spaces[s][a].shared ||
      (m.spaces[s][a].frame in m.frames && m.frames[m.spaces[s][a].frame].references == 1)
  }

  /** The machine after vm_mark_shared over [first, end) of space `s`. */
  ghost function SharedTo(m: Machine, s: nat, first: nat, end: nat): Machine
    requires s in m.spaces
  {
    Put(m, s, ShareRange(m.spaces[s], first, end), m.frames)
  }

  /** One page of vm_mark_shared: a step, or no change when the page is shared already or not there. */
  lemma ShareOneIsStep(m: Machine, s: nat, first: nat, page: nat)
    requires Inv(m) && SoleUsers(m, s, first, page + 1) && first <= page
    ensures var before, after := SharedTo(m, s, first, page), SharedTo(m, s, first, page + 1);
      if page in m.spaces[s] && !m.spaces[s][page].shared
      then Step(before, MarkShared(s, page, m.spaces[s][page].frame), after)
      else after == before
  {
    hide Holders, CountsExact, PagesOk, Common;
    var before, after := SharedTo(m, s, first, page), SharedTo(m, s, first, page + 1);
    if page in m.spaces[s] {
      PageIsOk(m, s, page);
      assert after.spaces[s] == before.spaces[s][page := m.spaces[s][page].(shared := true, copyOnWrite := false)];
      if m.spaces[s][page].shared {
        assert after.spaces[s] == before.spaces[s];
      }
    } else {
      assert after.spaces[s] == before.spaces[s];
    }
  }

  /** vm_mark_shared over a range of sole users is a run of steps, so the machine stays in order. */
  lemma {:induction false} ShareKeepsInv(m: Machine, s: nat, first: nat, end: nat)
    requires Inv(m) && SoleUsers(m, s, first, end) && first <= end
    ensures Inv(SharedTo(m, s, first, end))
    decreases end
  {
    hide Inv, Step, PagesOk;
    if first == end {
      assert ShareRange(m.spaces[s], first, end) == m.spaces[s];
      assert SharedTo(m, s, first, end) == m;
    } else {
      ShareKeepsInv(m, s, first, end - 1);
      ShareOneIsStep(m, s, first, end - 1);
      if end - 1 in m.spaces[s] && !m.spaces[s][end - 1].shared {
        StepKeepsInv(SharedTo(m, s, first, end - 1), MarkShared(s, end - 1, m.spaces[s][end - 1].frame),
                     SharedTo(m, s, first, end));
      }
    }
  }

  /**
   Sharing a private page keeps the machine in order exactly when the page is alone
   on its frame: otherwise another private page would see what is written to it.
   */
  lemma ShareExactly(m: Machine, s: nat, a: nat)
    requires Inv(m) && s in m.spaces && a in m.spaces[s] && !m.spaces[s][a].shared
    ensures m.spaces[s][a].frame in m.frames
    ensures Inv(SharedTo(m, s, a, a + 1)) <==> m.frames[m.spaces[s][a].frame].references == 1
  {
    hide Holders, CountsExact, PagesOk, Common;
    PageIsOk(m, s, a);
    var record, m' := m.spaces[s][a], SharedTo(m, s, a, a + 1);
    var f := record.frame;
    if m.frames[f].references == 1 {
      forall b | b in m.spaces[s] && a <= b < a + 1 ensures b == a {
      }
      ShareKeepsInv(m, s, a, a + 1);
    } else {
      var h := OtherHolder(m, f, PageHolder(s, a));
      OtherIsPrivate(m, f, h);
      assert m'.spaces[s][a].shared && SharedHolder(m', PageHolder(s, a)) && Held(m', PageHolder(s, a)) == Some(f);
      SharedIsCommon(m', PageHolder(s, a));
      if Inv(m') {
        PageIsOk(m', h.space, h.page);
        assert false;
      }
    }
  }

  /** A frame with several references has a second holder. */
  lemma OtherHolder(m: Machine, f: nat, h0: Holder) returns (h: Holder)
    requires CountsExact(m) && f in m.frames && m.frames[f].references != 1 && Held(m, h0) == Some(f)
    ensures h != h0 && Held(m, h) == Some(f)
  {
    hide Held, Holders;
    h := Another(Holders(m, f), h0);
  }

  lemma Another<T>(s: set<T>, x: T) returns (y: T)
    requires x in s && |s| != 1
    ensures y in s && y != x
  {
    var rest := s - {x};
    assert s == rest + {x};
    y :| y in rest;
  }

  /** Holders of a frame that is not common are private pages. */
  lemma OtherIsPrivate(m: Machine, f: nat, h: Holder)
    requires !Common(m, f) && Held(m, h) == Some(f)
    ensures h.PageHolder? && !m.spaces[h.space][h.page].shared
  {
    assert !SharedHolder(m, h);
  }

  /** The event of chunk `i` of a user copy. */
  ghost function ChunkEvent(s: nat, start: nat, bytes: seq<byte>, i: nat): Event
    requires Consumed(start, |bytes|, i) <= Consumed(start, |bytes|, i + 1) <= |bytes|
  {
    var from, to := Consumed(start, |bytes|, i), Consumed(start, |bytes|, i + 1);
    Write(s, AlignDown(start + from), (start + from) % PAGE_SIZE, bytes[from..to])
  }

  /** One chunk of vm_copy_to_user is one write of the machine. */
  lemma ChunkIsStep(m: Machine, s: nat, trace: seq<View>, start: nat, bytes: seq<byte>, i: nat)
    requires s in m.spaces && CopyTrace(trace, start, bytes) && i + 1 < |trace|
    ensures Consumed(start, |bytes|, i) < Consumed(start, |bytes|, i + 1) <= |bytes|
    ensures Step(At(m, s, trace[i]), ChunkEvent(s, start, bytes, i), At(m, s, trace[i + 1]))
  {
    hide ChunkCopied, AlignDown, Consumed;
    var here := trace[i];
    assert CopyStep(trace, start, bytes, i);
    assert At(m, s, trace[i + 1]) == Put(At(m, s, trace[i]), s, trace[i + 1].records, trace[i + 1].frames);
  }

  /** Whatever vm_copy_to_user reports, the machine stays in order. */
  lemma {:induction false} CopyKeepsInv(m: Machine, s: nat, trace: seq<View>, start: nat, bytes: seq<byte>, n: nat)
    requires Inv(m) && s in m.spaces && CopyTrace(trace, start, bytes) && n < |trace|
    requires trace[0] == View(m.spaces[s], m.frames)
    ensures Inv(At(m, s, trace[n]))
  {
    hide Inv, Step, CopyTrace, AlignDown, Consumed;
    if n == 0 {
      assert At(m, s, trace[0]) == m;
    } else {
      CopyKeepsInv(m, s, trace, start, bytes, n - 1);
      ChunkIsStep(m, s, trace, start, bytes, n - 1);
      StepKeepsInv(At(m, s, trace[n - 1]), ChunkEvent(s, start, bytes, n - 1), At(m, s, trace[n]));
    }
  }

  /** The addresses of one page, and only they, read from it. */
  lemma SamePageOnly(a: nat, offset: nat, size: nat, address: nat)
    requires Aligned(a) && offset + size <= PAGE_SIZE
    ensures a + offset <= address < a + offset + size ==> AlignDown(address) == a
    ensures AlignDown(address) == a ==> a <= address < a + PAGE_SIZE
  {
  }

  /** A write into a private page is read back there, in that space, and nowhere else. */
  lemma WriteReads(x: Eager, s: nat, a: nat, offset: nat, bytes: seq<byte>, x': Eager, t: nat, address: nat)
    requires EagerStep(x, Write(s, a, offset, bytes), x') && x.spaces[s][a].Private?
    requires Aligned(a) && offset + |bytes| <= PAGE_SIZE
    ensures ReadEager(x', t, address) ==
      if t == s && a + offset <= address < a + offset + |bytes| then Some(bytes[address - a - offset])
      else ReadEager(x, t, address)
  {
    hide AlignDown, Aligned;
    SamePageOnly(a, offset, |bytes|, address);
    AlignDownAligned(address);
  }

  /** No page of the range is a shared mapping. */
  ghost predicate PrivateRange(records: Records, start: nat, size: nat) {
    forall address: nat :: start <= address < start + size && AlignDown(address) in records ==>
      !records[AlignDown(address)].shared
  }

  /** Making a page private and storing into it changes no page from private to shared. */
  lemma ChunkKeepsPrivate(v: View, a: nat, offset: nat, bytes: seq<byte>, v': View, start: nat, size: nat)
    requires ChunkCopied(v, a, offset, bytes, v') && PrivateRange(v.records, start, size)
    ensures PrivateRange(v'.records, start, size)
  {
    hide AlignDown;
    var spare: nat :| ChunkWritten(v, a, offset, bytes, spare, v');
    var private := Privatized(v, a, spare);
    forall b | b in v'.records ensures b in v.records && v'.records[b].shared == v.records[b].shared {
    }
  }

  lemma {:induction false} CopyKeepsPrivate(trace: seq<View>, start: nat, bytes: seq<byte>, n: nat)
    requires CopyTrace(trace, start, bytes) && n < |trace| && PrivateRange(trace[0].records, start, |bytes|)
    ensures PrivateRange(trace[n].records, start, |bytes|)
  {
    hide PrivateRange, ChunkCopied, AlignDown, Consumed;
    if n > 0 {
      CopyKeepsPrivate(trace, start, bytes, n - 1);
      assert CopyStep(trace, start, bytes, n - 1);
      var from, to := Consumed(start, |bytes|, n - 1), Consumed(start, |bytes|, n);
      ChunkKeepsPrivate(trace[n - 1], AlignDown(start + from), (start + from) % PAGE_SIZE, bytes[from..to], trace[n],
                        start, |bytes|);
    }
  }

  /** A chunk stays inside its page. */
  lemma ChunkInPage(start: nat, size: nat, i: nat)
    requires Consumed(start, size, i) < Consumed(start, size, i + 1) <= size
    ensures var from := start + Consumed(start, size, i);
      && from == AlignDown(from) + from % PAGE_SIZE
      && from % PAGE_SIZE + Consumed(start, size, i + 1) - Consumed(start, size, i) <= PAGE_SIZE
  {
    ConsumedStep(start, size, i);
  }

  /** One chunk, seen by every space at every address. */
  lemma ChunkReads(m: Machine, s: nat, trace: seq<View>, start: nat, bytes: seq<byte>, i: nat, t: nat, address: nat)
    requires s in m.spaces && CopyTrace(trace, start, bytes) && i + 1 < |trace|
    requires Inv(At(m, s, trace[i])) && PrivateRange(trace[i].records, start, |bytes|)
    ensures Inv(At(m, s, trace[i + 1]))
    ensures var from, to := Consumed(start, |bytes|, i), Consumed(start, |bytes|, i + 1);
      && from < to <= |bytes|
      && Read(At(m, s, trace[i + 1]), t, address) ==
         if t == s && start + from <= address < start + to then Some(bytes[address - start])
         else Read(At(m, s, trace[i]), t, address)
  {
    hide Inv, Step, EagerStep, CopyTrace, AlignDown, Consumed, Read, ReadEager, Abs;
    var before, after := At(m, s, trace[i]), At(m, s, trace[i + 1]);
    ChunkIsStep(m, s, trace, start, bytes, i);
    StepRefines(before, ChunkEvent(s, start, bytes, i), after);
    ChunkInPage(start, |bytes|, i);
    var from, to := Consumed(start, |bytes|, i), Consumed(start, |bytes|, i + 1);
    AlignDownAligned(start + from);
    WritesPrivate(before, s, AlignDown(start + from), (start + from) % PAGE_SIZE, bytes[from..to], Abs(after));
    WriteReads(Abs(before), s, AlignDown(start + from), (start + from) % PAGE_SIZE, bytes[from..to], Abs(after), t, address);
    ReadsAgree(before, t, address);
    ReadsAgree(after, t, address);
  }

  /** A page that is no shared mapping is private to the eager machine. */
  lemma WritesPrivate(m: Machine, s: nat, a: nat, offset: nat, bytes: seq<byte>, x': Eager)
    requires EagerStep(Abs(m), Write(s, a, offset, bytes), x')
    requires s in m.spaces && (a in m.spaces[s] ==> !m.spaces[s][a].shared)
    ensures s in Abs(m).spaces && a in Abs(m).spaces[s] && Abs(m).spaces[s][a].Private?
  {
  }

  /**
   vm_copy_to_user into private memory, complete or cut short: the bytes copied
   so far are read back at their addresses in that space, and every other byte
   of every space is what it was.
   */
  lemma {:induction false} CopyReads(
    m: Machine, s: nat, trace: seq<View>, start: nat, bytes: seq<byte>, n: nat, t: nat, address: nat)
    requires Inv(m) && s in m.spaces && CopyTrace(trace, start, bytes) && n < |trace|
    requires trace[0] == View(m.spaces[s], m.frames) && PrivateRange(m.spaces[s], start, |bytes|)
    ensures Inv(At(m, s, trace[n])) && Consumed(start, |bytes|, n) <= |bytes|
    ensures Read(At(m, s, trace[n]), t, address) ==
      if t == s && start <= address < start + Consumed(start, |bytes|, n) then Some(bytes[address - start])
      else Read(m, t, address)
  {
    hide Inv, CopyTrace, AlignDown, Read, PrivateRange, Consumed;
    if n == 0 {
      assert At(m, s, trace[0]) == m;
      StartTrace(trace[0], start, bytes);
    } else {
      CopyReads(m, s, trace, start, bytes, n - 1, t, address);
      CopyKeepsPrivate(trace, start, bytes, n - 1);
      ChunkReads(m, s, trace, start, bytes, n - 1, t, address);
    }
  }

  /** Right after a clone the child reads what the parent reads, and nobody else notices. */
  lemma CloneReads(m: Machine, parent: nat, child: nat, m': Machine, t: nat, address: nat)
    requires Inv(m) && Step(m, Clone(parent, child), m')
    ensures Inv(m')
    ensures Read(m', t, address) == Read(m, if t == child then parent else t, address)
  {
    hide Inv, Abs, Read, AlignDown;
    StepRefines(m, Clone(parent, child), m');
    ReadsAgree(m', t, address);
    ReadsAgree(m, if t == child then parent else t, address);
  }
}
