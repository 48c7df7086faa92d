/**
 Copy-on-write is indistinguishable from an eager copy: every step of the
 copy-on-write machine is, seen through `Abs`, the same step of the eager
 machine, so over every run both let every space read the same bytes.
 */
module CowRefinement {
  import opened VmTypes
  import opened PageOps
  import opened CowMachine
  import opened CowInvariant

  /** Frames present before and after hold the same bytes. */
  ghost predicate DataKept(m: Machine, m': Machine) {
    forall f :: f in m.frames && f in m'.frames ==> m'.frames[f].data == m.frames[f].data
  }

  lemma KeptPage(m: Machine, m': Machine, s: nat, a: nat, t: nat, b: nat)
    requires PagesOk(m) && PagesOk(m') && DataKept(m, m')
    requires s in m.spaces && a in m.spaces[s] && t in m'.spaces && b in m'.spaces[t]
    requires var r, r' := m.spaces[s][a], m'.spaces[t][b];
      r'.frame == r.frame && r'.shared == r.shared && r'.protection == r.protection
    ensures AbsPage(m'.spaces[t][b], m'.frames) == AbsPage(m.spaces[s][a], m.frames)
  {
    hide PagesOk, Common;
    PageIsOk(m, s, a);
    PageIsOk(m', t, b);
  }

  lemma KeptSpace(m: Machine, m': Machine, s: nat)
    requires PagesOk(m) && PagesOk(m') && DataKept(m, m')
    requires s in m.spaces && s in m'.spaces && m'.spaces[s] == m.spaces[s]
    ensures AbsSpace(m'.spaces[s], m'.frames) == AbsSpace(m.spaces[s], m.frames)
  {
    hide PagesOk, AbsPage;
    forall a | a in m.spaces[s]
      ensures AbsPage(m'.spaces[s][a], m'.frames) == AbsPage(m.spaces[s][a], m.frames)
    {
      KeptPage(m, m', s, a, s, a);
    }
  }

  /** A shared object is referenced in the eager view exactly when its frame is common. */
  lemma ReferencedIsCommon(m: Machine, x: Eager, o: nat)
    requires x.spaces == Abs(m).spaces && x.memfds == m.memfds
    ensures Referenced(x, o) <==> Common(m, o)
  {
    if Common(m, o) {
      var h :| SharedHolder(m, h) && Held(m, h) == Some(o);
      match h
      case MemfdHolder(k) => assert k in x.memfds && x.memfds[k] == o;
      case PageHolder(s, a) => assert s in x.spaces && a in x.spaces[s] && x.spaces[s][a].Shared?;
    }
    if Referenced(x, o) {
      if k :| k in x.memfds && x.memfds[k] == o {
        assert SharedHolder(m, MemfdHolder(k)) && Held(m, MemfdHolder(k)) == Some(o);
      } else {
        var s, a :| s in x.spaces && a in x.spaces[s] && x.spaces[s][a] == Shared(x.spaces[s][a].protection, o);
        assert SharedHolder(m, PageHolder(s, a)) && Held(m, PageHolder(s, a)) == Some(o);
      }
    }
  }

  lemma CommonIsLive(m: Machine, f: nat)
    requires Inv(m) && Common(m, f)
    ensures f in m.frames
  {
    hide CountsExact, PagesOk;
    var h :| SharedHolder(m, h) && Held(m, h) == Some(f);
    HeldIsLive(m, h);
  }

  /** After a step that only drops references, the eager garbage collection finds the same objects. */
  lemma CollectMatches(m: Machine, m': Machine, x: Eager)
    requires Inv(m) && Inv(m') && DataKept(m, m')
    requires x.spaces == Abs(m').spaces && x.memfds == m'.memfds && x.objects == Abs(m).objects
    requires forall f: nat :: Common(m', f) ==> Common(m, f)
    ensures Collect(x) == Abs(m')
  {
    hide CountsExact, PagesOk, Common, AbsSpace, Referenced;
    forall o: nat ensures Referenced(x, o) <==> Common(m', o) {
      ReferencedIsCommon(m', x, o);
    }
    forall f: nat | Common(m', f) ensures f in m.frames && f in m'.frames {
      CommonIsLive(m', f);
      CommonIsLive(m, f);
    }
    assert Collect(x).objects == Abs(m').objects;
  }

  /** Only space `s` changed. */
  lemma OneSpace(m: Machine, m': Machine, s: nat)
    requires PagesOk(m) && PagesOk(m') && DataKept(m, m')
    requires s in m'.spaces && m'.spaces == m.spaces[s := m'.spaces[s]]
    ensures Abs(m').spaces == Abs(m).spaces[s := AbsSpace(m'.spaces[s], m'.frames)]
  {
    hide PagesOk, AbsSpace, Common;
    forall t | t in m.spaces && t != s
      ensures AbsSpace(m'.spaces[t], m'.frames) == AbsSpace(m.spaces[t], m.frames)
    {
      KeptSpace(m, m', t);
    }
  }

  /** Only page `a` of space `s` changed. */
  lemma OnePage(m: Machine, m': Machine, s: nat, a: nat)
    requires PagesOk(m) && PagesOk(m') && DataKept(m, m')
    requires s in m.spaces && s in m'.spaces && a in m'.spaces[s]
    requires m'.spaces[s] == m.spaces[s][a := m'.spaces[s][a]]
    ensures AbsSpace(m'.spaces[s], m'.frames) ==
      AbsSpace(m.spaces[s], m.frames)[a := AbsPage(m'.spaces[s][a], m'.frames)]
  {
    hide PagesOk, AbsPage;
    forall b | b in m.spaces[s] && b != a
      ensures AbsPage(m'.spaces[s][b], m'.frames) == AbsPage(m.spaces[s][b], m.frames)
    {
      KeptPage(m, m', s, b, s, b);
    }
  }

  /** Same common frames with the same bytes: the same shared objects. */
  lemma SameObjects(m: Machine, m': Machine)
    requires Inv(m) && Inv(m') && DataKept(m, m')
    requires forall f: nat :: Common(m', f) == Common(m, f)
    ensures Abs(m').objects == Abs(m).objects
  {
    hide CountsExact, PagesOk, Common, AbsSpace;
    forall f: nat | Common(m, f) ensures f in m.frames && f in m'.frames {
      CommonIsLive(m, f);
      CommonIsLive(m', f);
    }
  }

  lemma MapNewRefines(m: Machine, s: nat, a: nat, protection: Protection, f: nat, m': Machine)
    requires Inv(m) && Inv(m') && Step(m, MapNew(s, a, protection, f), m')
    ensures EagerStep(Abs(m), MapNew(s, a, protection, f), Abs(m'))
  {
    hide Holders, CountsExact, PagesOk, Common;
    forall g: nat ensures Common(m', g) == Common(m, g) {
      CommonMoves(m, m', PageHolder(s, a), g);
    }
    OneSpace(m, m', s);
    OnePage(m, m', s, a);
    SameObjects(m, m');
  }

  lemma MapMemfdRefines(m: Machine, s: nat, a: nat, k: Backing, protection: Protection, m': Machine)
    requires Inv(m) && Inv(m') && Step(m, MapMemfd(s, a, k, protection), m')
    ensures EagerStep(Abs(m), MapMemfd(s, a, k, protection), Abs(m'))
  {
    hide Holders, CountsExact, PagesOk, Common;
    SharedIsCommon(m, MemfdHolder(k));
    forall g: nat ensures Common(m', g) == Common(m, g) {
      CommonMoves(m, m', PageHolder(s, a), g);
    }
    OneSpace(m, m', s);
    OnePage(m, m', s, a);
    SameObjects(m, m');
  }

  lemma MarkSharedRefines(m: Machine, s: nat, a: nat, f: nat, m': Machine)
    requires Inv(m) && Inv(m') && Step(m, MarkShared(s, a, f), m')
    ensures EagerStep(Abs(m), MarkShared(s, a, f), Abs(m'))
  {
    hide Holders, CountsExact, PagesOk, Common, AbsSpace;
    PageIsOk(m, s, a);
    SharedIsCommon(m', PageHolder(s, a));
    forall g: nat ensures Common(m', g) == (g == f || Common(m, g)) {
      CommonMoves(m, m', PageHolder(s, a), g);
    }
    OneSpace(m, m', s);
    OnePage(m, m', s, a);
    SpacePage(m, s, a);
    assert Abs(m').objects == Abs(m).objects[f := m.frames[f].data];
  }

  lemma SpacePage(m: Machine, s: nat, a: nat)
    requires s in m.spaces && a in m.spaces[s]
    ensures s in Abs(m).spaces && a in Abs(m).spaces[s] && Abs(m).spaces[s][a] == AbsPage(m.spaces[s][a], m.frames)
  {
  }

  lemma UnmapRefines(m: Machine, s: nat, a: nat, m': Machine)
    requires Inv(m) && Inv(m') && Step(m, Unmap(s, a), m')
    ensures EagerStep(Abs(m), Unmap(s, a), Abs(m'))
  {
    hide Holders, CountsExact, PagesOk, Common, AbsSpace;
    forall g: nat ensures Common(m', g) ==> Common(m, g) {
      CommonMoves(m, m', PageHolder(s, a), g);
    }
    OneSpace(m, m', s);
    OneRemoved(m, m', s, a);
    SpacePage(m, s, a);
    var x := Abs(m);
    CollectMatches(m, m', x.(spaces := x.spaces[s := x.spaces[s] - {a}]));
  }

  lemma OneRemoved(m: Machine, m': Machine, s: nat, a: nat)
    requires PagesOk(m) && PagesOk(m') && DataKept(m, m')
    requires s in m.spaces && s in m'.spaces && m'.spaces[s] == m.spaces[s] - {a}
    ensures AbsSpace(m'.spaces[s], m'.frames) == AbsSpace(m.spaces[s], m.frames) - {a}
  {
    hide PagesOk, AbsPage;
    forall b | b in m'.spaces[s] ensures AbsPage(m'.spaces[s][b], m'.frames) == AbsPage(m.spaces[s][b], m.frames) {
      KeptPage(m, m', s, b, s, b);
    }
  }

  /** Changes of memfds and of the frames pages do not show leave every space as it reads. */
  lemma SameSpaces(m: Machine, m': Machine)
    requires PagesOk(m) && PagesOk(m') && DataKept(m, m') && m'.spaces == m.spaces
    ensures Abs(m').spaces == Abs(m).spaces
  {
    hide PagesOk, DataKept, AbsSpace;
    forall t | t in m.spaces ensures AbsSpace(m'.spaces[t], m'.frames) == AbsSpace(m.spaces[t], m.frames) {
      KeptSpace(m, m', t);
    }
  }

  /** Dropping a memfd makes no frame common. */
  lemma DropCommon(m: Machine, k: Backing, m': Machine)
    requires m'.spaces == m.spaces && m'.memfds == m.memfds - {k}
    ensures forall g: nat :: Common(m', g) ==> Common(m, g)
  {
    hide Common;
    forall g: nat ensures Common(m', g) ==> Common(m, g) {
      CommonMoves(m, m', MemfdHolder(k), g);
    }
  }

  lemma MemfdPageRefines(m: Machine, k: Backing, f: nat, m': Machine)
    requires Inv(m) && Inv(m') && Step(m, MemfdPage(k, f), m')
    ensures EagerStep(Abs(m), MemfdPage(k, f), Abs(m'))
  {
    hide Holders, CountsExact, PagesOk, Common, AbsSpace;
    SharedIsCommon(m', MemfdHolder(k));
    forall g: nat ensures Common(m', g) == (g == f || Common(m, g)) {
      CommonMoves(m, m', MemfdHolder(k), g);
    }
    SameSpaces(m, m');
    assert Abs(m').objects == Abs(m).objects[f := ZeroPage()];
  }

  lemma MemfdDropRefines(m: Machine, k: Backing, m': Machine)
    requires Inv(m) && Inv(m') && Step(m, MemfdDrop(k), m')
    ensures EagerStep(Abs(m), MemfdDrop(k), Abs(m'))
  {
    hide Holders, CountsExact, PagesOk, Common, AbsSpace, Collect;
    DropCommon(m, k, m');
    SameSpaces(m, m');
    CollectMatches(m, m', Abs(m).(memfds := m.memfds - {k}));
  }

  /** Giving a page its own copy of its frame is invisible. */
  lemma PrivatizedInvisible(m: Machine, s: nat, a: nat, spare: nat, m': Machine)
    requires Inv(m) && Inv(m') && s in m.spaces && HasFrame(View(m.spaces[s], m.frames), a)
    requires s in m'.spaces && MadePrivate(m.spaces[s], m.frames, a, spare, m'.spaces[s], m'.frames)
    requires m' == Put(m, s, m'.spaces[s], m'.frames)
    ensures Abs(m') == Abs(m)
  {
    hide Holders, CountsExact, PagesOk, Common, AbsSpace;
    if m.spaces[s][a].copyOnWrite {
      PageIsOk(m, s, a);
      forall g: nat ensures Common(m', g) == Common(m, g) {
        CommonMoves(m, m', PageHolder(s, a), g);
      }
      OneSpace(m, m', s);
      OnePage(m, m', s, a);
      SpacePage(m, s, a);
      SameObjects(m, m');
      assert AbsPage(m'.spaces[s][a], m'.frames) == AbsPage(m.spaces[s][a], m.frames);
      SamePageAgain(AbsSpace(m.spaces[s], m.frames), a, AbsPage(m.spaces[s][a], m.frames));
      assert Abs(m').spaces == Abs(m).spaces;
    } else {
      assert m' == m;
    }
  }

  lemma SamePageAgain(pages: map<nat, EagerPage>, a: nat, page: EagerPage)
    requires a in pages && pages[a] == page
    ensures pages[a := page] == pages
  {
  }

  /** Private pages on other frames keep their bytes when one frame is written. */
  lemma StoredElsewhere(m: Machine, f: nat, offset: nat, bytes: seq<byte>, s: nat, a: nat)
    requires f in m.frames && offset + |bytes| <= |m.frames[f].data|
    requires s in m.spaces && a in m.spaces[s] && (m.spaces[s][a].shared || m.spaces[s][a].frame != f)
    ensures AbsPage(m.spaces[s][a], Stored(m.frames, f, offset, bytes)) == AbsPage(m.spaces[s][a], m.frames)
  {
  }

  ghost function StoredIn(m: Machine, f: nat, offset: nat, bytes: seq<byte>): Machine
    requires f in m.frames && offset + |bytes| <= |m.frames[f].data|
  {
    m.(frames := Stored(m.frames, f, offset, bytes))
  }

  /** A store through a common frame changes one shared object and no private page. */
  lemma StoredCommon(m: Machine, f: nat, offset: nat, bytes: seq<byte>)
    requires Inv(m) && Common(m, f) && f in m.frames && offset + |bytes| <= |m.frames[f].data|
    ensures f in Abs(m).objects && Abs(m).objects[f] == m.frames[f].data
    ensures Abs(StoredIn(m, f, offset, bytes)) ==
      Abs(m).(objects := Abs(m).objects[f := Splice(m.frames[f].data, offset, bytes)])
  {
    hide Holders, CountsExact, PagesOk, Common, Splice;
    var m' := StoredIn(m, f, offset, bytes);
    forall g: nat ensures Common(m', g) == Common(m, g) {
      SameHolders(m, m', g);
    }
    forall s | s in m.spaces ensures AbsSpace(m.spaces[s], m'.frames) == AbsSpace(m.spaces[s], m.frames) {
      forall a | a in m.spaces[s] ensures AbsPage(m.spaces[s][a], m'.frames) == AbsPage(m.spaces[s][a], m.frames) {
        PageIsOk(m, s, a);
        StoredElsewhere(m, f, offset, bytes, s, a);
      }
    }
    assert Abs(m').objects == Abs(m).objects[f := Splice(m.frames[f].data, offset, bytes)];
  }

  /** A store through a frame with a single, private user changes that page only. */
  lemma StoredPrivate(m: Machine, s: nat, a: nat, offset: nat, bytes: seq<byte>)
    requires Inv(m) && s in m.spaces && a in m.spaces[s] && !m.spaces[s][a].shared
    requires var f := m.spaces[s][a].frame;
      f in m.frames && m.frames[f].references == 1 && offset + |bytes| <= |m.frames[f].data|
    ensures s in Abs(m).spaces
    ensures var f := m.spaces[s][a].frame;
      Abs(StoredIn(m, f, offset, bytes)) ==
      PutPage(Abs(m), s, a, Private(m.spaces[s][a].protection, Splice(m.frames[f].data, offset, bytes)))
  {
    hide Holders, CountsExact, PagesOk, Common, Splice;
    var f := m.spaces[s][a].frame;
    var m' := StoredIn(m, f, offset, bytes);
    PageIsOk(m, s, a);
    forall g: nat ensures Common(m', g) == Common(m, g) {
      SameHolders(m, m', g);
    }
    forall t, b | t in m.spaces && b in m.spaces[t] && (t != s || b != a)
      ensures AbsPage(m.spaces[t][b], m'.frames) == AbsPage(m.spaces[t][b], m.frames)
    {
      if m.spaces[t][b].frame == f {
        SoleHolder(m, f, PageHolder(s, a), PageHolder(t, b));
        assert false;
      }
      StoredElsewhere(m, f, offset, bytes, t, b);
    }
    forall t | t in m.spaces && t != s
      ensures AbsSpace(m.spaces[t], m'.frames) == AbsSpace(m.spaces[t], m.frames)
    {
    }
    var page := Private(m.spaces[s][a].protection, Splice(m.frames[f].data, offset, bytes));
    assert AbsSpace(m.spaces[s], m'.frames) == AbsSpace(m.spaces[s], m.frames)[a := page];
    assert Abs(m').objects == Abs(m).objects;
  }

  lemma WriteRefines(m: Machine, s: nat, a: nat, offset: nat, bytes: seq<byte>, m': Machine)
    requires Inv(m) && Step(m, Write(s, a, offset, bytes), m')
    ensures EagerStep(Abs(m), Write(s, a, offset, bytes), Abs(m'))
  {
    hide Holders, CountsExact, PagesOk, Common, AbsSpace;
    var v := View(m.spaces[s], m.frames);
    var spare: nat :| ChunkWritten(v, a, offset, bytes, spare, View(m'.spaces[s], m'.frames));
    var p := Privatized(v, a, spare);
    var mid := Put(m, s, p.records, p.frames);
    PrivatizedKeepsInv(m, s, a, spare, mid);
    PrivatizedInvisible(m, s, a, spare, mid);
    SpacePage(mid, s, a);
    PageIsOk(mid, s, a);
    var f := mid.spaces[s][a].frame;
    assert m' == StoredIn(mid, f, offset, bytes);
    if mid.spaces[s][a].shared {
      SharedIsCommon(mid, PageHolder(s, a));
      StoredCommon(mid, f, offset, bytes);
    } else {
      StoredPrivate(mid, s, a, offset, bytes);
    }
  }

  lemma CowFaultRefines(m: Machine, s: nat, a: nat, m': Machine)
    requires Inv(m) && Inv(m') && Step(m, CowFault(s, a), m')
    ensures EagerStep(Abs(m), CowFault(s, a), Abs(m'))
  {
    hide Holders, CountsExact, PagesOk, Common, Abs;
    var spare: nat :| MadePrivate(m.spaces[s], m.frames, a, spare, m'.spaces[s], m'.frames);
    PrivatizedInvisible(m, s, a, spare, m');
  }

  lemma MemfdWriteRefines(m: Machine, k: Backing, offset: nat, bytes: seq<byte>, m': Machine)
    requires Inv(m) && Step(m, MemfdWrite(k, offset, bytes), m')
    ensures EagerStep(Abs(m), MemfdWrite(k, offset, bytes), Abs(m'))
  {
    hide Holders, CountsExact, PagesOk, Common, AbsSpace;
    SharedIsCommon(m, MemfdHolder(k));
    StoredCommon(m, m.memfds[k], offset, bytes);
  }

  lemma NewSpaceRefines(m: Machine, s: nat, m': Machine)
    requires Inv(m) && Inv(m') && Step(m, NewSpace(s), m')
    ensures EagerStep(Abs(m), NewSpace(s), Abs(m'))
  {
    hide Holders, CountsExact, PagesOk, Common, AbsPage;
    forall g: nat ensures Common(m', g) == Common(m, g) {
      CommonMoves(m, m', PageHolder(s, 0), g);
    }
    OneSpace(m, m', s);
    SameObjects(m, m');
  }

  /** Only protections and copy-on-write bits of space `s` changed. */
  lemma RewriteRefines(m: Machine, s: nat, m': Machine)
    requires Inv(m) && Inv(m') && s in m.spaces && s in m'.spaces && m'.spaces[s].Keys == m.spaces[s].Keys
    requires m' == Put(m, s, m'.spaces[s], m.frames)
    requires forall a :: a in m.spaces[s] ==>
      m'.spaces[s][a].frame == m.spaces[s][a].frame && m'.spaces[s][a].shared == m.spaces[s][a].shared
    ensures Abs(m') == Abs(m).(spaces := Abs(m).spaces[s := AbsSpace(m'.spaces[s], m'.frames)])
  {
    hide Holders, CountsExact, PagesOk, Common, AbsSpace;
    forall g: nat ensures Common(m', g) == Common(m, g) {
      RewriteHolders(m, s, m'.spaces[s], g);
    }
    OneSpace(m, m', s);
    SameObjects(m, m');
  }

  lemma ProtectedSpace(records: Records, frames: Frames, first: nat, end: nat, protection: Protection)
    requires Backed(records, frames)
    ensures var pages := AbsSpace(records, frames);
      AbsSpace(ProtectRange(records, frames, first, end, protection), frames) ==
      map a | a in pages :: if first <= a < end then pages[a].(protection := protection) else pages[a]
  {
  }

  lemma ProtectRefines(m: Machine, s: nat, first: nat, end: nat, protection: Protection, m': Machine)
    requires Inv(m) && Inv(m') && Step(m, Protect(s, first, end, protection), m')
    ensures EagerStep(Abs(m), Protect(s, first, end, protection), Abs(m'))
  {
    hide Holders, CountsExact, PagesOk, Common, AbsSpace;
    RewriteRefines(m, s, m');
    ProtectedSpace(m.spaces[s], m.frames, first, end, protection);
  }

  lemma CloneFailedRefines(m: Machine, s: nat, m': Machine)
    requires Inv(m) && Inv(m') && Step(m, CloneFailed(s), m')
    ensures EagerStep(Abs(m), CloneFailed(s), Abs(m'))
  {
    hide Holders, CountsExact, PagesOk, Common;
    RewriteRefines(m, s, m');
    assert AbsSpace(m'.spaces[s], m'.frames) == AbsSpace(m.spaces[s], m.frames);
    assert Abs(m').spaces == Abs(m).spaces;
  }

  /** Every page of the cloned machine reads like the page it came from. */
  lemma CloneSpace(m: Machine, parent: nat, child: nat, m': Machine, s: nat)
    requires PagesOk(m) && PagesOk(m') && Step(m, Clone(parent, child), m') && s in m'.spaces
    ensures var origin := if s == child then parent else s;
      origin in m.spaces && AbsSpace(m'.spaces[s], m'.frames) == AbsSpace(m.spaces[origin], m.frames)
  {
    hide PagesOk, AbsPage, Users;
    var origin := if s == child then parent else s;
    forall a | a in m'.spaces[s]
      ensures AbsPage(m'.spaces[s][a], m'.frames) == AbsPage(m.spaces[origin][a], m.frames)
    {
      KeptPage(m, m', origin, a, s, a);
    }
  }

  /** The clone sees an exact copy of the parent, and the parent sees no change. */
  lemma CloneRefines(m: Machine, parent: nat, child: nat, m': Machine)
    requires Inv(m) && Inv(m') && Step(m, Clone(parent, child), m')
    ensures EagerStep(Abs(m), Clone(parent, child), Abs(m'))
  {
    hide Holders, CountsExact, PagesOk, Common, AbsSpace, Users;
    forall g: nat ensures Common(m', g) == Common(m, g) {
      CloneHolders(m, parent, child, m', g);
    }
    CloneSpaces(m, parent, child, m');
    SameObjects(m, m');
  }

  lemma CloneSpaces(m: Machine, parent: nat, child: nat, m': Machine)
    requires PagesOk(m) && PagesOk(m') && Step(m, Clone(parent, child), m')
    ensures parent in Abs(m).spaces && child !in Abs(m).spaces
    ensures Abs(m').spaces == Abs(m).spaces[child := Abs(m).spaces[parent]]
  {
    hide PagesOk, Common, AbsSpace, Users;
    forall s | s in m'.spaces
      ensures var origin := if s == child then parent else s;
        origin in m.spaces && AbsSpace(m'.spaces[s], m'.frames) == AbsSpace(m.spaces[origin], m.frames)
    {
      CloneSpace(m, parent, child, m', s);
    }
  }

  lemma DestroyRefines(m: Machine, s: nat, m': Machine)
    requires Inv(m) && Inv(m') && Step(m, Destroy(s), m')
    ensures EagerStep(Abs(m), Destroy(s), Abs(m'))
  {
    hide Holders, CountsExact, PagesOk, Common, AbsSpace, Users;
    forall g: nat ensures Common(m', g) ==> Common(m, g) {
      DestroyHolders(m, s, m', g);
    }
    forall t | t in m'.spaces ensures AbsSpace(m'.spaces[t], m'.frames) == AbsSpace(m.spaces[t], m.frames) {
      KeptSpace(m, m', t);
    }
    var x := Abs(m);
    assert Abs(m').spaces == x.spaces - {s};
    CollectMatches(m, m', x.(spaces := x.spaces - {s}));
  }

  /** Seen through `Abs`, every step is the same step of the eager machine. */
  lemma StepRefines(m: Machine, e: Event, m': Machine)
    requires Inv(m) && Step(m, e, m')
    ensures Inv(m') && EagerStep(Abs(m), e, Abs(m'))
  {
    hide Inv, Step, Abs, EagerStep;
    StepKeepsInv(m, e, m');
    match e
    case NewSpace(s) => NewSpaceRefines(m, s, m');
    case MapNew(s, a, protection, f) => MapNewRefines(m, s, a, protection, f, m');
    case MapMemfd(s, a, k, protection) => MapMemfdRefines(m, s, a, k, protection, m');
    case Protect(s, first, end, protection) => ProtectRefines(m, s, first, end, protection, m');
    case MarkShared(s, a, f) => MarkSharedRefines(m, s, a, f, m');
    case Unmap(s, a) => UnmapRefines(m, s, a, m');
    case Clone(parent, child) => CloneRefines(m, parent, child, m');
    case CloneFailed(parent) => CloneFailedRefines(m, parent, m');
    case Write(s, a, offset, bytes) => WriteRefines(m, s, a, offset, bytes, m');
    case CowFault(s, a) => CowFaultRefines(m, s, a, m');
    case Destroy(s) => DestroyRefines(m, s, m');
    case MemfdPage(k, f) => MemfdPageRefines(m, k, f, m');
    case MemfdWrite(k, offset, bytes) => MemfdWriteRefines(m, k, offset, bytes, m');
    case MemfdDrop(k) => MemfdDropRefines(m, k, m');
  }

  /** A run: states and the events between them, from the empty machine. */
  ghost predicate Run(states: seq<Machine>, events: seq<Event>) {
    && |states| == |events| + 1 && states[0] == EMPTY
    && forall i: nat :: i < |events| ==> Step(states[i], events[i], states[i + 1])
  }

  lemma EmptyInv()
    ensures Inv(EMPTY)
  {
  }

  lemma {:induction false} RunInv(states: seq<Machine>, events: seq<Event>, n: nat)
    requires Run(states, events) && n < |states|
    ensures Inv(states[n])
  {
    hide Inv, Step;
    if n == 0 {
      EmptyInv();
    } else {
      RunInv(states, events, n - 1);
      StepKeepsInv(states[n - 1], events[n - 1], states[n]);
    }
  }

  /** What every run of the eager machine along the same events looks like. */
  ghost predicate EagerRun(states: seq<Eager>, events: seq<Event>) {
    && |states| == |events| + 1 && states[0] == Eager(map[], map[], map[])
    && forall i: nat :: i < |events| ==> EagerStep(states[i], events[i], states[i + 1])
  }

  /**
   Over every run, copy-on-write is an eager copy: the abstract states form a
   run of the eager machine over the same events, and at every moment every
   space reads the same byte at every address in both.
   */
  lemma RunRefines(states: seq<Machine>, events: seq<Event>)
    requires Run(states, events)
    ensures EagerRun(seq(|states|, i requires 0 <= i < |states| => Abs(states[i])), events)
    ensures forall n: nat, s: nat, address: nat :: n < |states| ==>
      Inv(states[n]) && Read(states[n], s, address) == ReadEager(Abs(states[n]), s, address)
  {
    hide Inv, Step, EagerStep, Read, ReadEager;
    forall n: nat | n < |states| ensures Inv(states[n]) {
      RunInv(states, events, n);
    }
    forall n: nat | n < |events| ensures EagerStep(Abs(states[n]), events[n], Abs(states[n + 1])) {
      StepRefines(states[n], events[n], states[n + 1]);
    }
    EmptyAbs();
    forall n: nat, s: nat, address: nat | n < |states|
      ensures Read(states[n], s, address) == ReadEager(Abs(states[n]), s, address)
    {
      ReadsAgree(states[n], s, address);
    }
  }

  lemma EmptyAbs()
    ensures Abs(EMPTY) == Eager(map[], map[], map[])
  {
    var x := Abs(EMPTY);
    assert x.spaces == map[] && x.objects == map[];
  }

  /**
   A store that the page table lets through, on a page that is writable and not
   copy-on-write, is a `Write` of the machine: no fault is needed first.
   */
  lemma HardwareStore(m: Machine, s: nat, a: nat, offset: nat, bytes: seq<byte>)
    requires Inv(m) && s in m.spaces && a in m.spaces[s] && offset + |bytes| <= PAGE_SIZE
    requires m.spaces[s][a].protection.write && !m.spaces[s][a].copyOnWrite
    ensures m.spaces[s][a].frame in m.frames && |m.frames[m.spaces[s][a].frame].data| == PAGE_SIZE
    ensures Step(m, Write(s, a, offset, bytes), StoredIn(m, m.spaces[s][a].frame, offset, bytes))
  {
    hide Holders, CountsExact, PagesOk, Common;
    PageIsOk(m, s, a);
    var f := m.spaces[s][a].frame;
    var m' := StoredIn(m, f, offset, bytes);
    assert ChunkWritten(View(m.spaces[s], m.frames), a, offset, bytes, 0, View(m'.spaces[s], m'.frames));
  }
}
