/** Every step of the copy-on-write machine keeps its invariant: exact counts, sound copy-on-write bits. */
module CowInvariant {
  import opened VmTypes
  import opened PageOps
  import opened CowMachine

  /** Nothing but holder `h0` changed hands. */
  ghost predicate OthersKeep(m: Machine, m': Machine, h0: Holder) {
    && (forall h :: h != h0 ==> Held(m', h) == Held(m, h))
    && (forall h :: h != h0 ==> SharedHolder(m', h) == SharedHolder(m, h))
  }

  ghost function One(b: bool): int { if b then 1 else 0 }

  /** How moving one holder changes every frame's number of holders. */
  lemma HolderMoves(m: Machine, m': Machine, h0: Holder, f: nat)
    requires OthersKeep(m, m', h0)
    ensures |Holders(m', f)| == |Holders(m, f)| - One(Held(m, h0) == Some(f)) + One(Held(m', h0) == Some(f))
  {
    hide Holders, Held, SharedHolder;
    forall h | h != h0 ensures h in Holders(m', f) <==> h in Holders(m, f) {
    }
    CardMove(Holders(m, f), Holders(m', f), h0);
  }

  lemma CardMove<T>(before: set<T>, after: set<T>, x: T)
    requires forall y :: y != x ==> (y in after <==> y in before)
    ensures |after| == |before| - One(x in before) + One(x in after)
  {
    assert before - {x} == after - {x};
    assert x in before ==> before == before - {x} + {x};
    assert x in after ==> after == after - {x} + {x};
    assert x !in before ==> before == before - {x};
    assert x !in after ==> after == after - {x};
  }

  lemma CommonMoves(m: Machine, m': Machine, h0: Holder, f: nat)
    requires OthersKeep(m, m', h0)
    ensures Common(m, f) && !(SharedHolder(m, h0) && Held(m, h0) == Some(f)) ==> Common(m', f)
    ensures Common(m', f) && !(SharedHolder(m', h0) && Held(m', h0) == Some(f)) ==> Common(m, f)
  {
    if Common(m, f) && !(SharedHolder(m, h0) && Held(m, h0) == Some(f)) {
      var h :| SharedHolder(m, h) && Held(m, h) == Some(f);
      assert SharedHolder(m', h) && Held(m', h) == Some(f);
    }
    if Common(m', f) && !(SharedHolder(m', h0) && Held(m', h0) == Some(f)) {
      var h :| SharedHolder(m', h) && Held(m', h) == Some(f);
      assert SharedHolder(m, h) && Held(m, h) == Some(f);
    }
  }

  /** A frame with one reference has one holder. */
  lemma SoleHolder(m: Machine, f: nat, h1: Holder, h2: Holder)
    requires CountsExact(m) && f in m.frames && m.frames[f].references == 1
    requires Held(m, h1) == Some(f) && Held(m, h2) == Some(f)
    ensures h1 == h2
  {
    hide Holders;
    var pair := {h1, h2};
    assert pair <= Holders(m, f);
    SubsetCount(pair, Holders(m, f));
  }

  lemma NoHolders(m: Machine, f: nat)
    requires Inv(m) && f !in m.frames
    ensures Holders(m, f) == {} && !Common(m, f)
  {
    hide Holders, CountsExact, PagesOk, Common;
    forall h ensures Held(m, h) != Some(f) {
      if Held(m, h).Some? {
        HeldIsLive(m, h);
      }
    }
    CommonIsHeld(m, f);
  }

  lemma CommonIsHeld(m: Machine, f: nat)
    ensures Common(m, f) ==> exists h :: Held(m, h) == Some(f)
  {
  }

  ghost function Count(frames: Frames, f: nat): nat {
    if f in frames then frames[f].references else 0
  }

  /** The frame table follows the one holder that moved. */
  ghost predicate FramesFollow(m: Machine, m': Machine, h0: Holder) {
    && (forall f: nat :: Count(m'.frames, f) ==
          Count(m.frames, f) - One(Held(m, h0) == Some(f)) + One(Held(m', h0) == Some(f)))
    && FramesOk(m'.frames)
  }

  /** The frame a moved holder arrives at is new, common already, or the one it held. */
  ghost predicate Joins(m: Machine, m': Machine, h0: Holder) {
    forall f: nat :: Held(m', h0) == Some(f) ==>
      || f !in m.frames || Common(m, f)
      || (Held(m, h0) == Some(f) && (SharedHolder(m', h0) ==> m.frames[f].references == 1))
  }

  ghost predicate NewPageOk(m': Machine, h0: Holder) {
    h0.PageHolder? && h0.space in m'.spaces && h0.page in m'.spaces[h0.space] ==>
      PageOk(m', m'.spaces[h0.space][h0.page])
  }

  ghost predicate PointStep(m: Machine, m': Machine, h0: Holder) {
    && OthersKeep(m, m', h0) && FramesFollow(m, m', h0) && Joins(m, m', h0) && NewPageOk(m', h0)
    && PagesKeep(m, m', h0)
  }

  /** Every page but the moved one has its record. */
  ghost predicate PagesKeep(m: Machine, m': Machine, h0: Holder) {
    forall s, a :: s in m'.spaces && a in m'.spaces[s] && PageHolder(s, a) != h0 ==>
      s in m.spaces && a in m.spaces[s] && m'.spaces[s][a] == m.spaces[s][a]
  }

  /** Changing one record of one space moves at most one holder. */
  lemma PutMovesOne(m: Machine, s: nat, a: nat, m': Machine)
    requires s in m.spaces && s in m'.spaces && m' == Put(m, s, m'.spaces[s], m'.frames)
    requires m'.spaces[s] - {a} == m.spaces[s] - {a}
    ensures OthersKeep(m, m', PageHolder(s, a)) && PagesKeep(m, m', PageHolder(s, a))
  {
    forall b | b != a ensures b in m'.spaces[s] <==> b in m.spaces[s]
      ensures b in m.spaces[s] ==> m'.spaces[s][b] == m.spaces[s][b]
    {
      assert b in m'.spaces[s] - {a} <==> b in m'.spaces[s];
      assert b in m.spaces[s] - {a} <==> b in m.spaces[s];
      if b in m.spaces[s] {
        assert (m'.spaces[s] - {a})[b] == (m.spaces[s] - {a})[b];
      }
    }
  }

  lemma CountIsHolders(m: Machine, f: nat)
    requires Inv(m)
    ensures Count(m.frames, f) == |Holders(m, f)|
  {
    hide Holders, PagesOk;
    if f !in m.frames {
      NoHolders(m, f);
    }
  }

  lemma PointCounts(m: Machine, m': Machine, h0: Holder)
    requires Inv(m) && OthersKeep(m, m', h0) && FramesFollow(m, m', h0)
    ensures CountsExact(m') && FramesOk(m'.frames)
    ensures forall h, f: nat :: Held(m', h) == Some(f) ==> f in m'.frames
  {
    hide Holders, PagesOk, OthersKeep, Held, SharedHolder;
    forall f: nat ensures Count(m'.frames, f) == |Holders(m', f)| {
      CountIsHolders(m, f);
      HolderMoves(m, m', h0, f);
    }
    forall h, f: nat | Held(m', h) == Some(f) ensures f in m'.frames {
      assert h in Holders(m', f);
      assert Count(m'.frames, f) > 0;
    }
  }

  lemma PointOtherPage(m: Machine, m': Machine, h0: Holder, s: nat, a: nat)
    requires Inv(m) && OthersKeep(m, m', h0) && FramesFollow(m, m', h0) && Joins(m, m', h0)
    requires s in m'.spaces && a in m'.spaces[s] && PageHolder(s, a) != h0
    requires s in m.spaces && a in m.spaces[s] && m'.spaces[s][a] == m.spaces[s][a]
    requires m'.spaces[s][a].frame in m'.frames
    ensures PageOk(m', m'.spaces[s][a])
  {
    hide Holders, PagesOk, OthersKeep, CountsExact, Common;
    var record, h := m.spaces[s][a], PageHolder(s, a);
    var f := record.frame;
    PageIsOk(m, s, a);
    CommonMoves(m, m', h0, f);
    assert Held(m, h) == Some(f);
    if m.frames[f].references == 1 && Held(m, h0) == Some(f) {
      SoleHolder(m, f, h, h0);
      assert false;
    }
    assert Count(m'.frames, f) == Count(m.frames, f) - One(Held(m, h0) == Some(f)) + One(Held(m', h0) == Some(f));
  }

  /** Moving one holder, with the frame table following, keeps the invariant. */
  lemma PointKeepsInv(m: Machine, m': Machine, h0: Holder)
    requires Inv(m) && PointStep(m, m', h0)
    ensures Inv(m')
  {
    hide Holders, CountsExact, OthersKeep, FramesFollow, Joins, PageOk;
    PointCounts(m, m', h0);
    forall k | k in m'.memfds ensures m'.memfds[k] in m'.frames {
      assert Held(m', MemfdHolder(k)) == Some(m'.memfds[k]);
    }
    forall s, a | s in m'.spaces && a in m'.spaces[s] ensures PageOk(m', m'.spaces[s][a]) {
      assert Held(m', PageHolder(s, a)) == Some(m'.spaces[s][a].frame);
      if PageHolder(s, a) != h0 {
        PointOtherPage(m, m', h0, s, a);
      }
    }
  }

  lemma MapNewKeeps(m: Machine, s: nat, a: nat, protection: Protection, f: nat, m': Machine)
    requires Inv(m) && Step(m, MapNew(s, a, protection, f), m')
    ensures Inv(m')
  {
    hide Holders, CountsExact, PagesOk, Common, OthersKeep, PagesKeep;
    var h0 := PageHolder(s, a);
    assert m'.spaces[s] - {a} == m.spaces[s] - {a};
    PutMovesOne(m, s, a, m');
    NoHolders(m, f);
    CommonMoves(m, m', h0, f);
    PointKeepsInv(m, m', h0);
  }

  lemma MapMemfdKeeps(m: Machine, s: nat, a: nat, k: Backing, protection: Protection, m': Machine)
    requires Inv(m) && Step(m, MapMemfd(s, a, k, protection), m')
    ensures Inv(m')
  {
    hide Holders, CountsExact, PagesOk, Common, OthersKeep, PagesKeep;
    assert m'.spaces[s] - {a} == m.spaces[s] - {a};
    PutMovesOne(m, s, a, m');
    SharedIsCommon(m, MemfdHolder(k));
    PointKeepsInv(m, m', PageHolder(s, a));
  }

  lemma MarkSharedKeeps(m: Machine, s: nat, a: nat, f: nat, m': Machine)
    requires Inv(m) && Step(m, MarkShared(s, a, f), m')
    ensures Inv(m')
  {
    hide Holders, CountsExact, PagesOk, Common, OthersKeep, PagesKeep;
    assert m'.spaces[s] - {a} == m.spaces[s] - {a};
    PutMovesOne(m, s, a, m');
    PointKeepsInv(m, m', PageHolder(s, a));
  }

  lemma UnmapKeeps(m: Machine, s: nat, a: nat, m': Machine)
    requires Inv(m) && Step(m, Unmap(s, a), m')
    ensures Inv(m')
  {
    hide Holders, CountsExact, PagesOk, Common, OthersKeep, PagesKeep;
    assert m'.spaces[s] - {a} == m.spaces[s] - {a};
    PutMovesOne(m, s, a, m');
    PointKeepsInv(m, m', PageHolder(s, a));
  }

  /** A private page that may be written has become the sole user of its frame. */
  lemma PrivatizedKeepsInv(m: Machine, s: nat, a: nat, spare: nat, m': Machine)
    requires Inv(m) && s in m.spaces && HasFrame(View(m.spaces[s], m.frames), a)
    requires s in m'.spaces && MadePrivate(m.spaces[s], m.frames, a, spare, m'.spaces[s], m'.frames)
    requires m' == Put(m, s, m'.spaces[s], m'.frames)
    ensures Inv(m') && a in m'.spaces[s] && !m'.spaces[s][a].copyOnWrite
  {
    hide Holders, CountsExact, PagesOk, Common, OthersKeep, PagesKeep;
    var h0 := PageHolder(s, a);
    PageIsOk(m, s, a);
    var record := m.spaces[s][a];
    if record.copyOnWrite {
      if m.frames[record.frame].references > 1 {
        NoHolders(m, spare);
      }
      assert m'.spaces[s] - {a} == m.spaces[s] - {a};
      PutMovesOne(m, s, a, m');
      CommonMoves(m, m', h0, record.frame);
      CommonMoves(m, m', h0, spare);
      PointKeepsInv(m, m', h0);
    } else {
      assert m' == m;
    }
  }

  /** Writing through a frame changes no count and no sharing. */
  lemma StoredKeepsInv(m: Machine, f: nat, offset: nat, bytes: seq<byte>)
    requires Inv(m) && f in m.frames && offset + |bytes| <= |m.frames[f].data|
    ensures Inv(m.(frames := Stored(m.frames, f, offset, bytes)))
  {
    hide Holders, CountsExact, PagesOk, Common;
    var m' := m.(frames := Stored(m.frames, f, offset, bytes));
    forall g ensures Holders(m', g) == Holders(m, g) && Common(m', g) == Common(m, g) {
      SameHolders(m, m', g);
    }
    SameCounts(m, m');
    SamePages(m, m');
  }

  lemma SameHolders(m: Machine, m': Machine, f: nat)
    requires m'.spaces == m.spaces && m'.memfds == m.memfds
    ensures Holders(m', f) == Holders(m, f) && Common(m', f) == Common(m, f)
  {
    forall h ensures Held(m', h) == Held(m, h) && SharedHolder(m', h) == SharedHolder(m, h) {
    }
  }

  lemma SameCounts(m: Machine, m': Machine)
    requires CountsExact(m) && m'.frames.Keys == m.frames.Keys
    requires forall f :: f in m.frames ==> m'.frames[f].references == m.frames[f].references
    requires forall f :: Holders(m', f) == Holders(m, f)
    ensures CountsExact(m')
  {
  }

  lemma SamePages(m: Machine, m': Machine)
    requires PagesOk(m) && m'.spaces == m.spaces && m'.frames.Keys == m.frames.Keys
    requires forall f :: f in m.frames ==> m'.frames[f].references == m.frames[f].references
    requires forall f :: Common(m', f) == Common(m, f)
    ensures PagesOk(m')
  {
    hide Common;
    forall s, a | s in m'.spaces && a in m'.spaces[s] ensures PageOk(m', m'.spaces[s][a]) {
      PageIsOk(m, s, a);
    }
  }

  lemma WriteKeeps(m: Machine, s: nat, a: nat, offset: nat, bytes: seq<byte>, m': Machine)
    requires Inv(m) && Step(m, Write(s, a, offset, bytes), m')
    ensures Inv(m')
  {
    hide Holders, CountsExact, PagesOk, Common;
    var v := View(m.spaces[s], m.frames);
    var spare: nat :| ChunkWritten(v, a, offset, bytes, spare, View(m'.spaces[s], m'.frames));
    var p := Privatized(v, a, spare);
    var mid := Put(m, s, p.records, p.frames);
    PrivatizedKeepsInv(m, s, a, spare, mid);
    StoredKeepsInv(mid, p.records[a].frame, offset, bytes);
  }

  lemma CowFaultKeeps(m: Machine, s: nat, a: nat, m': Machine)
    requires Inv(m) && Step(m, CowFault(s, a), m')
    ensures Inv(m')
  {
    hide Holders, CountsExact, PagesOk, Common;
    var spare: nat :| MadePrivate(m.spaces[s], m.frames, a, spare, m'.spaces[s], m'.frames);
    PrivatizedKeepsInv(m, s, a, spare, m');
  }

  lemma MemfdPageKeeps(m: Machine, k: Backing, f: nat, m': Machine)
    requires Inv(m) && Step(m, MemfdPage(k, f), m')
    ensures Inv(m')
  {
    hide Holders, CountsExact, PagesOk, Common;
    PointKeepsInv(m, m', MemfdHolder(k));
  }

  lemma MemfdDropKeeps(m: Machine, k: Backing, m': Machine)
    requires Inv(m) && Step(m, MemfdDrop(k), m')
    ensures Inv(m')
  {
    hide Holders, CountsExact, PagesOk, Common;
    PointKeepsInv(m, m', MemfdHolder(k));
  }

  lemma NewSpaceKeeps(m: Machine, s: nat, m': Machine)
    requires Inv(m) && Step(m, NewSpace(s), m')
    ensures Inv(m')
  {
    hide Holders, CountsExact, PagesOk, Common;
    PointKeepsInv(m, m', PageHolder(s, 0));
  }

  /** Same frames, same holders: only protections and copy-on-write bits of one space changed. */
  lemma RewriteKeeps(m: Machine, s: nat, records: Records)
    requires Inv(m) && s in m.spaces && records.Keys == m.spaces[s].Keys
    requires forall a :: a in records ==>
      records[a].frame == m.spaces[s][a].frame && records[a].shared == m.spaces[s][a].shared
    requires forall a :: a in records ==> BitsOk(m.frames, records[a])
    ensures Inv(Put(m, s, records, m.frames))
  {
    hide Holders, CountsExact, PagesOk, Common;
    var m' := Put(m, s, records, m.frames);
    forall f ensures Holders(m', f) == Holders(m, f) && Common(m', f) == Common(m, f) {
      RewriteHolders(m, s, records, f);
    }
    SameCounts(m, m');
    forall t, a | t in m'.spaces && a in m'.spaces[t] ensures PageOk(m', m'.spaces[t][a]) {
      PageIsOk(m, t, a);
    }
    AllPagesOk(m');
  }

  lemma AllPagesOk(m: Machine)
    requires forall s, a :: s in m.spaces && a in m.spaces[s] ==> PageOk(m, m.spaces[s][a])
    ensures PagesOk(m)
  {
  }

  lemma RewriteHolders(m: Machine, s: nat, records: Records, f: nat)
    requires s in m.spaces && records.Keys == m.spaces[s].Keys
    requires forall a :: a in records ==>
      records[a].frame == m.spaces[s][a].frame && records[a].shared == m.spaces[s][a].shared
    ensures var m' := Put(m, s, records, m.frames);
      Holders(m', f) == Holders(m, f) && Common(m', f) == Common(m, f)
  {
    hide Holders;
    var m' := Put(m, s, records, m.frames);
    forall h ensures Held(m', h) == Held(m, h) && SharedHolder(m', h) == SharedHolder(m, h) {
    }
    forall h ensures h in Holders(m', f) <==> h in Holders(m, f) {
    }
  }

  lemma ProtectKeeps(m: Machine, s: nat, first: nat, end: nat, protection: Protection, m': Machine)
    requires Inv(m) && Step(m, Protect(s, first, end, protection), m')
    ensures Inv(m')
  {
    hide Holders, CountsExact, PagesOk, Common;
    var records := ProtectRange(m.spaces[s], m.frames, first, end, protection);
    forall a | a in records ensures BitsOk(m.frames, records[a]) {
      PageIsOk(m, s, a);
    }
    RewriteKeeps(m, s, records);
  }

  lemma CloneFailedKeeps(m: Machine, s: nat, m': Machine)
    requires Inv(m) && Step(m, CloneFailed(s), m')
    ensures Inv(m')
  {
    hide Holders, CountsExact, PagesOk, Common;
    var records := m'.spaces[s];
    forall a | a in records ensures BitsOk(m.frames, records[a]) {
      PageIsOk(m, s, a);
    }
    RewriteKeeps(m, s, records);
  }

  lemma {:induction false} PageHolderCard(s: nat, pages: set<nat>)
    ensures |set a | a in pages :: PageHolder(s, a)| == |pages|
  {
    var holders := set a | a in pages :: PageHolder(s, a);
    if pages != {} {
      var x :| x in pages;
      PageHolderCard(s, pages - {x});
      assert holders == (set a | a in pages - {x} :: PageHolder(s, a)) + {PageHolder(s, x)};
    }
  }

  /** A space's holders of a frame, as many as its users of it. */
  ghost function SpaceHolders(m: Machine, s: nat, f: nat): (holders: set<Holder>)
    requires s in m.spaces
    ensures forall h :: h in holders <==> h.PageHolder? && h.space == s && Held(m, h) == Some(f)
    ensures |holders| == UserCount(m.spaces[s], f)
  {
    PageHolderCard(s, Users(m.spaces[s], f));
    set a | a in Users(m.spaces[s], f) :: PageHolder(s, a)
  }

  /** A page that owns its frame alone shares it with no other space. */
  lemma SoleUser(m: Machine, s: nat, a: nat, t: nat, f: nat)
    requires Inv(m) && s in m.spaces && a in m.spaces[s] && m.spaces[s][a].frame == f
    requires t in m.spaces && t != s && f in m.frames && m.frames[f].references == 1
    ensures Users(m.spaces[t], f) == {}
  {
    hide Holders, PagesOk, Common;
    forall b | b in m.spaces[t] ensures m.spaces[t][b].frame != f {
      if m.spaces[t][b].frame == f {
        SoleHolder(m, f, PageHolder(s, a), PageHolder(t, b));
        assert false;
      }
    }
  }

  /** Where a holder of the cloned machine got its frame from. */
  ghost function Origin(parent: nat, child: nat, h: Holder): Holder {
    if h.PageHolder? && h.space == child then PageHolder(parent, h.page) else h
  }

  lemma CloneHeld(m: Machine, parent: nat, child: nat, m': Machine, h: Holder)
    requires Step(m, Clone(parent, child), m')
    ensures Held(m', h) == Held(m, Origin(parent, child, h))
    ensures SharedHolder(m', h) == SharedHolder(m, Origin(parent, child, h))
    ensures h.PageHolder? && h.space == child ==> Held(m, h) == None && !SharedHolder(m, h)
  {
  }

  lemma CloneUsers(m: Machine, parent: nat, child: nat, m': Machine, f: nat)
    requires Step(m, Clone(parent, child), m')
    ensures child in m'.spaces && Users(m'.spaces[child], f) == Users(m.spaces[parent], f)
  {
  }

  lemma CloneHolders(m: Machine, parent: nat, child: nat, m': Machine, f: nat)
    requires Step(m, Clone(parent, child), m')
    ensures |Holders(m', f)| == |Holders(m, f)| + UserCount(m.spaces[parent], f)
    ensures Common(m', f) == Common(m, f)
  {
    hide Holders, Held, SharedHolder, Step, Users, Common;
    CloneUsers(m, parent, child, m', f);
    forall h
      ensures Held(m', h) == Held(m, Origin(parent, child, h))
      ensures SharedHolder(m', h) == SharedHolder(m, Origin(parent, child, h))
      ensures h.PageHolder? && h.space == child ==> Held(m, h) == None && !SharedHolder(m, h)
    {
      CloneHeld(m, parent, child, m', h);
    }
    CloneCommon(m, parent, child, m', f);
    assert Holders(m', f) == Holders(m, f) + SpaceHolders(m', child, f);
  }

  lemma CloneCommon(m: Machine, parent: nat, child: nat, m': Machine, f: nat)
    requires Step(m, Clone(parent, child), m')
    ensures Common(m', f) == Common(m, f)
  {
    hide Held, SharedHolder, Step;
    if Common(m, f) {
      var h :| SharedHolder(m, h) && Held(m, h) == Some(f);
      CloneHeld(m, parent, child, m', h);
      assert SharedHolder(m', h) && Held(m', h) == Some(f);
    }
    if Common(m', f) {
      var h :| SharedHolder(m', h) && Held(m', h) == Some(f);
      CloneHeld(m, parent, child, m', h);
      assert SharedHolder(m, Origin(parent, child, h)) && Held(m, Origin(parent, child, h)) == Some(f);
    }
  }

  lemma CloneCounts(m: Machine, parent: nat, child: nat, m': Machine)
    requires Inv(m) && Step(m, Clone(parent, child), m')
    ensures CountsExact(m') && FramesOk(m'.frames)
  {
    hide Holders, PagesOk, Common, UserCount;
    forall f | f in m'.frames ensures m'.frames[f].references == |Holders(m', f)| {
      CloneHolders(m, parent, child, m', f);
    }
  }

  lemma ClonePage(m: Machine, parent: nat, child: nat, m': Machine, s: nat, a: nat)
    requires Inv(m) && Step(m, Clone(parent, child), m') && s in m'.spaces && a in m'.spaces[s]
    ensures PageOk(m', m'.spaces[s][a])
  {
    hide Holders, PagesOk, CountsExact, Common;
    CloneHolders(m, parent, child, m', m'.spaces[s][a].frame);
    if s == parent || s == child {
      PageIsOk(m, parent, a);
    } else {
      PageIsOk(m, s, a);
      var f := m.spaces[s][a].frame;
      if m.frames[f].references == 1 {
        SoleUser(m, s, a, parent, f);
      }
    }
  }

  lemma CloneKeeps(m: Machine, parent: nat, child: nat, m': Machine)
    requires Inv(m) && Step(m, Clone(parent, child), m')
    ensures Inv(m')
  {
    hide Holders, PagesOk, CountsExact, PageOk;
    CloneCounts(m, parent, child, m');
    forall s, a | s in m'.spaces && a in m'.spaces[s] ensures PageOk(m', m'.spaces[s][a]) {
      ClonePage(m, parent, child, m', s, a);
    }
    AllPagesOk(m');
  }

  lemma DestroyHeld(m: Machine, s: nat, m': Machine, h: Holder)
    requires Step(m, Destroy(s), m')
    ensures s in m.spaces
    ensures h.PageHolder? && h.space == s ==> Held(m', h) == None
    ensures !(h.PageHolder? && h.space == s) ==> Held(m', h) == Held(m, h) && SharedHolder(m', h) == SharedHolder(m, h)
  {
  }

  lemma DestroyHolders(m: Machine, s: nat, m': Machine, f: nat)
    requires Step(m, Destroy(s), m') && s in m.spaces
    ensures |Holders(m', f)| == |Holders(m, f)| - UserCount(m.spaces[s], f)
    ensures Common(m', f) ==> Common(m, f)
  {
    hide Holders, Held, SharedHolder, Step, Users;
    forall h: Holder
      ensures h.PageHolder? && h.space == s ==> Held(m', h) == None
      ensures !(h.PageHolder? && h.space == s) ==> Held(m', h) == Held(m, h) && SharedHolder(m', h) == SharedHolder(m, h)
    {
      DestroyHeld(m, s, m', h);
    }
    var gone := SpaceHolders(m, s, f);
    assert Holders(m, f) == Holders(m', f) + gone;
    if Common(m', f) {
      var h :| SharedHolder(m', h) && Held(m', h) == Some(f);
      assert SharedHolder(m, h) && Held(m, h) == Some(f);
    }
  }

  lemma DestroyCounts(m: Machine, s: nat, m': Machine)
    requires Inv(m) && Step(m, Destroy(s), m')
    ensures CountsExact(m') && FramesOk(m'.frames)
    ensures forall h, f: nat :: Held(m', h) == Some(f) ==> f in m'.frames
  {
    hide Holders, PagesOk, Common, UserCount;
    forall f | f in m'.frames ensures m'.frames[f].references == |Holders(m', f)| {
      DestroyHolders(m, s, m', f);
    }
    forall h, f: nat | Held(m', h) == Some(f) ensures f in m'.frames {
      assert Held(m, h) == Some(f);
      HeldIsLive(m, h);
      DestroyHolders(m, s, m', f);
      assert h in Holders(m', f);
    }
  }

  lemma DestroyPage(m: Machine, s: nat, m': Machine, t: nat, a: nat)
    requires Inv(m) && Step(m, Destroy(s), m') && t in m'.spaces && a in m'.spaces[t]
    requires m'.spaces[t][a].frame in m'.frames
    ensures PageOk(m', m'.spaces[t][a])
  {
    hide Holders, PagesOk, CountsExact, Common;
    PageIsOk(m, t, a);
    var f := m.spaces[t][a].frame;
    DestroyHolders(m, s, m', f);
    if m.frames[f].references == 1 {
      SoleUser(m, t, a, s, f);
    }
  }

  lemma DestroyKeeps(m: Machine, s: nat, m': Machine)
    requires Inv(m) && Step(m, Destroy(s), m')
    ensures Inv(m')
  {
    hide Holders, PagesOk, CountsExact, PageOk;
    DestroyCounts(m, s, m');
    forall k | k in m'.memfds ensures m'.memfds[k] in m'.frames {
      assert Held(m', MemfdHolder(k)) == Some(m'.memfds[k]);
    }
    forall t, a | t in m'.spaces && a in m'.spaces[t] ensures PageOk(m', m'.spaces[t][a]) {
      assert Held(m', PageHolder(t, a)) == Some(m'.spaces[t][a].frame);
      DestroyPage(m, s, m', t, a);
    }
    AllPagesOk(m');
  }

  /** Every step keeps the invariant. */
  lemma StepKeepsInv(m: Machine, e: Event, m': Machine)
    requires Inv(m) && Step(m, e, m')
    ensures Inv(m')
  {
    hide Inv, Step;
    match e
    case NewSpace(s) => NewSpaceKeeps(m, s, m');
    case MapNew(s, a, protection, f) => MapNewKeeps(m, s, a, protection, f, m');
    case MapMemfd(s, a, k, protection) => MapMemfdKeeps(m, s, a, k, protection, m');
    case Protect(s, first, end, protection) => ProtectKeeps(m, s, first, end, protection, m');
    case MarkShared(s, a, f) => MarkSharedKeeps(m, s, a, f, m');
    case Unmap(s, a) => UnmapKeeps(m, s, a, m');
    case Clone(parent, child) => CloneKeeps(m, parent, child, m');
    case CloneFailed(parent) => CloneFailedKeeps(m, parent, m');
    case Write(s, a, offset, bytes) => WriteKeeps(m, s, a, offset, bytes, m');
    case CowFault(s, a) => CowFaultKeeps(m, s, a, m');
    case Destroy(s) => DestroyKeeps(m, s, m');
    case MemfdPage(k, f) => MemfdPageKeeps(m, k, f, m');
    case MemfdWrite(k, offset, bytes) => MemfdWriteKeeps(m, k, offset, bytes, m');
    case MemfdDrop(k) => MemfdDropKeeps(m, k, m');
  }

  lemma MemfdWriteKeeps(m: Machine, k: Backing, offset: nat, bytes: seq<byte>, m': Machine)
    requires Inv(m) && Step(m, MemfdWrite(k, offset, bytes), m')
    ensures Inv(m')
  {
    StoredKeepsInv(m, m.memfds[k], offset, bytes);
  }
}
