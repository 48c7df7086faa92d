/**
 The futex mutex: mutual exclusion and no lost wake-up, kept by every step of
 every thread.
 */
module PthreadMutex {
  import opened VmTypes
  import opened Futex
  import opened Pthread

  lemma MoveTyped(s: State, e: Event, w: Word, move: Move)
    requires Shape(s) && Moves(s, e, w, move)
    ensures w in s.kinds && ThreadTyped(s, move.thread)
  {
    assert ThreadTyped(s, s.threads[e.t]);
  }

  /** A wake only clears waits on its own word. */
  lemma WokenClears(waits: seq<Option<Word>>, word: Word, count: int)
    ensures forall i :: 0 <= i < |waits| ==>
      Woken(waits, word, count)[i] == waits[i] ||
      (waits[i] == Some(word) && Woken(waits, word, count)[i] == None)
  {
    forall i: nat | i < |waits|
      ensures Woken(waits, word, count)[i] == waits[i] ||
        (waits[i] == Some(word) && Woken(waits, word, count)[i] == None)
    {
      WokenAt(waits, word, count, i);
    }
  }

  /** A step moves one awake thread; the others at most wake up. */
  lemma OthersStay(s: State, t: nat, w: Word, move: Move, u: nat)
    requires |s.waits| == |s.threads| && Awake(s, t) && u < |s.threads| && u != t
    ensures var s' := Apply(s, t, w, move);
      && s'.threads[u] == s.threads[u]
      && (s'.waits[u] == s.waits[u] || (s.waits[u] == Some(w) && s'.waits[u] == None && move.wakes > 0))
  {
    hide Woken;
    WokenClears(s.waits, w, move.wakes);
  }

  lemma MoverWaits(s: State, t: nat, w: Word, move: Move)
    requires |s.waits| == |s.threads| && Awake(s, t)
    ensures Apply(s, t, w, move).waits[t] == if move.parks then Some(w) else None
  {
    hide Woken;
    WokenClears(s.waits, w, move.wakes);
  }

  lemma ShapeKept(s: State, e: Event, w: Word, move: Move)
    requires Shape(s) && Moves(s, e, w, move)
    ensures Shape(Apply(s, e.t, w, move))
  {
    hide Woken, Moves, Typed;
    MoveTyped(s, e, w, move);
    assert Awake(s, e.t) && w in s.words && w in s.history by { MovesBasics(s, e, w, move); }
    var s' := Apply(s, e.t, w, move);
    forall u | 0 <= u < |s'.threads| ensures ThreadTyped(s', s'.threads[u]) {
      assert ThreadTyped(s, s.threads[u]);
      SameKinds(s, s', s'.threads[u]);
    }
  }

  lemma SameKinds(s: State, s': State, thread: Thread)
    requires s'.kinds == s.kinds
    ensures ThreadTyped(s', thread) == ThreadTyped(s, thread)
  {
    assert Typed(s', thread.pc) == Typed(s, thread.pc);
  }

  lemma MovesBasics(s: State, e: Event, w: Word, move: Move)
    requires Moves(s, e, w, move)
    ensures Awake(s, e.t) && w in s.words && w in s.history
  {
  }

  lemma ParksWell(s: State, e: Event, w: Word, move: Move)
    requires Moves(s, e, w, move) && move.parks
    ensures var pc := move.thread.pc; pc == LockSlow(w) || pc == OnceCheck(w) || (pc.CondWoken? && pc.c == w)
  {
  }

  lemma ParkedKept(s: State, e: Event, w: Word, move: Move)
    requires Parked(s) && Moves(s, e, w, move)
    ensures Parked(Apply(s, e.t, w, move))
  {
    hide Woken, Moves;
    MovesBasics(s, e, w, move);
    var s' := Apply(s, e.t, w, move);
    MoverWaits(s, e.t, w, move);
    forall u: nat | u < |s'.threads| ensures ParkedAt(s', u) {
      assert ParkedAt(s, u);
      if u != e.t {
        OthersStay(s, e.t, w, move, u);
      } else if move.parks {
        ParksWell(s, e, w, move);
      }
    }
  }

  lemma ReleasingKept(s: State, e: Event, w: Word, move: Move)
    requires Moves(s, e, w, move) && Releasing(s, e.t)
    ensures Releasing(Apply(s, e.t, w, move), e.t)
  {
    hide Woken;
  }

  /** A step takes a mutex only when its word is zero, and zeroes the word exactly when it gives it up. */
  ghost predicate MutexMove(before: Thread, value: nat, w: Word, isMutex: bool, move: Move) {
    var held, held' := before.held, move.thread.held;
    && (forall m :: m != w || !isMutex ==> (m in held' <==> m in held))
    && (isMutex ==>
          && (value <= 2 ==> move.value <= 2)
          && (w in held' && w !in held ==> value == 0 && move.value != 0)
          && (w in held && w !in held' ==> move.value == 0)
          && ((w in held <==> w in held') ==> (value == 0 <==> move.value == 0)))
  }

  lemma MutexMoves(s: State, e: Event, w: Word, move: Move)
    requires Shape(s) && Moves(s, e, w, move) && Releasing(s, e.t)
    requires w in s.threads[e.t].held ==> s.words[w] != 0
    ensures MutexMove(s.threads[e.t], s.words[w], w, Is(s, w, MutexWord), move)
  {
    assert ThreadTyped(s, s.threads[e.t]);
  }

  lemma ExclusiveKept(s: State, e: Event, w: Word, move: Move, m: Word)
    requires Shape(s) && Moves(s, e, w, move) && Releasing(s, e.t)
    requires Is(s, m, MutexWord) && Exclusive(s, m)
    ensures Exclusive(Apply(s, e.t, w, move), m)
  {
    hide Woken, Moves, Shape;
    MovesBasics(s, e, w, move);
    var s' := Apply(s, e.t, w, move);
    assert m in s'.words;
    if m == w {
      assert w in s.threads[e.t].held ==> Holds(s, e.t, w);
      MutexMoves(s, e, w, move);
      assert forall u: nat :: u != e.t ==> Holds(s', u, m) == Holds(s, u, m);
      assert Holds(s', e.t, m) == (m in move.thread.held);
      assert Holds(s, e.t, m) == (m in s.threads[e.t].held);
      if Holds(s', e.t, m) {
        assert s'.words[m] != 0;
      }
      if u: nat :| u != e.t && Holds(s', u, m) {
        assert Holds(s, u, m);
      }
      assert Exclusive(s', m);
    } else {
      assert forall u: nat :: Holds(s', u, m) == Holds(s, u, m) by { HeldElsewhere(s, e, w, move, m); }
    }
  }

  lemma HeldElsewhere(s: State, e: Event, w: Word, move: Move, m: Word)
    requires Moves(s, e, w, move) && m != w
    ensures forall u: nat :: Holds(Apply(s, e.t, w, move), u, m) == Holds(s, u, m)
  {
    hide Woken;
  }

  /** How a step on a mutex word treats the duty to wake its sleepers. */
  lemma DutyMoves(s: State, e: Event, w: Word, move: Move)
    requires Shape(s) && Moves(s, e, w, move) && Is(s, w, MutexWord)
    ensures move.parks ==> move.value == 2
    ensures s.words[w] == 2 && move.value != 2 ==> move.thread.pc.UnlockWake? && move.thread.pc.m == w && !move.parks
    ensures s.threads[e.t].pc == LockSlow(w) ==> move.value == 2
    ensures s.threads[e.t].pc.UnlockWake? && s.threads[e.t].pc.m == w ==> move.wakes == 1 && !move.parks
  {
    assert ThreadTyped(s, s.threads[e.t]);
  }

  lemma ResponsibleHere(s: State, e: Event, w: Word, move: Move, m: Word)
    requires Moves(s, e, w, move) && Responsible(s, e.t, m)
    ensures m == w
  {
  }

  lemma MutexSleeper(s: State, t: nat, m: Word)
    requires Shape(s) && Parked(s) && Is(s, m, MutexWord) && SleepsIn(s, t, m)
    ensures t < |s.threads| && s.threads[t].pc == LockSlow(m)
  {
    assert ParkedAt(s, t);
    assert ThreadTyped(s, s.threads[t]);
  }

  lemma NotForgottenKept(s: State, e: Event, w: Word, move: Move, m: Word)
    requires Shape(s) && Parked(s) && Moves(s, e, w, move) && Is(s, m, MutexWord) && NotForgotten(s, m)
    ensures NotForgotten(Apply(s, e.t, w, move), m)
  {
    hide Woken, Moves, Shape, Parked;
    MovesBasics(s, e, w, move);
    var s', t := Apply(s, e.t, w, move), e.t;
    assert |s.waits| == |s.threads| by { ShapeSizes(s); }
    MoverWaits(s, t, w, move);
    if x: nat :| SleepsIn(s', x, m) {
      if w == m {
        DutyMoves(s, e, w, move);
      }
      if x == t {
        assert s'.words[m] == 2;
      } else {
        OthersStay(s, t, w, move, x);
        assert SleepsIn(s, x, m);
        if s.words[m] == 2 {
          if s'.words[m] != 2 {
            assert Responsible(s', t, m);
          }
        } else {
          var u: nat :| Responsible(s, u, m);
          if u != t {
            OthersStay(s, t, w, move, u);
            assert Responsible(s', u, m);
          } else {
            ResponsibleHere(s, e, w, move, m);
            if s.threads[t].pc.UnlockWake? {
              WakePassesOn(s, t, w, move, x);
            }
          }
        }
      }
    }
  }

  lemma ShapeSizes(s: State)
    requires Shape(s)
    ensures |s.waits| == |s.threads|
  {
  }

  /** The thread an unlock wakes takes over the duty towards the remaining sleepers. */
  lemma WakePassesOn(s: State, t: nat, w: Word, move: Move, x: nat)
    requires Shape(s) && Parked(s) && Is(s, w, MutexWord) && Awake(s, t) && SleepsIn(s, x, w)
    requires move.wakes == 1 && !move.parks
    ensures exists u: nat :: Responsible(Apply(s, t, w, move), u, w)
  {
    hide Shape, Parked, Woken;
    assert |s.waits| == |s.threads| by { ShapeSizes(s); }
    WakeOne(s.waits, w);
    var first: nat :| FirstSleeper(s.waits, w, first) && Woken(s.waits, w, 1) == s.waits[first := None];
    assert SleepsIn(s, first, w);
    MutexSleeper(s, first, w);
    assert Responsible(Apply(s, t, w, move), first, w);
  }

  /** A spurious wake-up of a sleeper makes it responsible itself. */
  lemma UnparkKeeps(s: State, t: nat, m: Word)
    requires Shape(s) && Parked(s) && t < |s.waits| && Is(s, m, MutexWord) && NotForgotten(s, m)
    ensures NotForgotten(s.(waits := s.waits[t := None]), m)
  {
    hide Shape, Parked;
    var s' := s.(waits := s.waits[t := None]);
    if x: nat :| SleepsIn(s', x, m) {
      assert SleepsIn(s, x, m);
      if s.words[m] != 2 {
        var u: nat :| Responsible(s, u, m);
        assert Responsible(s', u, m);
      }
    }
  }

  lemma StepKeepsMutexInv(s: State, e: Event, s': State)
    requires MutexInv(s) && Step(s, e, s')
    ensures MutexInv(s')
  {
    hide Shape, Parked, Releasing, Exclusive, NotForgotten, Moves, Woken;
    if e.Unparks? {
      UnparkShape(s, e.t);
      forall m | Is(s', m, MutexWord) ensures Exclusive(s', m) && NotForgotten(s', m) {
        UnparkExclusive(s, e.t, m);
        UnparkKeeps(s, e.t, m);
      }
    } else {
      var w, move := Moved(s, e, s');
      ShapeKept(s, e, w, move);
      ParkedKept(s, e, w, move);
      ReleasingKept(s, e, w, move);
      forall u: nat | u < |s'.threads| ensures Releasing(s', u) {
        if u != e.t {
          SameReleasing(s, s', u);
        }
      }
      forall m | Is(s', m, MutexWord) ensures Exclusive(s', m) && NotForgotten(s', m) {
        ExclusiveKept(s, e, w, move, m);
        NotForgottenKept(s, e, w, move, m);
      }
    }
  }

  lemma SameReleasing(s: State, s': State, u: nat)
    requires u < |s.threads| && u < |s'.threads| && s'.threads[u] == s.threads[u] && Releasing(s, u)
    ensures Releasing(s', u)
  {
  }

  lemma UnparkShape(s: State, t: nat)
    requires Shape(s) && Parked(s) && t < |s.waits| && forall u: nat :: u < |s.threads| ==> Releasing(s, u)
    ensures var s' := s.(waits := s.waits[t := None]);
      Shape(s') && Parked(s') && forall u: nat :: u < |s'.threads| ==> Releasing(s', u)
  {
    hide Typed;
    var s' := s.(waits := s.waits[t := None]);
    forall u | 0 <= u < |s'.threads| ensures ThreadTyped(s', s'.threads[u]) && ParkedAt(s', u) && Releasing(s', u) {
      assert ThreadTyped(s, s.threads[u]);
      SameKinds(s, s', s.threads[u]);
      assert ParkedAt(s, u);
      assert Releasing(s, u);
    }
  }

  lemma UnparkExclusive(s: State, t: nat, m: Word)
    requires Exclusive(s, m) && t < |s.waits|
    ensures Exclusive(s.(waits := s.waits[t := None]), m)
  {
    var s' := s.(waits := s.waits[t := None]);
    assert forall u: nat :: Holds(s', u, m) == Holds(s, u, m);
  }

  lemma InitialMutexInv(s: State)
    requires Initial(s)
    ensures MutexInv(s)
  {
    forall t: nat | t < |s.threads| ensures ParkedAt(s, t) && Releasing(s, t) {
    }
    forall m | Is(s, m, MutexWord) ensures Exclusive(s, m) && NotForgotten(s, m) {
      assert forall t: nat :: !Holds(s, t, m) && !SleepsIn(s, t, m);
    }
  }

  lemma {:induction false} RunMutexInv(states: seq<State>, events: seq<Event>, n: nat)
    requires Run(states, events) && n < |states|
    ensures MutexInv(states[n])
  {
    hide MutexInv, Step, Initial;
    if n == 0 {
      InitialMutexInv(states[0]);
    } else {
      RunMutexInv(states, events, n - 1);
      StepKeepsMutexInv(states[n - 1], events[n - 1], states[n]);
    }
  }

  /** At no moment of any run do two threads hold the same mutex. */
  lemma MutualExclusion(states: seq<State>, events: seq<Event>, n: nat, t: nat, u: nat, m: Word)
    requires Run(states, events) && n < |states| && Holds(states[n], t, m) && Holds(states[n], u, m)
    ensures t == u
  {
    hide Run, Parked, NotForgotten;
    RunMutexInv(states, events, n);
    var s := states[n];
    assert ThreadTyped(s, s.threads[t]);
    assert Exclusive(s, m);
  }

  /**
   At every moment of every run, a thread asleep on a mutex has somebody to
   wake it: an owner whose unlock will find 2 in the word and so call wake, an
   unlocker that still owes its wake, or an awake thread about to put 2 back.
   */
  lemma NoLostWakeup(states: seq<State>, events: seq<Event>, n: nat, t: nat, m: Word)
    requires Run(states, events) && n < |states| && SleepsIn(states[n], t, m) && Is(states[n], m, MutexWord)
    ensures var s := states[n];
      || (m in s.words && s.words[m] == 2 && exists owner: nat :: Holds(s, owner, m))
      || (exists u: nat :: u != t && Responsible(s, u, m))
  {
    hide Run, Parked;
    RunMutexInv(states, events, n);
    var s := states[n];
    assert Exclusive(s, m) && NotForgotten(s, m);
    if s.words[m] == 2 {
      var owner: nat :| Holds(s, owner, m);
    } else {
      var u: nat :| Responsible(s, u, m);
      assert u != t;
    }
  }

  /**
   Once nobody holds a mutex and every thread that is awake has nothing left to
   do, nobody sleeps on it: no schedule leaves a waiter behind.
   */
  lemma NobodyLeftBehind(states: seq<State>, events: seq<Event>, n: nat, m: Word)
    requires Run(states, events) && n < |states| && Is(states[n], m, MutexWord)
    requires forall t: nat :: !Holds(states[n], t, m)
    requires forall t: nat :: Awake(states[n], t) ==> states[n].threads[t].pc == Idle
    ensures forall t: nat :: !SleepsIn(states[n], t, m)
  {
    hide Run, MutexInv;
    if t: nat :| SleepsIn(states[n], t, m) {
      NoLostWakeup(states, events, n, t, m);
      assert false;
    }
  }
}
