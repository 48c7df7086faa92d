/**
 pthread_once: the initializer runs exactly once, nobody returns before it has
 finished, and nobody sleeps on after it.
 */
module PthreadOnce {
  import opened VmTypes
  import opened Futex
  import opened Pthread
  import opened PthreadMutex

  /** The thread is between winning the compare-exchange and storing 2. */
  ghost predicate Initializing(thread: Thread, o: Word) {
    o in thread.inits || thread.pc == OnceStore(o)
  }

  ghost predicate Distinct(words: seq<Word>) {
    forall i, j :: 0 <= i < j < |words| ==> words[i] != words[j]
  }

  ghost predicate ThreadOnce(thread: Thread, o: Word, value: nat, h: History) {
    && (o in thread.inits ==> h.ends == 0 && thread.pc != OnceStore(o))
    && (thread.pc == OnceStore(o) ==> h.ends == 1)
    && (thread.pc == OnceWake(o) ==> value == 2)
    && Distinct(thread.inits)
  }

  ghost predicate Runner(s: State, t: nat, o: Word) {
    t < |s.threads| && Initializing(s.threads[t], o)
  }

  ghost predicate WordOnce(value: nat, h: History) {
    && value <= 2
    && h.starts == (if value == 0 then 0 else 1)
    && (value == 0 ==> h.ends == 0) && (value == 2 ==> h.ends == 1)
  }

  ghost predicate OneRunner(s: State, o: Word) {
    && o in s.words && o in s.history && WordOnce(s.words[o], s.history[o])
    && (forall t: nat, u: nat :: Runner(s, t, o) && Runner(s, u, o) ==> t == u)
    && (s.words[o] == 1 <==> exists t: nat :: Runner(s, t, o))
  }

  ghost predicate Waker(s: State, u: nat, o: Word) {
    Awake(s, u) && s.threads[u].pc == OnceWake(o)
  }

  /** Whoever sleeps here does so while the initializer runs, or is about to be woken. */
  ghost predicate OnceNotForgotten(s: State, o: Word) {
    (exists t: nat :: SleepsIn(s, t, o)) ==> o in s.words && (s.words[o] == 1 || exists u: nat :: Waker(s, u, o))
  }

  ghost predicate ThreadsOnce(s: State, o: Word) {
    o in s.words && o in s.history &&
    forall t: nat :: t < |s.threads| ==> ThreadOnce(s.threads[t], o, s.words[o], s.history[o])
  }

  ghost predicate OnceInv(s: State) {
    && Shape(s) && Parked(s)
    && forall o :: Is(s, o, OnceWord) ==> OneRunner(s, o) && ThreadsOnce(s, o) && OnceNotForgotten(s, o)
  }

  /** What a step does to the control word it works on. */
  ghost predicate OnceMove(before: Thread, value: nat, h: History, w: Word, move: Move) {
    var was, runs := Initializing(before, w), Initializing(move.thread, w);
    && (!was && runs ==> value == 0 && move.value == 1 && move.history == h.(starts := h.starts + 1))
    && (was && !runs ==> before.pc == OnceStore(w) && move.value == 2 && move.history == h)
    && (was == runs ==>
          move.value == value && move.history.starts == h.starts && (!runs ==> move.history.ends == h.ends))
  }

  lemma OnceMoves(s: State, e: Event, w: Word, move: Move)
    requires Shape(s) && Moves(s, e, w, move) && Is(s, w, OnceWord)
    requires WordOnce(s.words[w], s.history[w]) && ThreadOnce(s.threads[e.t], w, s.words[w], s.history[w])
    requires Initializing(s.threads[e.t], w) ==> s.words[w] == 1
    ensures WordOnce(move.value, move.history)
    ensures OnceMove(s.threads[e.t], s.words[w], s.history[w], w, move)
    ensures ThreadOnce(move.thread, w, move.value, move.history)
  {
    assert ThreadTyped(s, s.threads[e.t]);
    var thread := s.threads[e.t];
    if e.InitReturns? {
      var inner := |thread.inits| - 1;
      assert thread.inits == thread.inits[..inner] + [w];
    }
  }

  /** Other control words are untouched. */
  lemma OnceElsewhere(s: State, e: Event, w: Word, move: Move, o: Word)
    requires Shape(s) && Moves(s, e, w, move) && Is(s, o, OnceWord) && o != w
    requires o in s.words && o in s.history && ThreadOnce(s.threads[e.t], o, s.words[o], s.history[o])
    requires Is(s, w, OnceWord) && Initializing(s.threads[e.t], w) ==> s.words[w] == 1
    ensures Initializing(move.thread, o) == Initializing(s.threads[e.t], o)
    ensures ThreadOnce(move.thread, o, s.words[o], s.history[o])
  {
    assert ThreadTyped(s, s.threads[e.t]);
    var thread := s.threads[e.t];
    if e.InitReturns? {
      var inner := |thread.inits| - 1;
      assert thread.inits == thread.inits[..inner] + [w];
    }
  }

  lemma RunnerSeesOne(s: State, t: nat, o: Word)
    requires OneRunner(s, o) && t < |s.threads| && Initializing(s.threads[t], o)
    ensures s.words[o] == 1
  {
    assert Runner(s, t, o);
  }

  lemma OneRunnerKept(s: State, e: Event, w: Word, move: Move)
    requires OnceInv(s) && Moves(s, e, w, move) && Is(s, w, OnceWord)
    ensures OneRunner(Apply(s, e.t, w, move), w)
  {
    hide Woken, Moves, Shape, Parked, Initializing, ThreadOnce, WordOnce;
    MovesBasics(s, e, w, move);
    var s', t := Apply(s, e.t, w, move), e.t;
    if Initializing(s.threads[t], w) {
      RunnerSeesOne(s, t, w);
    }
    OnceMoves(s, e, w, move);
    assert forall u: nat :: u != t ==> Runner(s', u, w) == Runner(s, u, w);
    assert Runner(s', t, w) == Initializing(move.thread, w);
    assert Runner(s, t, w) == Initializing(s.threads[t], w);
    if u: nat :| u != t && Runner(s', u, w) {
      assert Runner(s, u, w);
      assert s.words[w] == 1;
    }
  }

  lemma OneRunnerElsewhere(s: State, e: Event, w: Word, move: Move, o: Word)
    requires OnceInv(s) && Moves(s, e, w, move) && Is(s, o, OnceWord) && o != w
    ensures OneRunner(Apply(s, e.t, w, move), o)
  {
    hide Woken, Moves, Shape, Parked, Initializing, ThreadOnce, WordOnce;
    MovesBasics(s, e, w, move);
    var s', t := Apply(s, e.t, w, move), e.t;
    if Is(s, w, OnceWord) && Initializing(s.threads[t], w) {
      RunnerSeesOne(s, t, w);
    }
    OnceElsewhere(s, e, w, move, o);
    assert forall u: nat :: Runner(s', u, o) == Runner(s, u, o);
  }

  /** A thread that is not the one moving, seen from the word it did not touch or did not run on. */
  lemma OtherThreadOnce(s: State, e: Event, w: Word, move: Move, u: nat)
    requires OnceInv(s) && Moves(s, e, w, move) && Is(s, w, OnceWord) && u < |s.threads| && u != e.t
    ensures ThreadOnce(s.threads[u], w, move.value, move.history)
  {
    hide Woken, Moves, Shape, Parked, WordOnce;
    MovesBasics(s, e, w, move);
    var t := e.t;
    if Initializing(s.threads[t], w) {
      RunnerSeesOne(s, t, w);
    }
    OnceMoves(s, e, w, move);
    if Initializing(s.threads[u], w) {
      RunnerSeesOne(s, u, w);
      assert Runner(s, u, w);
      assert !Runner(s, t, w);
    }
    assert ThreadOnce(s.threads[u], w, s.words[w], s.history[w]);
  }

  lemma ThreadsOnceKept(s: State, e: Event, w: Word, move: Move, o: Word)
    requires OnceInv(s) && Moves(s, e, w, move) && Is(s, o, OnceWord)
    ensures ThreadsOnce(Apply(s, e.t, w, move), o)
  {
    hide Woken, Moves, Shape, Parked, Initializing, ThreadOnce, WordOnce;
    MovesBasics(s, e, w, move);
    var s', t := Apply(s, e.t, w, move), e.t;
    if Is(s, w, OnceWord) && Initializing(s.threads[t], w) {
      RunnerSeesOne(s, t, w);
    }
    forall u: nat | u < |s'.threads| ensures ThreadOnce(s'.threads[u], o, s'.words[o], s'.history[o]) {
      if o == w {
        if u == t {
          OnceMoves(s, e, w, move);
        } else {
          OtherThreadOnce(s, e, w, move, u);
        }
      } else if u == t {
        OnceElsewhere(s, e, w, move, o);
      }
    }
  }

  lemma OnceDuty(s: State, e: Event, w: Word, move: Move)
    requires Shape(s) && Moves(s, e, w, move) && Is(s, w, OnceWord)
    ensures move.parks ==> s.words[w] == 1 && move.value == 1
    ensures s.words[w] == 1 && move.value != 1 ==> move.thread.pc == OnceWake(w)
    ensures s.threads[e.t].pc == OnceWake(w) ==> move.wakes == WAKE_EVERYONE && !move.parks
  {
    assert ThreadTyped(s, s.threads[e.t]);
  }

  lemma WakerHere(s: State, e: Event, w: Word, move: Move, o: Word)
    requires Moves(s, e, w, move) && s.threads[e.t].pc == OnceWake(o)
    ensures o == w
  {
  }

  lemma OnceNotForgottenKept(s: State, e: Event, w: Word, move: Move, o: Word)
    requires OnceInv(s) && Moves(s, e, w, move) && Is(s, o, OnceWord)
    ensures OnceNotForgotten(Apply(s, e.t, w, move), o)
  {
    hide Woken, Moves, Shape, Parked, OneRunner, ThreadsOnce;
    MovesBasics(s, e, w, move);
    var s', t := Apply(s, e.t, w, move), e.t;
    assert |s.waits| == |s.threads| <= WAKE_EVERYONE by { TableBound(s); }
    MoverWaits(s, t, w, move);
    if x: nat :| SleepsIn(s', x, o) {
      if w == o {
        OnceDuty(s, e, w, move);
      }
      if x != t {
        OthersStay(s, t, w, move, x);
        assert SleepsIn(s, x, o);
        if s.words[o] == 1 {
          if s'.words[o] != 1 {
            assert Waker(s', t, o);
          }
        } else {
          var u: nat :| Waker(s, u, o);
          if u != t {
            OthersStay(s, t, w, move, u);
            assert Waker(s', u, o);
          } else {
            WakerHere(s, e, w, move, o);
            WakeAll(s.waits, w, WAKE_EVERYONE);
            assert false;
          }
        }
      }
    }
  }

  lemma TableBound(s: State)
    requires Shape(s)
    ensures |s.waits| == |s.threads| <= WAKE_EVERYONE
  {
  }

  lemma StepKeepsOnceInv(s: State, e: Event, s': State)
    requires OnceInv(s) && Step(s, e, s')
    ensures OnceInv(s')
  {
    hide Shape, Parked, OneRunner, ThreadsOnce, OnceNotForgotten, Moves, Woken;
    if e.Unparks? {
      UnparkOnce(s, e.t);
    } else {
      var w, move := Moved(s, e, s');
      ShapeKept(s, e, w, move);
      ParkedKept(s, e, w, move);
      forall o | Is(s', o, OnceWord) ensures OneRunner(s', o) && ThreadsOnce(s', o) && OnceNotForgotten(s', o) {
        ThreadsOnceKept(s, e, w, move, o);
        OnceNotForgottenKept(s, e, w, move, o);
        if o == w {
          OneRunnerKept(s, e, w, move);
        } else {
          OneRunnerElsewhere(s, e, w, move, o);
        }
      }
    }
  }

  lemma UnparkOnce(s: State, t: nat)
    requires OnceInv(s) && t < |s.waits|
    ensures OnceInv(s.(waits := s.waits[t := None]))
  {
    hide Typed, Initializing, ThreadOnce, WordOnce;
    var s' := s.(waits := s.waits[t := None]);
    forall u | 0 <= u < |s'.threads| ensures ThreadTyped(s', s'.threads[u]) && ParkedAt(s', u) {
      assert ThreadTyped(s, s.threads[u]);
      SameKinds(s, s', s.threads[u]);
      assert ParkedAt(s, u);
    }
    forall o | Is(s', o, OnceWord) ensures OneRunner(s', o) && ThreadsOnce(s', o) && OnceNotForgotten(s', o) {
      assert Is(s, o, OnceWord);
      assert forall u: nat :: Runner(s', u, o) == Runner(s, u, o);
      if x: nat :| SleepsIn(s', x, o) {
        assert SleepsIn(s, x, o);
        if s.words[o] != 1 {
          var u: nat :| Waker(s, u, o);
          assert Waker(s', u, o);
        }
      }
    }
  }

  lemma InitialOnceInv(s: State)
    requires Initial(s)
    ensures OnceInv(s)
  {
    forall t: nat | t < |s.threads| ensures ParkedAt(s, t) {
    }
    forall o | Is(s, o, OnceWord) ensures OneRunner(s, o) && ThreadsOnce(s, o) && OnceNotForgotten(s, o) {
      assert forall t: nat :: !Runner(s, t, o) && !SleepsIn(s, t, o);
    }
  }

  lemma {:induction false} RunOnceInv(states: seq<State>, events: seq<Event>, n: nat)
    requires Run(states, events) && n < |states|
    ensures OnceInv(states[n])
  {
    hide OnceInv, Step, Initial;
    if n == 0 {
      InitialOnceInv(states[0]);
    } else {
      RunOnceInv(states, events, n - 1);
      StepKeepsOnceInv(states[n - 1], events[n - 1], states[n]);
    }
  }

  /** In every run the initializer is started at most once and finishes at most once. */
  lemma AtMostOnce(states: seq<State>, events: seq<Event>, n: nat, o: Word)
    requires Run(states, events) && n < |states| && Is(states[n], o, OnceWord)
    ensures o in states[n].history && states[n].history[o].ends <= states[n].history[o].starts <= 1
  {
    hide Run, Shape, Parked, ThreadsOnce, OnceNotForgotten;
    RunOnceInv(states, events, n);
    var s := states[n];
    assert OneRunner(s, o);
    if s.words[o] == 1 {
      var t: nat :| Runner(s, t, o);
      assert ThreadsOnce(s, o);
      RunnerEnds(s, t, o);
    }
  }

  lemma RunnerEnds(s: State, t: nat, o: Word)
    requires Runner(s, t, o) && ThreadsOnce(s, o)
    ensures s.history[o].ends <= 1
  {
    assert ThreadOnce(s.threads[t], o, s.words[o], s.history[o]);
  }

  /** Whoever returns from pthread_once does so after the one run of the initializer has finished. */
  lemma ReturnsAfterInitializer(states: seq<State>, events: seq<Event>, n: nat, t: nat, o: Word)
    requires Run(states, events) && n < |events| && events[n] == Runs(t)
    requires t < |states[n].threads| && t < |states[n + 1].threads|
    requires var pc := states[n].threads[t].pc; pc == OnceCheck(o) || pc == OnceWake(o)
    requires states[n + 1].threads[t].pc == Idle
    ensures o in states[n].history && states[n].history[o].starts == 1 && states[n].history[o].ends == 1
  {
    hide Run, Shape, Parked, OnceNotForgotten, Woken;
    RunStep(states, events, n);
    RunOnceInv(states, events, n);
    var s := states[n];
    var w, move := Moved(s, events[n], states[n + 1]);
    assert ThreadTyped(s, s.threads[t]) by { ShapeThread(s, t); }
    assert OneRunner(s, o) && ThreadsOnce(s, o);
    assert ThreadOnce(s.threads[t], o, s.words[o], s.history[o]);
  }

  lemma ShapeThread(s: State, t: nat)
    requires Shape(s) && t < |s.threads|
    ensures ThreadTyped(s, s.threads[t])
  {
  }

  lemma RunStep(states: seq<State>, events: seq<Event>, n: nat)
    requires Run(states, events) && n < |events|
    ensures |states| == |events| + 1 && Step(states[n], events[n], states[n + 1])
  {
  }

  /** Once the control word is 2 and its wakes are done, nobody sleeps on it. */
  lemma NobodySleepsOn(states: seq<State>, events: seq<Event>, n: nat, o: Word)
    requires Run(states, events) && n < |states| && Is(states[n], o, OnceWord)
    requires o in states[n].words && states[n].words[o] == 2
    requires forall t: nat :: t < |states[n].threads| ==> states[n].threads[t].pc != OnceWake(o)
    ensures forall t: nat :: !SleepsIn(states[n], t, o)
  {
    hide Run, Shape, Parked, OneRunner, ThreadsOnce;
    RunOnceInv(states, events, n);
    assert OnceNotForgotten(states[n], o);
  }
}
