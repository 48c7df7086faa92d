/**
 Condition variables: the 32-bit sequence word against the true number of
 signals, and what a broadcast releases.
 */
module PthreadCondition {
  import opened VmTypes
  import opened Futex
  import opened Pthread
  import opened PthreadMutex
  import PthreadOnce

  /** A waiter's sample is a past count of signals, wrapped. */
  ghost predicate SampleOk(expected: nat, at: nat, h: History) {
    at <= h.signals && expected == at % WRAP
  }

  ghost predicate ThreadCondition(thread: Thread, c: Word, h: History) {
    match thread.pc
    case UnlockStore(_, next) => next.Sleep? && next.c == c ==> SampleOk(next.expected, next.at, h)
    case UnlockWake(_, next) => next.Sleep? && next.c == c ==> SampleOk(next.expected, next.at, h)
    case CondSleep(d, _, expected, at) => d == c ==> SampleOk(expected, at, h)
    case CondWoken(d, _, at) => d == c ==> at <= h.signals
    case SignalWake(d, _, number) => d == c ==> number <= h.signals
    case _ => true
  }

  /** The sequence word is the number of signals modulo 2^32. */
  ghost predicate Counts(s: State, c: Word) {
    && c in s.words && c in s.history
    && s.words[c] == s.history[c].signals % WRAP && s.history[c].broadcast <= s.history[c].signals
    && forall t: nat :: t < |s.threads| ==> ThreadCondition(s.threads[t], c, s.history[c])
  }

  /** Whoever sleeps on the condition sampled it no earlier than the last broadcast that has finished. */
  ghost predicate SleepsLate(s: State, t: nat, c: Word) {
    t < |s.threads| && c in s.history && s.threads[t].pc.CondWoken? && s.threads[t].pc.at >= s.history[c].broadcast
  }

  ghost predicate ConditionInv(s: State) {
    && Shape(s) && Parked(s)
    && (forall c :: Is(s, c, ConditionWord) ==> Counts(s, c))
    && (forall c, t: nat :: Is(s, c, ConditionWord) && SleepsIn(s, t, c) ==> SleepsLate(s, t, c))
  }

  /** A waiter reaches its sleep before 2^32 further signals. */
  ghost predicate Prompt(s: State, e: Event) {
    e.Runs? && e.t < |s.threads| && s.threads[e.t].pc.CondSleep? && s.threads[e.t].pc.c in s.history ==>
      s.history[s.threads[e.t].pc.c].signals - s.threads[e.t].pc.at < WRAP
  }

  /** A waiter falls asleep exactly when the signals since its sample are a multiple of 2^32. */
  lemma SleepsIff(s: State, e: Event, w: Word, move: Move)
    requires ConditionInv(s) && Moves(s, e, w, move) && e.Runs? && s.threads[e.t].pc.CondSleep?
    ensures move.parks <==> (s.history[w].signals - s.threads[e.t].pc.at) % WRAP == 0
  {
    var pc := s.threads[e.t].pc;
    assert ThreadTyped(s, s.threads[e.t]);
    assert Counts(s, w);
    assert ThreadCondition(s.threads[e.t], w, s.history[w]);
    Congruent(s.history[w].signals, pc.at);
  }

  lemma Congruent(a: nat, b: nat)
    requires b <= a
    ensures a % WRAP == b % WRAP <==> (a - b) % WRAP == 0
  {
    var x, y := a / WRAP, b / WRAP;
    assert a == x * WRAP + a % WRAP && b == y * WRAP + b % WRAP;
    assert a - b == (x - y) * WRAP + (a % WRAP - b % WRAP);
  }

  lemma HistoryMoves(s: State, e: Event, w: Word, move: Move)
    requires Shape(s) && Moves(s, e, w, move) && Is(s, w, ConditionWord) && Counts(s, w)
    ensures move.history.signals >= s.history[w].signals
    ensures move.value == move.history.signals % WRAP && move.history.broadcast <= move.history.signals
    ensures move.history.broadcast == s.history[w].broadcast || move.wakes == WAKE_EVERYONE
  {
    assert ThreadTyped(s, s.threads[e.t]);
    var thread, h := s.threads[e.t], s.history[w];
    assert ThreadCondition(thread, w, h);
    if e.Runs? && thread.pc.SignalAdd? {
      NextCount(h.signals);
    }
  }

  lemma NextCount(signals: nat)
    ensures (signals % WRAP + 1) % WRAP == (signals + 1) % WRAP
  {
  }

  lemma ThreadMoves(s: State, e: Event, w: Word, move: Move, c: Word)
    requires Shape(s) && Moves(s, e, w, move) && Is(s, c, ConditionWord) && Counts(s, c)
    requires c == w ==> move.history.signals >= s.history[w].signals
    ensures ThreadCondition(move.thread, c, if c == w then move.history else s.history[c])
  {
    assert ThreadTyped(s, s.threads[e.t]);
    assert ThreadCondition(s.threads[e.t], c, s.history[c]);
  }

  lemma Grows(thread: Thread, c: Word, h: History, h': History)
    requires ThreadCondition(thread, c, h) && h.signals <= h'.signals
    ensures ThreadCondition(thread, c, h')
  {
  }

  lemma CountsKept(s: State, e: Event, w: Word, move: Move, c: Word)
    requires ConditionInv(s) && Moves(s, e, w, move) && Is(s, c, ConditionWord)
    ensures Counts(Apply(s, e.t, w, move), c)
  {
    hide Woken, Moves, Shape, Parked, ThreadCondition;
    MovesBasics(s, e, w, move);
    var s' := Apply(s, e.t, w, move);
    assert Counts(s, c);
    if c == w {
      HistoryMoves(s, e, w, move);
    }
    ThreadMoves(s, e, w, move, c);
    forall u: nat | u < |s'.threads| ensures ThreadCondition(s'.threads[u], c, s'.history[c]) {
      if u != e.t {
        Grows(s.threads[u], c, s.history[c], s'.history[c]);
      }
    }
  }

  /** A prompt waiter that falls asleep sampled the latest count. */
  lemma ParksLate(s: State, e: Event, w: Word, move: Move)
    requires ConditionInv(s) && Moves(s, e, w, move) && Is(s, w, ConditionWord) && move.parks && Prompt(s, e)
    ensures move.thread.pc.CondWoken? && move.thread.pc.at == s.history[w].signals && move.history == s.history[w]
  {
    assert ThreadTyped(s, s.threads[e.t]);
    var pc := s.threads[e.t].pc;
    assert e.Runs? && pc.CondSleep?;
    SleepsIff(s, e, w, move);
    assert Counts(s, w);
    assert ThreadCondition(s.threads[e.t], w, s.history[w]);
  }

  lemma LateKept(s: State, e: Event, w: Word, move: Move, c: Word, x: nat)
    requires ConditionInv(s) && Moves(s, e, w, move) && Prompt(s, e) && Is(s, c, ConditionWord)
    requires SleepsIn(Apply(s, e.t, w, move), x, c)
    ensures SleepsLate(Apply(s, e.t, w, move), x, c)
  {
    hide Woken, Moves, Shape, Parked, Counts, Prompt;
    MovesBasics(s, e, w, move);
    var s', t := Apply(s, e.t, w, move), e.t;
    assert |s.waits| == |s.threads| <= WAKE_EVERYONE by { PthreadOnce.TableBound(s); }
    MoverWaits(s, t, w, move);
    if x == t {
      ParksLate(s, e, w, move);
      assert Counts(s, w);
      LateNow(s, w);
    } else {
      OthersStay(s, t, w, move, x);
      assert SleepsIn(s, x, c);
      assert SleepsLate(s, x, c);
      if c == w {
        assert Counts(s, w);
        HistoryMoves(s, e, w, move);
        if move.wakes == WAKE_EVERYONE {
          NotBoth(s, e, w, move);
          WakeAll(s.waits, w, WAKE_EVERYONE);
          assert false;
        }
      }
    }
  }

  lemma NotBoth(s: State, e: Event, w: Word, move: Move)
    requires Moves(s, e, w, move) && move.wakes > 0
    ensures !move.parks
  {
  }

  lemma LateNow(s: State, c: Word)
    requires Counts(s, c)
    ensures s.history[c].broadcast <= s.history[c].signals
  {
  }

  lemma StepKeepsConditionInv(s: State, e: Event, s': State)
    requires ConditionInv(s) && Step(s, e, s') && Prompt(s, e)
    ensures ConditionInv(s')
  {
    hide Shape, Parked, Counts, SleepsLate, Moves, Woken, Prompt;
    if e.Unparks? {
      UnparkCondition(s, e.t);
    } else {
      var w, move := Moved(s, e, s');
      ShapeKept(s, e, w, move);
      ParkedKept(s, e, w, move);
      forall c | Is(s', c, ConditionWord) ensures Counts(s', c) {
        CountsKept(s, e, w, move, c);
      }
      forall c, x: nat | Is(s', c, ConditionWord) && SleepsIn(s', x, c) ensures SleepsLate(s', x, c) {
        LateKept(s, e, w, move, c, x);
      }
    }
  }

  lemma UnparkCondition(s: State, t: nat)
    requires ConditionInv(s) && t < |s.waits|
    ensures ConditionInv(s.(waits := s.waits[t := None]))
  {
    hide Typed, ThreadCondition;
    var s' := s.(waits := s.waits[t := None]);
    forall u | 0 <= u < |s'.threads| ensures ThreadTyped(s', s'.threads[u]) && ParkedAt(s', u) {
      assert ThreadTyped(s, s.threads[u]);
      SameKinds(s, s', s.threads[u]);
      assert ParkedAt(s, u);
    }
    forall c | Is(s', c, ConditionWord) ensures Counts(s', c) {
      assert Is(s, c, ConditionWord);
      assert Counts(s, c);
    }
    forall c, x: nat | Is(s', c, ConditionWord) && SleepsIn(s', x, c) ensures SleepsLate(s', x, c) {
      assert Is(s, c, ConditionWord) && SleepsIn(s, x, c);
    }
  }

  lemma InitialConditionInv(s: State)
    requires Initial(s)
    ensures ConditionInv(s)
  {
    forall t: nat | t < |s.threads| ensures ParkedAt(s, t) {
    }
  }

  lemma {:induction false} RunConditionInv(states: seq<State>, events: seq<Event>, n: nat)
    requires Run(states, events) && n < |states|
    requires forall i: nat :: i < n ==> Prompt(states[i], events[i])
    ensures ConditionInv(states[n])
  {
    hide ConditionInv, Step, Initial, Prompt;
    if n == 0 {
      InitialConditionInv(states[0]);
    } else {
      RunConditionInv(states, events, n - 1);
      StepKeepsConditionInv(states[n - 1], events[n - 1], states[n]);
    }
  }

  /**
   A broadcast releases every waiter that sampled the sequence before it: at
   every moment of a run in which waiters are prompt, nobody asleep on the
   condition has a sample older than the last finished broadcast.
   */
  lemma BroadcastReleases(states: seq<State>, events: seq<Event>, n: nat, t: nat, c: Word)
    requires Run(states, events) && n < |states| && Is(states[n], c, ConditionWord)
    requires forall i: nat :: i < n ==> Prompt(states[i], events[i])
    requires c in states[n].history && t < |states[n].threads|
    requires states[n].threads[t].pc.CondWoken? && states[n].threads[t].pc.at < states[n].history[c].broadcast
    ensures !SleepsIn(states[n], t, c)
  {
    hide Run, Prompt, Counts;
    RunConditionInv(states, events, n);
    assert SleepsIn(states[n], t, c) ==> SleepsLate(states[n], t, c);
  }

  /** A signal releases the lowest sleeping slot, if there is one, and nobody else. */
  lemma SignalReleasesOne(s: State, e: Event, w: Word, move: Move)
    requires Shape(s) && Moves(s, e, w, move) && e.Runs? && s.threads[e.t].pc.SignalWake? && !s.threads[e.t].pc.all
    ensures Some(w) !in s.waits ==> Apply(s, e.t, w, move).waits == s.waits
    ensures Some(w) in s.waits ==> exists first: nat ::
      FirstSleeper(s.waits, w, first) && Apply(s, e.t, w, move).waits == s.waits[first := None]
  {
    hide Woken;
    WakeOne(s.waits, w);
  }
}
