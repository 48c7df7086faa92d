/**
 The futex-based threads library (user/pthread_compat.c) as a transition
 system: any number of threads, one atomic instruction or one system call per
 step, in any interleaving.  The waits are those of the futex system call.
 */
module Pthread {
  import opened VmTypes
  import opened Futex

  const WRAP := 0x1_0000_0000
  const WAKE_EVERYONE := 0x7FFF_FFFF

  datatype Kind = MutexWord | ConditionWord | OnceWord

  /** What an unlock goes on to do: return, or sleep on a condition (pthread_cond_wait). */
  datatype Then = Return | Sleep(c: Word, m: Word, expected: nat, at: nat)

  /**
   Where a thread is: the next instruction or system call it will perform.
   `at` and `number` record the true, unwrapped count of signals a condition
   had when it was sampled or signalled; the program itself never sees them.
   */
  datatype Pc =
    | Idle
    | LockFast(m: Word)                      // compare-exchange 0 -> 1
    | LockSlow(m: Word)                      // exchange 2
    | LockWait(m: Word)                      // futex_wait(m, 2)
    | UnlockStore(m: Word, next: Then)       // exchange 0
    | UnlockWake(m: Word, next: Then)        // futex_wake(m, 1)
    | CondSample(c: Word, m: Word)           // load the sequence
    | CondSleep(c: Word, m: Word, expected: nat, at: nat)   // futex_wait(c, expected)
    | CondWoken(c: Word, m: Word, at: nat)   // back from futex_wait
    | SignalAdd(c: Word, all: bool)          // add 1 to the sequence
    | SignalWake(c: Word, all: bool, number: nat)           // futex_wake(c, 1 or everyone)
    | OnceTry(o: Word)                       // compare-exchange 0 -> 1
    | OnceStore(o: Word)                     // store 2, the initializer is done
    | OnceWake(o: Word)                      // futex_wake(o, everyone)
    | OnceCheck(o: Word)                     // load, compare with 2
    | OnceWait(o: Word)                      // futex_wait(o, 1)

  /** `held`: mutexes acquired and not yet released; `inits`: initializers being run, innermost last. */
  datatype Thread = Thread(pc: Pc, held: set<Word>, inits: seq<Word>)

  /** What happened to a word so far, never wrapped. */
  datatype History = History(signals: nat, broadcast: nat, starts: nat, ends: nat)

  datatype State = State(
    kinds: map<Word, Kind>, words: map<Word, nat>, history: map<Word, History>,
    threads: seq<Thread>, waits: seq<Option<Word>>)

  predicate Is(s: State, w: Word, kind: Kind) {
    w in s.kinds && s.kinds[w] == kind
  }

  /** The objects an instruction touches have the right kind. */
  predicate Typed(s: State, pc: Pc) {
    match pc
    case Idle => true
    case LockFast(m) => Is(s, m, MutexWord)
    case LockSlow(m) => Is(s, m, MutexWord)
    case LockWait(m) => Is(s, m, MutexWord)
    case UnlockStore(m, next) => Is(s, m, MutexWord) && ThenTyped(s, next)
    case UnlockWake(m, next) => Is(s, m, MutexWord) && ThenTyped(s, next)
    case CondSample(c, m) => Is(s, c, ConditionWord) && Is(s, m, MutexWord)
    case CondSleep(c, m, _, _) => Is(s, c, ConditionWord) && Is(s, m, MutexWord)
    case CondWoken(c, m, _) => Is(s, c, ConditionWord) && Is(s, m, MutexWord)
    case SignalAdd(c, _) => Is(s, c, ConditionWord)
    case SignalWake(c, _, _) => Is(s, c, ConditionWord)
    case OnceTry(o) => Is(s, o, OnceWord)
    case OnceStore(o) => Is(s, o, OnceWord)
    case OnceWake(o) => Is(s, o, OnceWord)
    case OnceCheck(o) => Is(s, o, OnceWord)
    case OnceWait(o) => Is(s, o, OnceWord)
  }

  predicate ThenTyped(s: State, next: Then) {
    next.Sleep? ==> Is(s, next.c, ConditionWord) && Is(s, next.m, MutexWord)
  }

  predicate ThreadTyped(s: State, t: Thread) {
    && Typed(s, t.pc)
    && (forall m :: m in t.held ==> Is(s, m, MutexWord))
    && (forall i :: 0 <= i < |t.inits| ==> Is(s, t.inits[i], OnceWord))
  }

  predicate Shape(s: State) {
    && s.words.Keys == s.kinds.Keys && s.history.Keys == s.kinds.Keys
    && |s.waits| == |s.threads| <= WAKE_EVERYONE
    && forall t :: 0 <= t < |s.threads| ==> ThreadTyped(s, s.threads[t])
  }

  predicate Awake(s: State, t: nat) {
    t < |s.threads| && t < |s.waits| && s.waits[t] == None
  }

  /** The one word an instruction works on. */
  function Target(pc: Pc): Word
    requires pc != Idle
  {
    match pc
    case LockFast(m) => m
    case LockSlow(m) => m
    case LockWait(m) => m
    case UnlockStore(m, _) => m
    case UnlockWake(m, _) => m
    case CondSample(c, _) => c
    case CondSleep(c, _, _, _) => c
    case CondWoken(c, _, _) => c
    case SignalAdd(c, _) => c
    case SignalWake(c, _, _) => c
    case OnceTry(o) => o
    case OnceStore(o) => o
    case OnceWake(o) => o
    case OnceCheck(o) => o
    case OnceWait(o) => o
  }

  /** What a step does: the thread, its word, whether it falls asleep on the word, how many it wakes there. */
  datatype Move = Move(thread: Thread, value: nat, history: History, parks: bool, wakes: nat)

  function After(next: Then): Pc {
    match next
    case Return => Idle
    case Sleep(c, m, expected, at) => CondSleep(c, m, expected, at)
  }

  /** One atomic instruction or system call, on a word that holds `value`. */
  function Instruction(thread: Thread, value: nat, h: History): Move
    requires thread.pc != Idle
  {
    var stay := Move(thread, value, h, false, 0);
    match thread.pc
    case LockFast(m) =>
      if value == 0 then stay.(value := 1, thread := thread.(pc := Idle, held := thread.held + {m}))
      else stay.(thread := thread.(pc := LockSlow(m)))
    case LockSlow(m) =>
      if value == 0 then stay.(value := 2, thread := thread.(pc := Idle, held := thread.held + {m}))
      else stay.(value := 2, thread := thread.(pc := LockWait(m)))
    case LockWait(m) => stay.(thread := thread.(pc := LockSlow(m)), parks := value == 2)
    case UnlockStore(m, next) =>
      stay.(value := 0, thread := thread.(
        pc := if value > 1 then UnlockWake(m, next) else After(next), held := thread.held - {m}))
    case UnlockWake(m, next) => stay.(thread := thread.(pc := After(next)), wakes := 1)
    case CondSample(c, m) => stay.(thread := thread.(pc := UnlockStore(m, Sleep(c, m, value, h.signals))))
    case CondSleep(c, m, expected, at) => stay.(thread := thread.(pc := CondWoken(c, m, at)), parks := value == expected)
    case CondWoken(c, m, at) => stay.(thread := thread.(pc := LockFast(m)))
    case SignalAdd(c, all) =>
      stay.(value := (value + 1) % WRAP, history := h.(signals := h.signals + 1),
            thread := thread.(pc := SignalWake(c, all, h.signals + 1)))
    case SignalWake(c, all, number) =>
      stay.(history := if all && h.broadcast < number then h.(broadcast := number) else h,
            thread := thread.(pc := Idle), wakes := if all then WAKE_EVERYONE else 1)
    case OnceTry(o) =>
      if value == 0 then
        stay.(value := 1, history := h.(starts := h.starts + 1),
              thread := thread.(pc := Idle, inits := thread.inits + [o]))
      else stay.(thread := thread.(pc := OnceCheck(o)))
    case OnceStore(o) => stay.(value := 2, thread := thread.(pc := OnceWake(o)))
    case OnceWake(o) => stay.(thread := thread.(pc := Idle), wakes := WAKE_EVERYONE)
    case OnceCheck(o) => stay.(thread := thread.(pc := if value == 2 then Idle else OnceWait(o)))
    case OnceWait(o) => stay.(thread := thread.(pc := OnceCheck(o)), parks := value == 1)
  }

  /** The functions a thread may call. */
  datatype Call =
    | Lock(m: Word)
    | Unlock(m: Word)
    | Wait(c: Word, m: Word)
    | Signal(c: Word)
    | Broadcast(c: Word)
    | Once(o: Word)

  function Entry(call: Call): Pc {
    match call
    case Lock(m) => LockFast(m)
    case Unlock(m) => UnlockStore(m, Return)
    case Wait(c, m) => CondSample(c, m)
    case Signal(c) => SignalAdd(c, false)
    case Broadcast(c) => SignalAdd(c, true)
    case Once(o) => OnceTry(o)
  }

  datatype Event =
    | Calls(t: nat, call: Call)
    | Runs(t: nat)
    | Trylocks(t: nat, m: Word)
    | InitReturns(t: nat)   // the innermost initializer of `t` returns to pthread_once
    | Unparks(t: nat)       // any other wake-up, such as that of an exiting thread

  /** Callers unlock, and wait with, only mutexes they hold. */
  predicate Enabled(s: State, e: Event, thread: Thread) {
    match e
    case Calls(_, call) =>
      && thread.pc == Idle && Typed(s, Entry(call))
      && (call.Unlock? || call.Wait? ==> call.m in thread.held)
    case Runs(_) => thread.pc != Idle
    case Trylocks(_, m) => thread.pc == Idle && Is(s, m, MutexWord)
    case InitReturns(_) => thread.pc == Idle && |thread.inits| > 0
    case Unparks(_) => false
  }

  function EventWord(e: Event, thread: Thread): Word
    requires !e.Unparks? && (e.Runs? ==> thread.pc != Idle) && (e.InitReturns? ==> |thread.inits| > 0)
  {
    match e
    case Calls(_, call) => Target(Entry(call))
    case Runs(_) => Target(thread.pc)
    case Trylocks(_, m) => m
    case InitReturns(_) => thread.inits[|thread.inits| - 1]
  }

  function Next(e: Event, thread: Thread, value: nat, h: History): Move
    requires !e.Unparks? && (e.Runs? ==> thread.pc != Idle) && (e.InitReturns? ==> |thread.inits| > 0)
  {
    var stay := Move(thread, value, h, false, 0);
    match e
    case Calls(_, call) => stay.(thread := thread.(pc := Entry(call)))
    case Runs(_) => Instruction(thread, value, h)
    case Trylocks(_, m) =>
      if value == 0 then stay.(value := 1, thread := thread.(held := thread.held + {m})) else stay
    case InitReturns(_) =>
      var inner := |thread.inits| - 1;
      stay.(history := h.(ends := h.ends + 1),
            thread := thread.(pc := OnceStore(thread.inits[inner]), inits := thread.inits[..inner]))
  }

  function Apply(s: State, t: nat, w: Word, move: Move): State
    requires t < |s.threads| && t < |s.waits|
  {
    s.(words := s.words[w := move.value], history := s.history[w := move.history],
       threads := s.threads[t := move.thread],
       waits := if move.parks then s.waits[t := Some(w)]
                else if move.wakes > 0 then Woken(s.waits, w, move.wakes) else s.waits)
  }

  ghost predicate Moves(s: State, e: Event, w: Word, move: Move) {
    && !e.Unparks? && Awake(s, e.t) && Enabled(s, e, s.threads[e.t]) && w in s.words && w in s.history
    && w == EventWord(e, s.threads[e.t]) && move == Next(e, s.threads[e.t], s.words[w], s.history[w])
  }

  ghost predicate Step(s: State, e: Event, s': State) {
    if e.Unparks? then e.t < |s.waits| && s' == s.(waits := s.waits[e.t := None])
    else exists w, move :: Moves(s, e, w, move) && s' == Apply(s, e.t, w, move)
  }

  lemma Moved(s: State, e: Event, s': State) returns (w: Word, move: Move)
    requires Step(s, e, s') && !e.Unparks?
    ensures Moves(s, e, w, move) && Awake(s, e.t) && w in s.words && w in s.history
    ensures s' == Apply(s, e.t, w, move)
  {
    w, move :| Moves(s, e, w, move) && s' == Apply(s, e.t, w, move);
  }

  /** Zeroed words, idle threads. */
  ghost predicate Initial(s: State) {
    && Shape(s)
    && (forall w :: w in s.words ==> s.words[w] == 0 && s.history[w] == History(0, 0, 0, 0))
    && (forall t :: 0 <= t < |s.threads| ==> s.threads[t] == Thread(Idle, {}, []))
    && (forall t :: 0 <= t < |s.waits| ==> s.waits[t] == None)
  }

  // ----- the invariant

  /** A sleeping thread sits behind the wait it will return from. */
  ghost predicate ParkedAt(s: State, t: nat)
    requires t < |s.threads| && t < |s.waits|
  {
    match s.waits[t]
    case None => true
    case Some(w) => s.threads[t].pc == LockSlow(w) || s.threads[t].pc == OnceCheck(w)
                    || (s.threads[t].pc.CondWoken? && s.threads[t].pc.c == w)
  }

  ghost predicate Parked(s: State) {
    |s.waits| == |s.threads| && forall t: nat :: t < |s.threads| ==> ParkedAt(s, t)
  }

  ghost predicate Holds(s: State, t: nat, m: Word) {
    t < |s.threads| && m in s.threads[t].held
  }

  /** Mutual exclusion, and the mutex word says whether there is an owner. */
  ghost predicate Exclusive(s: State, m: Word) {
    && m in s.words && s.words[m] <= 2
    && (forall t: nat, u: nat :: Holds(s, t, m) && Holds(s, u, m) ==> t == u)
    && (s.words[m] != 0 <==> exists t: nat :: Holds(s, t, m))
  }

  /** A thread about to release a mutex owns it. */
  ghost predicate Releasing(s: State, t: nat)
    requires t < |s.threads|
  {
    var thread := s.threads[t];
    && (thread.pc.UnlockStore? ==> thread.pc.m in thread.held)
    && (thread.pc.CondSample? ==> thread.pc.m in thread.held)
  }

  /** Thread `u` will see to the sleepers on `m`: it owes a wake, or it is awake before the exchange. */
  ghost predicate Responsible(s: State, u: nat, m: Word) {
    && Awake(s, u)
    && ((s.threads[u].pc.UnlockWake? && s.threads[u].pc.m == m) || s.threads[u].pc == LockSlow(m))
  }

  ghost predicate SleepsIn(s: State, t: nat, w: Word) {
    t < |s.waits| && s.waits[t] == Some(w)
  }

  /** No wake-up is lost. */
  ghost predicate NotForgotten(s: State, m: Word) {
    (exists t: nat :: SleepsIn(s, t, m)) ==>
      m in s.words && (s.words[m] == 2 || exists u: nat :: Responsible(s, u, m))
  }

  ghost predicate MutexInv(s: State) {
    && Shape(s) && Parked(s)
    && (forall t: nat :: t < |s.threads| ==> Releasing(s, t))
    && (forall m :: Is(s, m, MutexWord) ==> Exclusive(s, m) && NotForgotten(s, m))
  }

  /** A run: states and the events between them. */
  ghost predicate Run(states: seq<State>, events: seq<Event>) {
    && |states| == |events| + 1 && Initial(states[0])
    && forall i: nat :: i < |events| ==> Step(states[i], events[i], states[i + 1])
  }
}
