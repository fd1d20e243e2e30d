/** pthread_rwlock as a system of interleaved steps: any number of threads, each at some point of some call,
    take one statement at a time. The mutex is exclusive; a condition wait may end at any time, with any result. */
module RwLock {
  /** Some non-zero code: its value differs between C libraries. */
  const EBUSY := 16

  /** No thread owns the mutex. */
  const NOBODY := -1

  datatype Mode = Reader | Writer

  /** `Acquire` stands for the plain and the timed form, which differ only in how a wait can end. */
  datatype Call = Acquire(mode: Mode) | Try(mode: Mode) | Unlock

  /** Where a thread is in its call. */
  datatype Pc =
    | Outside                  // not in a call
    | Called                   // about to lock the mutex
    | Testing                  // at the test of the counters
    | Counted                  // counted as waiting, about to wait
    | Waiting                  // in the wait, without the mutex
    | Returned(result: int)    // out of the wait, still counted
    | Granted                  // about to take the lock
    | Waking                   // has given the lock up, about to wake others
    | Leaving(result: int)     // about to unlock the mutex and return

  /** The locks a thread holds. */
  datatype Held = Held(reading: nat, writing: nat)

  /** A thread, its last call, what it held when it made it, and what that call returned if it is over. */
  datatype Thread = Thread(pc: Pc, held: Held, call: Call, before: Held, returned: int)

  datatype Wake = OneWriter | AllReaders

  datatype State = State(threads: seq<Thread>, owner: int, refcount: int, waitReaders: int, waitWriters: int, wakes: seq<Wake>)

  /** What the step of a thread depends on besides the state. */
  datatype Choice = Start(call: Call) | Result(value: int)

  function Init(n: nat): State {
    State(seq(n, _ => Thread(Outside, Held(0, 0), Unlock, Held(0, 0), 0)), NOBODY, 0, 0, 0, [])
  }

  /** The test that makes a thread wait, or a try fail. */
  predicate Blocked(s: State, m: Mode) {
    match m
    case Reader => s.refcount < 0 || s.waitWriters > 0
    case Writer => s.refcount != 0
  }

  function Gain(h: Held, m: Mode): Held {
    if m == Reader then h.(reading := h.reading + 1) else h.(writing := h.writing + 1)
  }

  /** What remains after giving up one lock. */
  function Lose(h: Held): Held {
    if h.reading > 0 then h.(reading := h.reading - 1) else if h.writing > 0 then h.(writing := h.writing - 1) else h
  }

  /** Thread `i` moves to `pc`. */
  function At(s: State, i: nat, pc: Pc): State
    requires i < |s.threads|
  {
    s.(threads := s.threads[i := s.threads[i].(pc := pc)])
  }

  function CountWait(s: State, m: Mode, k: int): State {
    if m == Reader then s.(waitReaders := s.waitReaders + k) else s.(waitWriters := s.waitWriters + k)
  }

  /** One statement of thread `i`; a thread that cannot move stays where it is. */
  function Step(s: State, i: nat, c: Choice): (s': State)
    requires i < |s.threads|
    ensures |s'.threads| == |s.threads|
  {
    var t := s.threads[i];
    match t.pc
    case Outside =>
      // only what is held is unlocked
      if c.Start? && (c.call == Unlock ==> t.held.reading + t.held.writing > 0)
      then s.(threads := s.threads[i := t.(pc := Called, call := c.call, before := t.held)])
      else s
    case Called =>
      if c.Result? && c.value != 0 then s.(threads := s.threads[i := t.(pc := Outside, returned := c.value)])
      else if s.owner == NOBODY then At(s, i, Testing).(owner := i)
      else s
    case Testing => Test(s, i)
    case Counted =>
      // a wait may also fail before it releases the mutex
      if c.Result? && c.value != 0 then At(s, i, Returned(c.value)) else At(s, i, Waiting).(owner := NOBODY)
    case Waiting =>
      if s.owner == NOBODY then At(s, i, Returned(if c.Result? then c.value else 0)).(owner := i) else s
    case Returned(r) =>
      CountWait(At(s, i, if r != 0 then Leaving(r) else Testing), Waits(t.call), -1)
    case Granted =>
      var s1 := s.(threads := s.threads[i := t.(pc := Leaving(0), held := Gain(t.held, Waits(t.call)))]);
      s1.(refcount := if Waits(t.call) == Reader then s.refcount + 1 else -1)
    case Waking =>
      Wakes(At(s, i, Leaving(if c.Result? then c.value else 0)))
    case Leaving(r) =>
      s.(threads := s.threads[i := t.(pc := Outside, returned := r)], owner := NOBODY)
  }

  function Waits(c: Call): Mode {
    if c.Unlock? then Reader else c.mode
  }

  /** The counters are tested, or given back. */
  function Test(s: State, i: nat): State
    requires i < |s.threads|
  {
    var t := s.threads[i];
    match t.call
    case Acquire(m) => if Blocked(s, m) then CountWait(At(s, i, Counted), m, 1) else At(s, i, Granted)
    case Try(m) => At(s, i, if Blocked(s, m) then Leaving(EBUSY) else Granted)
    case Unlock =>
      var s1 := s.(threads := s.threads[i := t.(pc := Waking, held := Lose(t.held))]);
      s1.(refcount := if s.refcount > 0 then s.refcount - 1 else if s.refcount == -1 then 0 else s.refcount)
  }

  /** The end of `pthread_rwlock_unlock`: a waiting writer goes first. */
  function Wakes(s: State): State {
    if s.waitWriters > 0 then (if s.refcount == 0 then s.(wakes := s.wakes + [OneWriter]) else s)
    else if s.waitReaders > 0 then s.(wakes := s.wakes + [AllReaders])
    else s
  }

  function Run(s: State, steps: seq<(nat, Choice)>): (s': State)
    ensures |s'.threads| == |s.threads|
    decreases steps
  {
    if steps == [] then s
    else Run(if steps[0].0 < |s.threads| then Step(s, steps[0].0, steps[0].1) else s, steps[1..])
  }

  // ----- sums over threads -----

  function Sum(ts: seq<Thread>, f: Thread -> nat): nat {
    if ts == [] then 0 else f(ts[0]) + Sum(ts[1..], f)
  }

  lemma {:induction false} SumUpdate(ts: seq<Thread>, i: nat, t: Thread, f: Thread -> nat)
    requires i < |ts|
    ensures Sum(ts[i := t], f) == Sum(ts, f) - f(ts[i]) + f(t)
    ensures f(ts[i]) <= Sum(ts, f)
  {
    if i == 0 {
      assert ts[i := t][1..] == ts[1..];
    } else {
      assert ts[i := t][1..] == ts[1..][i - 1 := t];
      SumUpdate(ts[1..], i - 1, t, f);
    }
  }

  lemma {:induction false} SumTwo(ts: seq<Thread>, i: nat, j: nat, f: Thread -> nat)
    requires i < j < |ts|
    ensures f(ts[i]) + f(ts[j]) <= Sum(ts, f)
  {
    if i == 0 {
      SumUpdate(ts[1..], j - 1, ts[j], f);
    } else {
      SumTwo(ts[1..], i - 1, j - 1, f);
    }
  }

  lemma {:induction false} SumZero(ts: seq<Thread>, f: Thread -> nat)
    ensures Sum(ts, f) == 0 <==> forall i :: 0 <= i < |ts| ==> f(ts[i]) == 0
  {
    if ts != [] {
      SumZero(ts[1..], f);
      assert forall i :: 0 < i < |ts| ==> ts[i] == ts[1..][i - 1];
      assert forall i :: 0 <= i < |ts[1..]| ==> ts[1..][i] == ts[i + 1];
    }
  }

  const READS: Thread -> nat := (t: Thread) => t.held.reading
  const WRITES: Thread -> nat := (t: Thread) => t.held.writing

  /** Is the thread between counting itself and uncounting itself? */
  predicate InWait(t: Thread, m: Mode) {
    (t.pc.Counted? || t.pc.Waiting? || t.pc.Returned?) && Waits(t.call) == m
  }

  function WAITS(m: Mode): Thread -> nat {
    (t: Thread) => if InWait(t, m) then 1 else 0
  }

  // ----- the invariant -----

  predicate HasMutex(p: Pc) {
    !p.Outside? && !p.Called? && !p.Waiting?
  }

  ghost predicate MutexOk(s: State) {
    && NOBODY <= s.owner < |s.threads|
    && forall i :: 0 <= i < |s.threads| ==> (HasMutex(s.threads[i].pc) <==> s.owner == i)
  }

  /** The reference count tells who holds the lock. */
  ghost predicate CountOk(s: State) {
    || (s.refcount == -1 && Sum(s.threads, WRITES) == 1 && Sum(s.threads, READS) == 0)
    || (s.refcount == Sum(s.threads, READS) && Sum(s.threads, WRITES) == 0)
  }

  ghost predicate WaitsOk(s: State) {
    s.waitReaders == Sum(s.threads, WAITS(Reader)) && s.waitWriters == Sum(s.threads, WAITS(Writer))
  }

  /** What each point of a call knows. */
  ghost predicate ThreadOk(s: State, t: Thread) {
    match t.pc
    case Outside => true
    case Called => t.held == t.before && (t.call == Unlock ==> t.held.reading + t.held.writing > 0)
    case Testing => t.held == t.before && (t.call == Unlock ==> t.held.reading + t.held.writing > 0)
    case Counted => t.held == t.before && t.call.Acquire?
    case Waiting => t.held == t.before && t.call.Acquire?
    case Returned(_) => t.held == t.before && t.call.Acquire?
    case Granted => t.held == t.before && !t.call.Unlock? && !Blocked(s, t.call.mode)
    case Waking => t.call == Unlock && t.held == Lose(t.before)
    case Leaving(r) =>
      if t.call == Unlock then t.held == Lose(t.before)
      else t.held == if r == 0 then Gain(t.before, t.call.mode) else t.before
  }

  ghost predicate Inv(s: State) {
    MutexOk(s) && CountOk(s) && WaitsOk(s) && forall i :: 0 <= i < |s.threads| ==> ThreadOk(s, s.threads[i])
  }

  /** How the step of thread `i` changes the sums. */
  lemma Moved(s: State, i: nat, t: Thread)
    requires i < |s.threads|
    ensures var ts, u := s.threads[i := t], s.threads[i];
            && Sum(ts, READS) == Sum(s.threads, READS) - u.held.reading + t.held.reading
            && Sum(ts, WRITES) == Sum(s.threads, WRITES) - u.held.writing + t.held.writing
            && Sum(ts, WAITS(Reader)) == Sum(s.threads, WAITS(Reader)) - WAITS(Reader)(u) + WAITS(Reader)(t)
            && Sum(ts, WAITS(Writer)) == Sum(s.threads, WAITS(Writer)) - WAITS(Writer)(u) + WAITS(Writer)(t)
    ensures s.threads[i].held.reading <= Sum(s.threads, READS) && s.threads[i].held.writing <= Sum(s.threads, WRITES)
  {
    SumUpdate(s.threads, i, t, READS);
    SumUpdate(s.threads, i, t, WRITES);
    SumUpdate(s.threads, i, t, WAITS(Reader));
    SumUpdate(s.threads, i, t, WAITS(Writer));
  }

  lemma Owns(s: State, i: nat)
    requires MutexOk(s) && i < |s.threads|
    ensures HasMutex(s.threads[i].pc) <==> s.owner == i
  {
  }

  /** The mutex passes to, from, or stays with the moving thread. */
  lemma MutexMoved(s: State, i: nat, t: Thread, s': State)
    requires MutexOk(s) && i < |s.threads| && s'.threads == s.threads[i := t]
    requires s.owner == NOBODY || s.owner == i || s'.owner == s.owner
    requires s'.owner == (if HasMutex(t.pc) then i else if HasMutex(s.threads[i].pc) then NOBODY else s.owner)
    ensures MutexOk(s')
  {
  }

  /** The other threads know what they knew: only the owner of the mutex relies on the counters. */
  lemma OthersOk(s: State, i: nat, s': State)
    requires Inv(s) && i < |s.threads| && |s'.threads| == |s.threads|
    requires forall j :: 0 <= j < |s.threads| && j != i ==> s'.threads[j] == s.threads[j]
    requires s.owner == i || (s'.refcount == s.refcount && s'.waitWriters == s.waitWriters)
    requires ThreadOk(s', s'.threads[i])
    ensures forall j :: 0 <= j < |s'.threads| ==> ThreadOk(s', s'.threads[j])
  {
    forall j | 0 <= j < |s'.threads| ensures ThreadOk(s', s'.threads[j]) {
      if j != i {
        var t := s.threads[j];
        assert ThreadOk(s, t);
        assert t.pc.Granted? ==> s.owner == j;
      }
    }
  }

  /** Every step keeps the invariant. */
  lemma StepKeepsInv(s: State, i: nat, c: Choice)
    requires Inv(s) && i < |s.threads|
    ensures Inv(Step(s, i, c))
  {
    match s.threads[i].pc
    case Testing => TestKeepsInv(s, i);
    case Returned(_) => ReturnedMoves(s, i, c);
    case Granted => GrantedMoves(s, i, c);
    case Waking => WakingMoves(s, i, c);
    case _ => MutexMoves(s, i, c);
  }

  /** A thread out of its wait stops counting itself. */
  lemma ReturnedMoves(s: State, i: nat, c: Choice)
    requires Inv(s) && i < |s.threads| && s.threads[i].pc.Returned?
    ensures Inv(Step(s, i, c))
  {
    hide Sum, MutexOk;
    Owns(s, i);
    var s' := Step(s, i, c);
    var t' := s'.threads[i];
    assert ThreadOk(s, s.threads[i]) && s.owner == i;
    Moved(s, i, t');
    assert s'.threads == s.threads[i := t'];
    MutexMoved(s, i, t', s');
    OthersOk(s, i, s');
  }

  /** A thread takes the lock. */
  lemma GrantedMoves(s: State, i: nat, c: Choice)
    requires Inv(s) && i < |s.threads| && s.threads[i].pc.Granted?
    ensures Inv(Step(s, i, c))
  {
    hide Sum, MutexOk;
    Owns(s, i);
    var s' := Step(s, i, c);
    var t' := s'.threads[i];
    assert ThreadOk(s, s.threads[i]) && s.owner == i;
    Moved(s, i, t');
    assert s'.threads == s.threads[i := t'];
    MutexMoved(s, i, t', s');
    OthersOk(s, i, s');
  }

  /** A thread wakes others. */
  lemma WakingMoves(s: State, i: nat, c: Choice)
    requires Inv(s) && i < |s.threads| && s.threads[i].pc.Waking?
    ensures Inv(Step(s, i, c))
  {
    hide Sum, MutexOk;
    Owns(s, i);
    var s' := Step(s, i, c);
    var t' := s'.threads[i];
    assert ThreadOk(s, s.threads[i]) && s.owner == i;
    Moved(s, i, t');
    assert s'.threads == s.threads[i := t'];
    MutexMoved(s, i, t', s');
    OthersOk(s, i, s');
  }

  /** The steps around the mutex. */
  lemma MutexMoves(s: State, i: nat, c: Choice)
    requires Inv(s) && i < |s.threads|
    requires !HasMutex(s.threads[i].pc) || s.threads[i].pc.Counted? || s.threads[i].pc.Leaving?
    ensures Inv(Step(s, i, c))
  {
    hide Sum, MutexOk;
    Owns(s, i);
    var s' := Step(s, i, c);
    var t' := s'.threads[i];
    assert ThreadOk(s, s.threads[i]);
    Moved(s, i, t');
    assert s'.threads == s.threads[i := t'];
    MutexMoved(s, i, t', s');
    OthersOk(s, i, s');
  }

  lemma TestKeepsInv(s: State, i: nat)
    requires Inv(s) && i < |s.threads| && s.threads[i].pc.Testing?
    ensures Inv(Test(s, i))
  {
    hide Sum, MutexOk;
    Owns(s, i);
    var t := s.threads[i];
    var s' := Test(s, i);
    var t' := s'.threads[i];
    assert ThreadOk(s, t) && s.owner == i;
    Moved(s, i, t');
    assert s'.threads == s.threads[i := t'];
    MutexMoved(s, i, t', s');
    OthersOk(s, i, s');
  }

  lemma {:induction false} InitInv(n: nat)
    ensures Inv(Init(n))
  {
    var ts := Init(n).threads;
    SumZero(ts, READS);
    SumZero(ts, WRITES);
    SumZero(ts, WAITS(Reader));
    SumZero(ts, WAITS(Writer));
  }

  lemma {:induction false} RunKeepsInv(s: State, steps: seq<(nat, Choice)>)
    requires Inv(s)
    ensures Inv(Run(s, steps))
    decreases steps
  {
    if steps != [] {
      if steps[0].0 < |s.threads| {
        StepKeepsInv(s, steps[0].0, steps[0].1);
        RunKeepsInv(Step(s, steps[0].0, steps[0].1), steps[1..]);
      } else {
        RunKeepsInv(s, steps[1..]);
      }
    }
  }

  /** The state after a run of `n` threads that unlock only what they hold. */
  function After(n: nat, steps: seq<(nat, Choice)>): (s: State)
    ensures |s.threads| == n
  {
    Run(Init(n), steps)
  }

  lemma AfterInv(n: nat, steps: seq<(nat, Choice)>)
    ensures Inv(After(n, steps))
  {
    InitInv(n);
    RunKeepsInv(Init(n), steps);
  }

  // ----- what every run satisfies -----

  /** Reader/writer exclusion, between any two threads and within one. */
  ghost predicate Exclusive(s: State) {
    && (forall i :: 0 <= i < |s.threads| && s.threads[i].held.writing > 0 ==>
          s.threads[i].held == Held(0, 1) && s.refcount == -1)
    && (forall i, j :: 0 <= i < |s.threads| && 0 <= j < |s.threads| && i != j && s.threads[i].held.writing > 0 ==>
          s.threads[j].held == Held(0, 0))
  }

  lemma InvExclusive(s: State)
    requires Inv(s)
    ensures Exclusive(s)
  {
    forall i | 0 <= i < |s.threads| && s.threads[i].held.writing > 0
      ensures s.threads[i].held == Held(0, 1) && s.refcount == -1
    {
      Moved(s, i, s.threads[i]);
    }
    forall i, j | 0 <= i < |s.threads| && 0 <= j < |s.threads| && i != j && s.threads[i].held.writing > 0
      ensures s.threads[j].held == Held(0, 0)
    {
      Moved(s, i, s.threads[i]);
      Moved(s, j, s.threads[j]);
      if i < j { SumTwo(s.threads, i, j, WRITES); } else { SumTwo(s.threads, j, i, WRITES); }
    }
  }

  /** The threads inside the wait for `m`. */
  function Sleepers(ts: seq<Thread>, m: Mode): nat {
    if ts == [] then 0 else (if ts[0].pc.Waiting? && Waits(ts[0].call) == m then 1 else 0) + Sleepers(ts[1..], m)
  }

  lemma {:induction false} SleepersCount(ts: seq<Thread>, m: Mode)
    requires forall i :: 0 <= i < |ts| ==> !ts[i].pc.Counted? && !ts[i].pc.Returned?
    ensures Sleepers(ts, m) == Sum(ts, WAITS(m))
  {
    if ts != [] {
      assert forall i :: 0 <= i < |ts[1..]| ==> ts[1..][i] == ts[i + 1];
      SleepersCount(ts[1..], m);
    }
  }

  /** After every run readers and writers exclude each other and the reference count tells which;
      whenever the mutex is free the wait counts are the numbers of sleepers. */
  lemma RunsAreSafe(n: nat, steps: seq<(nat, Choice)>)
    ensures var s := After(n, steps);
            && Exclusive(s) && CountOk(s)
            && (s.owner == NOBODY ==> s.waitReaders == Sleepers(s.threads, Reader) && s.waitWriters == Sleepers(s.threads, Writer))
  {
    var s := After(n, steps);
    AfterInv(n, steps);
    InvExclusive(s);
    if s.owner == NOBODY {
      assert forall i :: 0 <= i < |s.threads| ==> !HasMutex(s.threads[i].pc);
      SleepersCount(s.threads, Reader);
      SleepersCount(s.threads, Writer);
    }
  }

  /** Nobody holds the lock for writing, and nobody is waiting to. */
  ghost predicate NoWriter(s: State) {
    forall j :: 0 <= j < |s.threads| ==> s.threads[j].held.writing == 0 && !InWait(s.threads[j], Writer)
  }

  ghost predicate NoHolder(s: State) {
    forall j :: 0 <= j < |s.threads| ==> s.threads[j].held == Held(0, 0)
  }

  lemma GrantedAlone(s: State, i: nat)
    requires Inv(s) && i < |s.threads| && s.threads[i].pc.Granted?
    ensures !s.threads[i].call.Unlock?
    ensures s.threads[i].call.mode == Reader ==> NoWriter(s)
    ensures s.threads[i].call.mode == Writer ==> NoHolder(s)
  {
    assert ThreadOk(s, s.threads[i]);
    SumZero(s.threads, WAITS(Writer));
    SumZero(s.threads, WRITES);
    SumZero(s.threads, READS);
    forall j | 0 <= j < |s.threads|
      ensures s.threads[j].held.writing == WRITES(s.threads[j]) && s.threads[j].held.reading == READS(s.threads[j])
      ensures InWait(s.threads[j], Writer) <==> WAITS(Writer)(s.threads[j]) == 1
    {
    }
  }

  /** No step of any run gives a read lock while a writer holds the lock or is waiting for it, or a write lock
      while anyone holds it. */
  lemma WriterPreference(n: nat, steps: seq<(nat, Choice)>, i: nat, c: Choice)
    requires i < n
    ensures var s := After(n, steps);
            && (Step(s, i, c).threads[i].held.reading > s.threads[i].held.reading ==> NoWriter(s))
            && (Step(s, i, c).threads[i].held.writing > s.threads[i].held.writing ==> NoHolder(s))
  {
    var s := After(n, steps);
    AfterInv(n, steps);
    if s.threads[i].pc.Granted? {
      GrantedAlone(s, i);
    } else {
      OnlyGrants(s, i, c);
    }
  }

  lemma OnlyGrants(s: State, i: nat, c: Choice)
    requires i < |s.threads| && !s.threads[i].pc.Granted?
    ensures Step(s, i, c).threads[i].held == s.threads[i].held || Step(s, i, c).threads[i].held == Lose(s.threads[i].held)
  {
  }

  /** What a call that ends has done: a lock call that returned 0 gained exactly one lock of its mode, any other
      gained nothing; an unlock that reached the mutex gave up exactly one. */
  lemma CallsReport(n: nat, steps: seq<(nat, Choice)>, i: nat, c: Choice)
    requires i < n
    ensures var t, t' := After(n, steps).threads[i], Step(After(n, steps), i, c).threads[i];
            !t.pc.Outside? && t'.pc.Outside? ==>
              if t.call == Unlock then t'.held == (if t.pc.Called? then t.before else Lose(t.before))
              else t'.held == if t'.returned == 0 then Gain(t.before, t.call.mode) else t.before
  {
    var s := After(n, steps);
    AfterInv(n, steps);
    assert ThreadOk(s, s.threads[i]);
  }

  // ----- refinement of an atomic lock -----

  /** An atomic reader/writer lock, as the locks held by each thread. */
  ghost predicate AtomicStep(h: seq<Held>, h': seq<Held>, i: nat) {
    && i < |h|
    && (|| h' == h
        || (h' == h[i := Gain(h[i], Reader)] && forall j :: 0 <= j < |h| ==> h[j].writing == 0)
        || (h' == h[i := Gain(h[i], Writer)] && forall j :: 0 <= j < |h| ==> h[j] == Held(0, 0))
        || (h' == h[i := Lose(h[i])] && h[i] != Held(0, 0)))
  }

  function Holds(s: State): seq<Held> {
    seq(|s.threads|, i requires 0 <= i < |s.threads| => s.threads[i].held)
  }

  /** Every step of every run is a step of the atomic lock. */
  lemma StepRefines(n: nat, steps: seq<(nat, Choice)>, i: nat, c: Choice)
    requires i < n
    ensures AtomicStep(Holds(After(n, steps)), Holds(Step(After(n, steps), i, c)), i)
  {
    var s := After(n, steps);
    AfterInv(n, steps);
    var t, s' := s.threads[i], Step(s, i, c);
    assert ThreadOk(s, t);
    assert Holds(s') == Holds(s)[i := s'.threads[i].held];
    assert Holds(s)[i := t.held] == Holds(s);
    if t.pc.Granted? {
      GrantedAlone(s, i);
    }
  }

  // ----- waking -----

  ghost predicate SomeWaits(s: State, m: Mode) {
    exists j :: 0 <= j < |s.threads| && InWait(s.threads[j], m)
  }

  /** An unlock that leaves the lock free and somebody waiting wakes a writer if there is one, else all readers. */
  lemma UnlockWakes(n: nat, steps: seq<(nat, Choice)>, i: nat, c: Choice)
    requires i < n
    ensures var s := After(n, steps);
            s.threads[i].pc.Waking? && s.refcount == 0 ==>
              Step(s, i, c).wakes == s.wakes +
                if SomeWaits(s, Writer) then [OneWriter] else if SomeWaits(s, Reader) then [AllReaders] else []
  {
    var s := After(n, steps);
    AfterInv(n, steps);
    SumZero(s.threads, WAITS(Writer));
    SumZero(s.threads, WAITS(Reader));
    forall j, m | 0 <= j < |s.threads| ensures InWait(s.threads[j], m) <==> WAITS(m)(s.threads[j]) == 1 {
    }
  }
}
