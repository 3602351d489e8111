/**
The script-check queue (src/checkqueue.h): one master thread and any number of
workers share a stack of checks under one mutex and two condition variables.

Everything a thread does while it holds the mutex is one atomic step, and so is the
evaluation of one check outside the mutex.  A run is any interleaving of these steps,
with spurious wake-ups allowed.  Thread 0 is the master.
*/
module CheckQueue {

  /** A queued verification, with the answer its operator() will give. */
  datatype Check = Check(id: nat, passes: bool)

  /** The fields that the mutex protects (fQuit is never set, so it is left out). */
  datatype Shared = Shared(queue: seq<Check>, nIdle: int, nTotal: int, fAllOk: bool, nTodo: int, nBatchSize: nat)

  /**
  Where a thread is whenever the mutex is free: outside Loop, evaluating the batch it
  took (`done` checks of it so far), or blocked on its condition variable.
  */
  datatype Phase =
    | Out
    | Holding(batch: seq<Check>, done: nat, fOk: bool)
    | Asleep(signalled: bool)

  datatype State = State(shared: Shared, threads: seq<Phase>)

  datatype Event =
    | Added(checks: seq<Check>)
    | Evaluated(thread: nat)
    | Took(thread: nat, batch: seq<Check>)
    | Slept(thread: nat)
    | Returned(result: bool)

  /** What one pass through the critical section of Loop ends with. */
  datatype Outcome = Take(batch: seq<Check>) | Sleep | Return(result: bool)

  const MASTER: nat := 0
  const UINT_MODULUS: int := 0x1_0000_0000

  //
  // The critical section of Loop, and Add, on the shared fields.
  //

  function Max(a: int, b: int): int { if a < b then b else a }

  function Min(a: int, b: int): int { if a < b then a else b }

  function BatchSize(sh: Shared): int
    requires sh.nTotal + sh.nIdle + 1 > 0
  {
    Max(1, Min(sh.nBatchSize, |sh.queue| / (sh.nTotal + sh.nIdle + 1)))
  }

  function Reversed(s: seq<Check>): (r: seq<Check>)
    ensures |r| == |s|
    ensures forall i :: 0 <= i < |s| ==> r[i] == s[|s| - 1 - i]
  {
    seq(|s|, i requires 0 <= i < |s| => s[|s| - 1 - i])
  }

  /** Clean-up after a batch, first entry, or return from cond.wait (lines 80-89 and 103). */
  function Arrive(sh: Shared, p: Phase): Shared {
    match p
    case Out => sh.(nTotal := sh.nTotal + 1)
    case Holding(batch, _, fOk) =>
      sh.(fAllOk := sh.fAllOk && fOk, nTodo := (sh.nTodo - |batch|) % UINT_MODULUS)
    case Asleep(_) => sh.(nIdle := sh.nIdle - 1)
  }

  /** The rest of the critical section (lines 91-119). */
  function Decide(sh: Shared, fMaster: bool): (r: (Shared, Outcome))
    requires sh.nTotal + sh.nIdle + 1 > 0
  {
    if sh.queue == [] then
      if fMaster && sh.nTodo == 0 then
        (sh.(nTotal := sh.nTotal - 1, fAllOk := true), Return(sh.fAllOk))
      else
        (sh.(nIdle := sh.nIdle + 1), Sleep)
    else
      var left := Max(0, |sh.queue| - BatchSize(sh));
      (sh.(queue := sh.queue[..left]), Take(Reversed(sh.queue[left..])))
  }

  function Push(sh: Shared, checks: seq<Check>): Shared {
    sh.(queue := sh.queue + checks, nTodo := (sh.nTodo + |checks|) % UINT_MODULUS)
  }

  //
  // The same two critical sections as the source runs them, on mutable fields.
  //

  class Queue {
    var queue: seq<Check>
    var nIdle: int
    var nTotal: int
    var fAllOk: bool
    var nTodo: int
    const nBatchSize: nat

    function Value(): Shared
      reads this
    {
      Shared(queue, nIdle, nTotal, fAllOk, nTodo, nBatchSize)
    }

    constructor (batchSize: nat)
      ensures Value() == Shared([], 0, 0, true, 0, batchSize)
    {
      queue, nIdle, nTotal, fAllOk, nTodo, nBatchSize := [], 0, 0, true, 0, batchSize;
    }

    method Add(checks: seq<Check>)
      modifies this
      ensures Value() == Push(old(Value()), checks)
    {
      var i := 0;
      while i < |checks|
        invariant 0 <= i <= |checks|
        invariant queue == old(queue) + checks[..i]
        invariant nIdle == old(nIdle) && nTotal == old(nTotal) && fAllOk == old(fAllOk) && nTodo == old(nTodo)
      {
        queue := queue + [checks[i]];
        i := i + 1;
      }
      nTodo := (nTodo + |checks|) % UINT_MODULUS;
    }

    /** Pop n checks off the back of the queue into a batch (lines 111-117). */
    method Pop(n: nat) returns (vChecks: seq<Check>)
      requires n <= |queue|
      modifies this`queue
      ensures queue == old(queue)[..|old(queue)| - n]
      ensures vChecks == Reversed(old(queue)[|old(queue)| - n..])
    {
      vChecks := [];
      var i := 0;
      while i < n
        invariant 0 <= i <= n
        invariant queue == old(queue)[..|old(queue)| - i]
        invariant |vChecks| == i && forall j :: 0 <= j < i ==> vChecks[j] == old(queue)[|old(queue)| - 1 - j]
      {
        vChecks := vChecks + [queue[|queue| - 1]];
        queue := queue[..|queue| - 1];
        i := i + 1;
      }
    }

    /** One pass of Loop's do-body up to the release of the mutex. */
    method Enter(p: Phase, fMaster: bool) returns (outcome: Outcome, notifyMaster: bool)
      requires nTotal >= 0 && nIdle >= (if p.Asleep? then 1 else 0)
      modifies this
      ensures Arrive(old(Value()), p).nTotal + Arrive(old(Value()), p).nIdle + 1 > 0
      ensures (Value(), outcome) == Decide(Arrive(old(Value()), p), fMaster)
      ensures notifyMaster == (p.Holding? && Arrive(old(Value()), p).nTodo == 0 && !fMaster)
    {
      hide BatchSize;
      hide Reversed;
      notifyMaster := false;
      match p {
        case Out =>
          nTotal := nTotal + 1;
        case Holding(batch, _, fOk) =>
          fAllOk := fAllOk && fOk;
          nTodo := (nTodo - |batch|) % UINT_MODULUS;
          notifyMaster := nTodo == 0 && !fMaster;
        case Asleep(_) =>
          nIdle := nIdle - 1;
      }
      if queue == [] {
        if fMaster && nTodo == 0 {
          nTotal := nTotal - 1;
          outcome := Return(fAllOk);
          fAllOk := true;
        } else {
          nIdle := nIdle + 1;
          outcome := Sleep;
        }
      } else {
        BatchFits(Value());
        var vChecks := Pop(BatchSize(Value()));
        outcome := Take(vChecks);
      }
    }
  }

  /**
  A batch of more than one check is within the configured size and within an equal share among all threads and once
  more the idle ones; and the batch is as large as these two allow.
  */
  lemma BatchShare(sh: Shared)
    requires sh.nTotal >= 0 && sh.nIdle >= 0
    ensures var b, d := BatchSize(sh), sh.nTotal + sh.nIdle + 1;
            && (b > 1 ==> b <= sh.nBatchSize && b * d <= |sh.queue|)
            && (b >= sh.nBatchSize || (b + 1) * d > |sh.queue|)
  {
    var n, d := |sh.queue|, sh.nTotal + sh.nIdle + 1;
    Floor(n, d);
    Share(n, d, n / d, BatchSize(sh));
  }

  lemma Floor(n: nat, d: nat)
    requires d >= 1
    ensures (n / d) * d <= n < (n / d) * d + d
  {
  }

  lemma AtMost(a: int, b: int, d: nat)
    requires a <= b
    ensures a * d <= b * d && (b + 1) * d == b * d + d
  {
  }

  lemma Share(n: nat, d: nat, q: int, b: int)
    requires q * d <= n < q * d + d
    ensures b <= q ==> b * d <= n
    ensures b >= q ==> (b + 1) * d > n
  {
    if b <= q {
      AtMost(b, q, d);
    }
    if b >= q {
      AtMost(q, b, d);
    }
  }

  /** A batch is never empty and never larger than the queue. */
  lemma BatchFits(sh: Shared)
    requires sh.nTotal >= 0 && sh.nIdle >= 0 && sh.queue != []
    ensures 1 <= BatchSize(sh) <= |sh.queue|
  {
    var n, d := |sh.queue|, sh.nTotal + sh.nIdle + 1;
    assert n / d <= n by {
      assert d * (n / d) <= n;
    }
  }

  //
  // Steps of the protocol.
  //

  function Notified(p: Phase): Phase {
    if p.Asleep? then Asleep(true) else p
  }

  /** Thread t acquires the mutex and runs the critical section. */
  function SectionState(s: State, t: nat): (r: (Shared, Outcome))
    requires t < |s.threads| && s.shared.nTotal >= 0 && s.shared.nIdle >= 0
    requires s.threads[t].Asleep? ==> s.shared.nIdle >= 1
  {
    Decide(Arrive(s.shared, s.threads[t]), t == MASTER)
  }

  predicate Wakes(s: State, t: nat)
    requires t < |s.threads|
  {
    s.threads[t].Holding? && t != MASTER && Arrive(s.shared, s.threads[t]).nTodo == 0
  }

  function PhaseAfter(sh: Shared, o: Outcome): Phase {
    match o
    case Take(batch) => Holding(batch, 0, sh.fAllOk)
    case Sleep => Asleep(false)
    case Return(_) => Out
  }

  function EventOf(t: nat, o: Outcome): Event {
    match o
    case Take(batch) => Took(t, batch)
    case Sleep => Slept(t)
    case Return(r) => Returned(r)
  }

  function AfterSection(s: State, t: nat): (r: (State, Event))
    requires t < |s.threads| && s.shared.nTotal >= 0 && s.shared.nIdle >= 0
    requires s.threads[t].Asleep? ==> s.shared.nIdle >= 1
  {
    var (sh, o) := SectionState(s, t);
    var woken := if Wakes(s, t) then s.threads[MASTER := Notified(s.threads[MASTER])] else s.threads;
    (State(sh, woken[t := PhaseAfter(sh, o)]), EventOf(t, o))
  }

  function Master(s: State): Phase {
    if s.threads == [] then Out else s.threads[MASTER]
  }

  ghost predicate Init(s: State) {
    && s.shared == Shared([], 0, 0, true, 0, s.shared.nBatchSize)
    && |s.threads| >= 1
    && forall t :: 0 <= t < |s.threads| ==> s.threads[t] == Out
  }

  /** A thread may acquire the mutex unless it still has checks of its batch to evaluate. */
  ghost predicate MayEnter(s: State, t: nat) {
    && t < |s.threads| && s.shared.nTotal >= 0 && s.shared.nIdle >= 0
    && (s.threads[t].Asleep? ==> s.shared.nIdle >= 1)
    && (s.threads[t].Holding? ==> s.threads[t].done == |s.threads[t].batch|)
  }

  ghost predicate SectionStep(s: State, e: Event, s': State, t: nat) {
    MayEnter(s, t) && AfterSection(s, t) == (s', e)
  }

  /** Outside the mutex: evaluate the next check of the batch, unless one has failed. */
  ghost predicate EvaluateStep(s: State, e: Event, s': State, t: nat) {
    && t < |s.threads| && s.threads[t].Holding? && s.threads[t].done < |s.threads[t].batch|
    && e == Evaluated(t)
    && var p := s.threads[t];
       s' == s.(threads := s.threads[t := p.(done := p.done + 1, fOk := p.fOk && p.batch[p.done].passes)])
  }

  /** Sleeping workers that Add signals: one of them for one check, all of them for more. */
  ghost predicate Signalled(before: seq<Phase>, after: seq<Phase>, checks: seq<Check>) {
    && |after| == |before|
    && (forall t :: 0 <= t < |before| ==> after[t] == before[t] || (t != MASTER && after[t] == Notified(before[t])))
    && (|checks| > 1 ==> forall t :: 0 < t < |before| ==> after[t] == Notified(before[t]))
  }

  /** The master adds checks between its calls of Wait; the counter is an unsigned int. */
  ghost predicate AddStep(s: State, e: Event, s': State) {
    && e.Added? && |s.threads| >= 1 && s.threads[MASTER] == Out
    && s.shared.nTodo + |e.checks| < UINT_MODULUS
    && s'.shared == Push(s.shared, e.checks)
    && Signalled(s.threads, s'.threads, e.checks)
  }

  ghost predicate Next(s: State, e: Event, s': State) {
    || AddStep(s, e, s')
    || (exists t: nat :: EvaluateStep(s, e, s', t))
    || (exists t: nat :: SectionStep(s, e, s', t))
  }

  ghost predicate IsRun(states: seq<State>, events: seq<Event>) {
    && |states| == |events| + 1
    && Init(states[0])
    && forall i :: 0 <= i < |events| ==> Next(states[i], events[i], states[i + 1])
  }

  //
  // What a run has done so far, read off its events alone.
  //

  function AddedSinceReturn(events: seq<Event>): seq<Check> {
    if events == [] then []
    else
      var last := events[|events| - 1];
      var before := AddedSinceReturn(events[..|events| - 1]);
      match last
      case Added(checks) => before + checks
      case Returned(_) => []
      case _ => before
  }

  function TakenSinceReturn(events: seq<Event>): seq<Check> {
    if events == [] then []
    else
      var last := events[|events| - 1];
      var before := TakenSinceReturn(events[..|events| - 1]);
      match last
      case Took(_, batch) => before + batch
      case Returned(_) => []
      case _ => before
  }

  ghost predicate AllPass(checks: seq<Check>) {
    forall i :: 0 <= i < |checks| ==> checks[i].passes
  }

  //
  // Sums over the threads.
  //

  function Total(f: Phase -> int, ts: seq<Phase>): int {
    if ts == [] then 0 else f(ts[0]) + Total(f, ts[1..])
  }

  lemma {:induction false} TotalUpdate(f: Phase -> int, ts: seq<Phase>, t: nat, p: Phase)
    requires t < |ts|
    ensures Total(f, ts[t := p]) == Total(f, ts) - f(ts[t]) + f(p)
  {
    if t > 0 {
      assert ts[t := p][1..] == ts[1..][t - 1 := p];
      TotalUpdate(f, ts[1..], t - 1, p);
    } else {
      assert ts[t := p][1..] == ts[1..];
    }
  }

  lemma {:induction false} TotalBounds(f: Phase -> int, ts: seq<Phase>)
    requires forall p :: f(p) >= 0
    ensures Total(f, ts) >= 0
    ensures forall t :: 0 <= t < |ts| ==> f(ts[t]) <= Total(f, ts)
  {
    if ts != [] {
      TotalBounds(f, ts[1..]);
      forall t | 0 <= t < |ts| ensures f(ts[t]) <= Total(f, ts) {
        assert t > 0 ==> ts[t] == ts[1..][t - 1];
      }
    }
  }

  lemma {:induction false} TotalZero(f: Phase -> int, ts: seq<Phase>)
    requires forall t :: 0 <= t < |ts| ==> f(ts[t]) == 0
    ensures Total(f, ts) == 0
  {
    if ts != [] {
      TotalZero(f, ts[1..]);
    }
  }

  lemma {:induction false} TotalSame(f: Phase -> int, xs: seq<Phase>, ys: seq<Phase>)
    requires |xs| == |ys| && forall t :: 0 <= t < |xs| ==> f(xs[t]) == f(ys[t])
    ensures Total(f, xs) == Total(f, ys)
  {
    if xs != [] {
      TotalSame(f, xs[1..], ys[1..]);
    }
  }

  const Held: Phase -> int := (p: Phase) => if p.Holding? then |p.batch| else 0
  const Idle: Phase -> int := (p: Phase) => if p.Asleep? then 1 else 0
  const Inside: Phase -> int := (p: Phase) => if p.Out? then 0 else 1

  //
  // The invariant.
  //

  ghost predicate BatchOk(p: Phase) {
    p.Holding? ==> |p.batch| > 0 && p.done <= |p.batch|
  }

  ghost predicate Counts(s: State) {
    && s.shared.nTodo == |s.shared.queue| + Total(Held, s.threads)
    && s.shared.nTodo < UINT_MODULUS
    && s.shared.nIdle == Total(Idle, s.threads)
    && s.shared.nTotal == Total(Inside, s.threads)
  }

  /** No lost wake-up: a master asleep and not signalled still waits for a batch. */
  ghost predicate MasterWillWake(s: State)
    requires |s.threads| >= 1
  {
    s.threads[MASTER] == Asleep(false) ==> s.shared.queue == [] && s.shared.nTodo > 0
  }

  /** Only checks added before a Wait are processed in it: a sleeping master leaves the queue empty. */
  ghost predicate Inv(s: State) {
    && |s.threads| >= 1
    && (forall t :: 0 <= t < |s.threads| ==> BatchOk(s.threads[t]))
    && Counts(s)
    && MasterWillWake(s)
  }

  /** What is left of a thread's verdict once its batch has been evaluated. */
  ghost predicate WillPass(p: Phase) {
    p.Holding? && p.done <= |p.batch| ==> p.fOk && AllPass(p.batch[p.done..])
  }

  /** The answer Wait is heading for. */
  ghost predicate Verdict(s: State) {
    && s.shared.fAllOk
    && AllPass(s.shared.queue)
    && forall t :: 0 <= t < |s.threads| ==> WillPass(s.threads[t])
  }

  /** The state agrees with the events so far. */
  ghost predicate Ledger(s: State, events: seq<Event>) {
    && multiset(AddedSinceReturn(events)) == multiset(s.shared.queue) + multiset(TakenSinceReturn(events))
    && (Verdict(s) <==> AllPass(AddedSinceReturn(events)))
  }

  lemma SizesNonNegative(s: State)
    ensures Total(Held, s.threads) >= 0 && Total(Idle, s.threads) >= 0 && Total(Inside, s.threads) >= 0
    ensures forall t :: 0 <= t < |s.threads| ==> Held(s.threads[t]) <= Total(Held, s.threads)
    ensures forall t :: 0 <= t < |s.threads| ==> Idle(s.threads[t]) <= Total(Idle, s.threads)
    ensures forall t :: 0 <= t < |s.threads| ==> Inside(s.threads[t]) <= Total(Inside, s.threads)
  {
    TotalBounds(Held, s.threads);
    TotalBounds(Idle, s.threads);
    TotalBounds(Inside, s.threads);
  }

  lemma InitInv(s: State)
    requires Init(s)
    ensures Inv(s) && Ledger(s, [])
  {
    TotalZero(Held, s.threads);
    TotalZero(Idle, s.threads);
    TotalZero(Inside, s.threads);
  }

  lemma AddKeeps(s: State, e: Event, s': State)
    requires Inv(s) && AddStep(s, e, s')
    ensures Inv(s')
  {
    TotalSame(Held, s.threads, s'.threads);
    TotalSame(Idle, s.threads, s'.threads);
    TotalSame(Inside, s.threads, s'.threads);
    SizesNonNegative(s);
  }

  lemma EvaluateKeeps(s: State, e: Event, s': State, t: nat)
    requires Inv(s) && EvaluateStep(s, e, s', t)
    ensures Inv(s')
  {
    TotalUpdate(Held, s.threads, t, s'.threads[t]);
    TotalUpdate(Idle, s.threads, t, s'.threads[t]);
    TotalUpdate(Inside, s.threads, t, s'.threads[t]);
  }

  /** The thread list after the notification that may precede t's own change of phase. */
  function Woken(s: State, t: nat): seq<Phase>
    requires t < |s.threads|
  {
    if Wakes(s, t) then s.threads[MASTER := Notified(s.threads[MASTER])] else s.threads
  }

  /** Everything a critical section does to the counters, in one place. */
  lemma SectionCounts(s: State, e: Event, s': State, t: nat)
    requires Inv(s) && SectionStep(s, e, s', t)
    ensures Counts(s')
  {
    hide Reversed;
    hide BatchSize;
    hide Total;
    var woken := Woken(s, t);
    TotalSame(Held, s.threads, woken);
    TotalSame(Idle, s.threads, woken);
    TotalSame(Inside, s.threads, woken);
    TotalUpdate(Held, woken, t, s'.threads[t]);
    TotalUpdate(Idle, woken, t, s'.threads[t]);
    TotalUpdate(Inside, woken, t, s'.threads[t]);
    SizesNonNegative(s);
    SizesNonNegative(s');
    ArriveSpec(s, t);
    var sh := Arrive(s.shared, s.threads[t]);
    if sh.queue != [] {
      BatchFits(sh);
    }
  }

  lemma ArriveSpec(s: State, t: nat)
    requires Inv(s) && MayEnter(s, t)
    ensures var sh := Arrive(s.shared, s.threads[t]);
            sh.nTotal >= 0 && sh.nIdle >= 0 && sh.nTodo == s.shared.nTodo - Held(s.threads[t]) && sh.queue == s.shared.queue
  {
    SizesNonNegative(s);
  }

  lemma SectionKeeps(s: State, e: Event, s': State, t: nat)
    requires Inv(s) && SectionStep(s, e, s', t)
    ensures Inv(s')
  {
    SectionCounts(s, e, s', t);
    ArriveSpec(s, t);
    SizesNonNegative(s);
    SizesNonNegative(s');
    var sh := Arrive(s.shared, s.threads[t]);
    if sh.queue != [] {
      BatchFits(sh);
    }
  }

  lemma NextKeepsInv(s: State, e: Event, s': State)
    requires Inv(s) && Next(s, e, s')
    ensures Inv(s')
  {
    if AddStep(s, e, s') {
      AddKeeps(s, e, s');
    } else if t: nat :| EvaluateStep(s, e, s', t) {
      EvaluateKeeps(s, e, s', t);
    } else {
      var t: nat :| SectionStep(s, e, s', t);
      SectionKeeps(s, e, s', t);
    }
  }

  //
  // The ledger.
  //

  lemma AllPassConcat(a: seq<Check>, b: seq<Check>)
    ensures AllPass(a + b) <==> AllPass(a) && AllPass(b)
  {
    if AllPass(a + b) {
      forall i | 0 <= i < |a| ensures a[i].passes { assert a[i] == (a + b)[i]; }
      forall i | 0 <= i < |b| ensures b[i].passes { assert b[i] == (a + b)[|a| + i]; }
    }
  }

  lemma ReversedSame(s: seq<Check>)
    ensures AllPass(Reversed(s)) <==> AllPass(s)
    ensures multiset(Reversed(s)) == multiset(s)
  {
    if AllPass(Reversed(s)) {
      forall i | 0 <= i < |s| ensures s[i].passes { assert s[i] == Reversed(s)[|s| - 1 - i]; }
    }
    ReversedMultiset(s);
  }

  lemma {:induction false} ReversedMultiset(s: seq<Check>)
    ensures multiset(Reversed(s)) == multiset(s)
  {
    if s == [] {
      assert Reversed(s) == [];
    } else {
      var rest := s[1..];
      assert Reversed(s) == Reversed(rest) + [s[0]];
      assert s == [s[0]] + rest;
      ReversedMultiset(rest);
    }
  }

  lemma AddLedger(s: State, e: Event, s': State, events: seq<Event>)
    requires Inv(s) && AddStep(s, e, s') && Ledger(s, events)
    ensures Ledger(s', events + [e])
  {
    var events' := events + [e];
    assert events'[..|events|] == events;
    AllPassConcat(AddedSinceReturn(events), e.checks);
    AllPassConcat(s.shared.queue, e.checks);
    assert forall t :: 0 <= t < |s.threads| ==> WillPass(s'.threads[t]) == WillPass(s.threads[t]);
  }

  lemma EvaluateLedger(s: State, e: Event, s': State, t: nat, events: seq<Event>)
    requires Inv(s) && EvaluateStep(s, e, s', t) && Ledger(s, events)
    ensures Ledger(s', events + [e])
  {
    var events' := events + [e];
    assert events'[..|events|] == events;
    var p := s.threads[t];
    assert p.batch[p.done..] == [p.batch[p.done]] + p.batch[p.done + 1..];
    AllPassConcat([p.batch[p.done]], p.batch[p.done + 1..]);
    assert [p.batch[p.done]][0] == p.batch[p.done];
    assert WillPass(s'.threads[t]) == WillPass(p);
    assert forall u :: 0 <= u < |s.threads| ==> WillPass(s'.threads[u]) == WillPass(s.threads[u]);
  }

  /** The verdict of the state, once the thread's own part has been merged into fAllOk. */
  lemma ArriveVerdict(s: State, t: nat)
    requires Inv(s) && MayEnter(s, t)
    ensures Verdict(s) <==>
            (&& Arrive(s.shared, s.threads[t]).fAllOk
             && AllPass(s.shared.queue)
             && forall u :: 0 <= u < |s.threads| && u != t ==> WillPass(s.threads[u]))
  {
    var p := s.threads[t];
    if p.Holding? {
      assert p.batch[p.done..] == [];
    }
    assert WillPass(p) <==> (p.Holding? ==> p.fOk);
  }

  lemma SectionLedger(s: State, e: Event, s': State, t: nat, events: seq<Event>)
    requires Inv(s) && SectionStep(s, e, s', t) && Ledger(s, events)
    ensures Ledger(s', events + [e])
    ensures e.Returned? ==> (e.result <==> AllPass(AddedSinceReturn(events)))
    ensures e.Returned? ==> multiset(AddedSinceReturn(events)) == multiset(TakenSinceReturn(events))
  {
    var events' := events + [e];
    assert events'[..|events|] == events;
    match e {
      case Returned(_) => ReturnLedger(s, e, s', t);
      case Took(_, _) => TakeLedger(s, e, s', t);
      case _ => SleepLedger(s, e, s', t);
    }
  }

  lemma SleepLedger(s: State, e: Event, s': State, t: nat)
    requires Inv(s) && SectionStep(s, e, s', t) && !e.Returned? && !e.Took?
    ensures e.Slept? && Verdict(s') == Verdict(s) && s'.shared.queue == s.shared.queue
  {
    ArriveSpec(s, t);
    ArriveVerdict(s, t);
    assert WillPass(s'.threads[t]);
    assert forall u :: 0 <= u < |s.threads| && u != t ==> WillPass(s'.threads[u]) == WillPass(s.threads[u]);
  }

  /** When Wait returns nothing is held any more, so the answer is the whole verdict. */
  lemma ReturnLedger(s: State, e: Event, s': State, t: nat)
    requires Inv(s) && SectionStep(s, e, s', t) && e.Returned?
    ensures e.result == Verdict(s) && Verdict(s') && s'.shared.queue == [] == s.shared.queue
  {
    ArriveSpec(s, t);
    ArriveVerdict(s, t);
    SizesNonNegative(s);
    SectionKeeps(s, e, s', t);
    SizesNonNegative(s');
    assert forall u :: 0 <= u < |s'.threads| ==> Held(s'.threads[u]) == 0;
    assert forall u :: 0 <= u < |s'.threads| ==> BatchOk(s'.threads[u]);
    assert forall u :: 0 <= u < |s.threads| && u != t ==> s'.threads[u] == s.threads[u];
  }

  lemma TakeLedger(s: State, e: Event, s': State, t: nat)
    requires Inv(s) && SectionStep(s, e, s', t) && e.Took?
    ensures Verdict(s') == Verdict(s)
    ensures multiset(s.shared.queue) == multiset(s'.shared.queue) + multiset(e.batch)
  {
    ArriveSpec(s, t);
    var sh := Arrive(s.shared, s.threads[t]);
    TakeSplits(sh, t == MASTER);
    assert e.batch[0..] == e.batch;
    assert WillPass(s'.threads[t]) <==> sh.fAllOk && AllPass(e.batch);
    assert forall u :: 0 <= u < |s.threads| && u != t ==> WillPass(s'.threads[u]) == WillPass(s.threads[u]);
    ArriveVerdict(s, t);
  }

  lemma TakeSplits(sh: Shared, fMaster: bool)
    requires sh.nTotal >= 0 && sh.nIdle >= 0 && sh.queue != []
    ensures var (sh', o) := Decide(sh, fMaster);
            && o.Take? && sh'.fAllOk == sh.fAllOk
            && (AllPass(sh.queue) <==> AllPass(sh'.queue) && AllPass(o.batch))
            && multiset(sh.queue) == multiset(sh'.queue) + multiset(o.batch)
  {
    BatchFits(sh);
    var left := |sh.queue| - BatchSize(sh);
    var rest, taken := sh.queue[..left], sh.queue[left..];
    assert sh.queue == rest + taken;
    AllPassConcat(rest, taken);
    ReversedSame(taken);
  }

  lemma NextKeepsLedger(s: State, e: Event, s': State, events: seq<Event>)
    requires Inv(s) && Next(s, e, s') && Ledger(s, events)
    ensures Ledger(s', events + [e])
  {
    if AddStep(s, e, s') {
      AddLedger(s, e, s', events);
    } else if t: nat :| EvaluateStep(s, e, s', t) {
      EvaluateLedger(s, e, s', t, events);
    } else {
      var t: nat :| SectionStep(s, e, s', t);
      SectionLedger(s, e, s', t, events);
    }
  }

  //
  // The theorems, over every run.
  //

  /** The invariant and the ledger hold after every run. */
  lemma {:induction false} RunInv(states: seq<State>, events: seq<Event>)
    requires IsRun(states, events)
    ensures Inv(states[|events|]) && Ledger(states[|events|], events)
  {
    if events == [] {
      InitInv(states[0]);
    } else {
      var n := |events| - 1;
      var states0, events0 := states[..n + 1], events[..n];
      RunInv(states0, events0);
      NextKeepsInv(states[n], events[n], states[n + 1]);
      NextKeepsLedger(states[n], events[n], states[n + 1], events0);
      assert events == events0 + [events[n]];
    }
  }

  /**
  Wait answers true exactly when every check added since the previous Wait passes, and
  by then each of these checks has been taken into exactly one batch.
  */
  lemma WaitIsCorrect(states: seq<State>, events: seq<Event>)
    requires IsRun(states, events) && events != [] && events[|events| - 1].Returned?
    ensures var before := events[..|events| - 1];
            && (events[|events| - 1].result <==> AllPass(AddedSinceReturn(before)))
            && multiset(AddedSinceReturn(before)) == multiset(TakenSinceReturn(before))
  {
    var n := |events| - 1;
    RunInv(states[..n + 1], events[..n]);
    var t: nat :| SectionStep(states[n], events[n], states[n + 1], t);
    SectionLedger(states[n], events[n], states[n + 1], t, events[..n]);
  }

  /** nTodo counts the queued checks and the checks in held batches, in every reachable state. */
  lemma TodoIsExact(states: seq<State>, events: seq<Event>)
    requires IsRun(states, events)
    ensures var s := states[|events|]; s.shared.nTodo == |s.shared.queue| + Total(Held, s.threads)
  {
    RunInv(states, events);
  }

  /** A master asleep without a pending signal is waiting for some worker's non-empty batch. */
  lemma NoLostWakeup(states: seq<State>, events: seq<Event>)
    requires IsRun(states, events) && Master(states[|events|]) == Asleep(false)
    ensures exists t :: 0 < t < |states[|events|].threads| && states[|events|].threads[t].Holding?
                        && states[|events|].threads[t].batch != []
  {
    RunInv(states, events);
    var s := states[|events|];
    if forall t :: 0 <= t < |s.threads| ==> !s.threads[t].Holding? {
      TotalZero(Held, s.threads);
      assert false;
    }
  }

  /** The test of IsIdle (line 167), which CCheckQueueControl's constructor asserts. */
  predicate IsIdle(sh: Shared) {
    sh.nTotal == sh.nIdle && sh.nTodo == 0 && sh.fAllOk
  }

  lemma HeldByOne(ts: seq<Phase>, t: nat)
    requires t < |ts| && forall u :: 0 <= u < |ts| ==> BatchOk(ts[u])
    ensures Total(Held, ts) == Held(ts[t]) <==> forall u :: 0 <= u < |ts| && u != t ==> !ts[u].Holding?
  {
    TotalUpdate(Held, ts, t, Out);
    var others := ts[t := Out];
    TotalBounds(Held, others);
    if forall u :: 0 <= u < |ts| && u != t ==> !ts[u].Holding? {
      TotalZero(Held, others);
    } else {
      var u :| 0 <= u < |ts| && u != t && ts[u].Holding?;
      assert Held(others[u]) > 0;
    }
  }

  /** In every run a worker wakes the master exactly when it brings back the last outstanding batch. */
  lemma LastBatchWakes(states: seq<State>, events: seq<Event>, t: nat)
    requires IsRun(states, events) && t < |states[|events|].threads|
    ensures var s := states[|events|];
            Wakes(s, t) <==>
              && t != 0 && s.threads[t].Holding? && s.shared.queue == []
              && forall u :: 0 <= u < |s.threads| && u != t ==> !s.threads[u].Holding?
  {
    RunInv(states, events);
    var s := states[|events|];
    SizesNonNegative(s);
    HeldByOne(s.threads, t);
  }

  /** Whenever the queue reports itself idle, nothing is queued and no thread holds a batch. */
  lemma IdleMeans(states: seq<State>, events: seq<Event>)
    requires IsRun(states, events) && IsIdle(states[|events|].shared)
    ensures var s := states[|events|];
            s.shared.queue == [] && s.shared.fAllOk && forall t :: 0 <= t < |s.threads| ==> !s.threads[t].Holding?
  {
    RunInv(states, events);
    var s := states[|events|];
    SizesNonNegative(s);
    forall t | 0 <= t < |s.threads| ensures !s.threads[t].Holding? {
      assert BatchOk(s.threads[t]) && Held(s.threads[t]) <= Total(Held, s.threads);
    }
  }

  /** Nothing taken and nothing added since the last Wait: the queue reports itself idle. */
  lemma IdleBetweenWaits(states: seq<State>, events: seq<Event>)
    requires IsRun(states, events) && AddedSinceReturn(events) == []
    requires Master(states[|events|]) == Out
    ensures IsIdle(states[|events|].shared)
  {
    RunInv(states, events);
    var s := states[|events|];
    assert |multiset(s.shared.queue)| == 0;
    HeldWereTaken(states, events);
    assert |multiset(TakenSinceReturn(events))| == 0;
    forall t | 0 <= t < |s.threads| ensures !s.threads[t].Holding? {
      NothingTakenNothingHeld(s.threads[t], TakenSinceReturn(events));
    }
    TotalZero(Held, s.threads);
    assert forall t :: 0 <= t < |s.threads| ==> Idle(s.threads[t]) == Inside(s.threads[t]);
    IdleIsInside(s.threads);
  }

  lemma {:induction false} IdleIsInside(ts: seq<Phase>)
    requires forall t :: 0 <= t < |ts| ==> Idle(ts[t]) == Inside(ts[t])
    ensures Total(Idle, ts) == Total(Inside, ts)
  {
    if ts != [] {
      IdleIsInside(ts[1..]);
    }
  }

  ghost predicate HeldFrom(p: Phase, taken: seq<Check>) {
    p.Holding? ==> forall c :: c in p.batch ==> c in taken
  }

  lemma NothingTakenNothingHeld(p: Phase, taken: seq<Check>)
    requires BatchOk(p) && HeldFrom(p, taken)
    ensures p.Holding? ==> taken != []
  {
    if p.Holding? {
      assert p.batch[0] in p.batch;
    }
  }

  /** Held batches are part of what was taken in this round. */
  lemma {:induction false} HeldWereTaken(states: seq<State>, events: seq<Event>)
    requires IsRun(states, events)
    ensures forall t :: 0 <= t < |states[|events|].threads| ==>
              HeldFrom(states[|events|].threads[t], TakenSinceReturn(events))
  {
    if events != [] {
      var n := |events| - 1;
      var before := events[..n];
      HeldWereTaken(states[..n + 1], before);
      RunInv(states[..n + 1], before);
      assert events == before + [events[n]];
      HeldStep(states[n], events[n], states[n + 1], before);
    }
  }

  lemma HeldStep(s: State, e: Event, s': State, before: seq<Event>)
    requires Inv(s) && Next(s, e, s')
    requires forall t :: 0 <= t < |s.threads| ==> HeldFrom(s.threads[t], TakenSinceReturn(before))
    ensures forall t :: 0 <= t < |s'.threads| ==> HeldFrom(s'.threads[t], TakenSinceReturn(before + [e]))
  {
    assert (before + [e])[..|before|] == before;
    var taken, taken' := TakenSinceReturn(before), TakenSinceReturn(before + [e]);
    if AddStep(s, e, s') {
      assert taken' == taken;
    } else if t: nat :| EvaluateStep(s, e, s', t) {
      assert taken' == taken;
    } else {
      var t: nat :| SectionStep(s, e, s', t);
      if e.Returned? {
        ReturnHoldsNothing(s, e, s', t);
      } else {
        HeldSection(s, e, s', t, taken);
      }
    }
  }

  lemma ReturnHoldsNothing(s: State, e: Event, s': State, t: nat)
    requires Inv(s) && SectionStep(s, e, s', t) && e.Returned?
    ensures forall u :: 0 <= u < |s'.threads| ==> !s'.threads[u].Holding?
  {
    ReturnLedger(s, e, s', t);
    SectionKeeps(s, e, s', t);
    SizesNonNegative(s');
  }

  lemma HeldSection(s: State, e: Event, s': State, t: nat, taken: seq<Check>)
    requires Inv(s) && SectionStep(s, e, s', t)
    requires forall u :: 0 <= u < |s.threads| ==> HeldFrom(s.threads[u], taken)
    ensures e.Took? ==> forall u :: 0 <= u < |s'.threads| ==> HeldFrom(s'.threads[u], taken + e.batch)
    ensures !e.Took? ==> forall u :: 0 <= u < |s'.threads| ==> HeldFrom(s'.threads[u], taken)
  {
    hide Inv;
    ArriveSpec(s, t);
    forall u | 0 <= u < |s'.threads| && u != t ensures s'.threads[u].Holding? ==> s'.threads[u] == s.threads[u] {
    }
  }

  //
  // Progress: inside Wait some thread can always move without a spurious wake-up, and
  // every such move brings the return closer.
  //

  /** A move that needs no spurious wake-up. */
  ghost predicate CanMove(s: State, t: nat) {
    t < |s.threads| && (s.threads[t].Holding? || s.threads[t] == Asleep(true))
  }

  /** A thread that can move has a step to make, which is neither an Add nor a spurious wake-up. */
  lemma MoveIsStep(s: State, t: nat) returns (e: Event, s': State)
    requires Inv(s) && CanMove(s, t)
    ensures Next(s, e, s') && !e.Added? && !Spurious(s, e)
  {
    SizesNonNegative(s);
    var p := s.threads[t];
    if p.Holding? && p.done < |p.batch| {
      e := Evaluated(t);
      s' := s.(threads := s.threads[t := p.(done := p.done + 1, fOk := p.fOk && p.batch[p.done].passes)]);
      assert EvaluateStep(s, e, s', t);
    } else {
      assert BatchOk(p);
      var r := AfterSection(s, t);
      s', e := r.0, r.1;
      assert SectionStep(s, e, s', t);
    }
  }

  /** No deadlock: inside Wait there is always a step to make that is neither an Add nor a spurious wake-up. */
  lemma SomeoneCanMove(states: seq<State>, events: seq<Event>)
    requires IsRun(states, events) && Master(states[|events|]) != Out
    ensures exists e, s' :: Next(states[|events|], e, s') && !e.Added? && !Spurious(states[|events|], e)
  {
    var s := states[|events|];
    RunInv(states, events);
    var t: nat := MASTER;
    if Master(s) == Asleep(false) {
      NoLostWakeup(states, events);
      t :| 0 < t < |s.threads| && s.threads[t].Holding?;
    }
    var e, s' := MoveIsStep(s, t);
  }

  const Effort: Phase -> int := (p: Phase) =>
    match p
    case Out => 1
    case Holding(batch, done, _) => |batch| - done + 3
    case Asleep(signalled) => if signalled then 1 else 0

  function Distance(s: State): int {
    5 * |s.shared.queue| + Total(Effort, s.threads)
  }

  /** A wake-up without a signal that only goes back to sleep. */
  predicate Spurious(s: State, e: Event) {
    e.Slept? && e.thread < |s.threads| && s.threads[e.thread] == Asleep(false)
  }

  /** The effort left after a critical section, in terms of the one thread that ran it. */
  lemma SectionEffort(s: State, e: Event, s': State, t: nat)
    requires Inv(s) && SectionStep(s, e, s', t)
    ensures var waker := if Wakes(s, t) && s.threads[MASTER] == Asleep(false) then 1 else 0;
            Total(Effort, s'.threads) == Total(Effort, s.threads) + waker - Effort(s.threads[t]) + Effort(s'.threads[t])
  {
    var woken := Woken(s, t);
    if Wakes(s, t) {
      TotalUpdate(Effort, s.threads, MASTER, woken[MASTER]);
    }
    TotalUpdate(Effort, woken, t, s'.threads[t]);
  }

  lemma SectionProgress(s: State, e: Event, s': State, t: nat)
    requires Inv(s) && SectionStep(s, e, s', t) && !e.Returned?
    ensures Distance(s') <= Distance(s)
    ensures Distance(s') == Distance(s) ==> Spurious(s, e)
  {
    SectionEffort(s, e, s', t);
    ArriveSpec(s, t);
    var sh := Arrive(s.shared, s.threads[t]);
    if sh.queue != [] {
      BatchFits(sh);
      assert |s'.shared.queue| + |e.batch| == |s.shared.queue|;
    }
  }

  /** Every step but Add, a return and a spurious wake-up that goes back to sleep lowers the distance. */
  lemma MovesMakeProgress(s: State, e: Event, s': State)
    requires Inv(s) && Next(s, e, s') && !e.Added? && !e.Returned?
    ensures Distance(s') <= Distance(s)
    ensures Distance(s') == Distance(s) ==> Spurious(s, e)
  {
    if t: nat :| EvaluateStep(s, e, s', t) {
      TotalUpdate(Effort, s.threads, t, s'.threads[t]);
    } else {
      var t: nat :| SectionStep(s, e, s', t);
      SectionProgress(s, e, s', t);
    }
  }

  /** The distance never goes below zero, so a Wait cannot make progress for ever. */
  lemma DistanceBounded(s: State)
    requires Inv(s)
    ensures Distance(s) >= 0
  {
    EffortBounded(s.threads);
  }

  lemma {:induction false} EffortBounded(ts: seq<Phase>)
    requires forall t :: 0 <= t < |ts| ==> BatchOk(ts[t])
    ensures Total(Effort, ts) >= 0
  {
    if ts != [] {
      EffortBounded(ts[1..]);
    }
  }

  function Productive(states: seq<State>, events: seq<Event>): nat
    requires |states| == |events| + 1
  {
    if events == [] then 0
    else (if Spurious(states[0], events[0]) then 0 else 1) + Productive(states[1..], events[1..])
  }

  /** Between an Add and a return only boundedly many steps are not spurious wake-ups. */
  lemma {:induction false} WaitIsBounded(states: seq<State>, events: seq<Event>)
    requires |states| == |events| + 1 && Inv(states[0])
    requires forall i :: 0 <= i < |events| ==> Next(states[i], events[i], states[i + 1])
    requires forall i :: 0 <= i < |events| ==> !events[i].Added? && !events[i].Returned?
    ensures Productive(states, events) <= Distance(states[0])
  {
    if events == [] {
      DistanceBounded(states[0]);
    } else {
      NextKeepsInv(states[0], events[0], states[1]);
      MovesMakeProgress(states[0], events[0], states[1]);
      WaitIsBounded(states[1..], events[1..]);
    }
  }
}
