/** The parallel check queue: one master and any number of workers share a stack of
    checks under a mutex. Every critical section is one atomic step, and so is every
    single check; the steps of different threads interleave in any order. */
module CheckQueue {
  import opened Bounds

  /** A verification job; `passes` is what calling it returns. */
  datatype Check = Check(id: nat, passes: bool)

  datatype Thread =
    | Outside                                             // the master, when it is not in Wait
    | Entering                                            // in Loop, before its first critical section
    | Waiting(notified: bool)                             // inside cond.wait
    | Running(batch: seq<Check>, done: nat, ok: bool)     // `done` checks of its batch executed

  /** The state behind the mutex. */
  datatype Shared = Shared(queue: seq<Check>, nIdle: int, nTotal: int, fAllOk: bool, nTodo: int, nBatchSize: nat)

  // ----- The critical sections ------------------------------------------------------

  /** How many checks a thread takes at once. */
  function BatchSize(sh: Shared): int
    requires sh.nTotal + sh.nIdle + 1 > 0
  {
    Max(1, Min(sh.nBatchSize, |sh.queue| / (sh.nTotal + sh.nIdle + 1)))
  }

  /** The last `n` elements of a stack, in the order they are popped. */
  function Popped(queue: seq<Check>, n: nat): (r: seq<Check>)
    requires n <= |queue|
    ensures |r| == n
  {
    if n == 0 then [] else [queue[|queue| - 1]] + Popped(queue[..|queue| - 1], n - 1)
  }

  lemma {:induction false} PoppedConserves(queue: seq<Check>, n: nat)
    requires n <= |queue|
    ensures multiset(queue) == multiset(queue[..|queue| - n]) + multiset(Popped(queue, n))
  {
    if n == 0 {
      assert queue[..|queue|] == queue;
    } else {
      var front, last := queue[..|queue| - 1], [queue[|queue| - 1]];
      PoppedConserves(front, n - 1);
      assert front[..|front| - (n - 1)] == queue[..|queue| - n];
      calc {
        multiset(queue);
        { assert queue == front + last; }
        multiset(front) + multiset(last);
        multiset(queue[..|queue| - n]) + multiset(Popped(front, n - 1)) + multiset(last);
        multiset(queue[..|queue| - n]) + multiset(last + Popped(front, n - 1));
      }
    }
  }

  /** A batch is never empty and never larger than the queue. */
  lemma BatchSizeFits(sh: Shared)
    requires sh.nTotal >= 0 && sh.nIdle >= 0 && sh.queue != []
    ensures 1 <= BatchSize(sh) <= |sh.queue|
  {
    DivAtMost(|sh.queue|, sh.nTotal + sh.nIdle + 1);
  }

  lemma DivAtMost(q: int, d: int)
    requires q >= 0 && d >= 1
    ensures q / d <= q
  {
  }

  /** Accounting for a finished batch, at the top of the loop. */
  function CleanUp(sh: Shared, n: nat, ok: bool): Shared {
    sh.(fAllOk := sh.fAllOk && ok, nTodo := sh.nTodo - n)
  }

  /** What a thread does at the loop head with the mutex held. */
  datatype Outcome = Return(verdict: bool) | Wait | Take(batch: seq<Check>, ok: bool)

  function Decide(sh: Shared, isMaster: bool): Outcome
    requires Countable(sh)
  {
    if sh.queue != [] then
      BatchSizeFits(sh);
      Take(Popped(sh.queue, BatchSize(sh)), sh.fAllOk)
    else if isMaster && sh.nTodo == 0 then Return(sh.fAllOk)
    else Wait
  }

  function Decided(sh: Shared, isMaster: bool): Shared
    requires Countable(sh)
  {
    match Decide(sh, isMaster)
    case Return(_) => sh.(nTotal := sh.nTotal - 1, fAllOk := true)
    case Wait => sh.(nIdle := sh.nIdle + 1)
    case Take(batch, _) => sh.(queue := sh.queue[..|sh.queue| - |batch|])
  }

  /** What the counters say at any point inside a critical section. */
  predicate Countable(sh: Shared) { sh.nTotal >= 0 && sh.nIdle >= 0 }

  /** Which of the waiting workers are woken. */
  datatype Notification = NotifyNone | NotifyOne | NotifyAll

  /** The shared state, with its critical sections as they run under the mutex. */
  class Queue {
    var queue: seq<Check>
    var nIdle: int
    var nTotal: int
    var fAllOk: bool
    var nTodo: int
    const nBatchSize: nat

    ghost function Sh(): Shared
      reads this
    {
      Shared(queue, nIdle, nTotal, fAllOk, nTodo, nBatchSize)
    }

    constructor (nBatchSize: nat)
      ensures Sh() == Initial(nBatchSize).sh
    {
      this.nBatchSize := nBatchSize;
      queue, nIdle, nTotal, fAllOk, nTodo := [], 0, 0, true, 0;
    }

    method Add(vChecks: seq<Check>) returns (workers: Notification)
      modifies this
      ensures Sh() == old(Sh()).(queue := old(queue) + vChecks, nTodo := old(nTodo) + |vChecks|)
      ensures workers == if vChecks == [] then NotifyNone else if |vChecks| == 1 then NotifyOne else NotifyAll
    {
      for i := 0 to |vChecks|
        invariant Sh() == old(Sh()).(queue := old(queue) + vChecks[..i])
      {
        queue := queue + [vChecks[i]];
      }
      nTodo := nTodo + |vChecks|;
      workers := if |vChecks| == 1 then NotifyOne else if |vChecks| > 1 then NotifyAll else NotifyNone;
    }

    /** The top of the loop: accounts for a finished batch of `nNow` checks, or
        counts a thread that has just arrived. */
    method Account(nNow: nat, fOk: bool, isMaster: bool) returns (notifyMaster: bool)
      modifies this
      ensures Sh() == if nNow > 0 then CleanUp(old(Sh()), nNow, fOk) else old(Sh()).(nTotal := old(nTotal) + 1)
      ensures notifyMaster <==> nNow > 0 && nTodo == 0 && !isMaster
    {
      notifyMaster := false;
      if nNow > 0 {
        fAllOk := fAllOk && fOk;
        nTodo := nTodo - nNow;
        notifyMaster := nTodo == 0 && !isMaster;
      } else {
        nTotal := nTotal + 1;
      }
    }

    /** The loop head: return the verdict, go to sleep, or pop a batch. */
    method Head(isMaster: bool) returns (r: Outcome)
      requires Countable(Sh())
      modifies this
      ensures r == Decide(old(Sh()), isMaster) && Sh() == Decided(old(Sh()), isMaster)
    {
      if queue == [] {
        if isMaster && nTodo == 0 {
          nTotal := nTotal - 1;
          r := Return(fAllOk);
          fAllOk := true;
          return;
        }
        nIdle := nIdle + 1;
        return Wait;
      }
      BatchSizeFits(Sh());
      var nNow := Max(1, Min(nBatchSize, |queue| / (nTotal + nIdle + 1)));
      var vChecks := PopBatch(nNow);
      return Take(vChecks, fAllOk);
    }

    /** The whole critical section of a thread that holds no or a finished batch: the step `Section`. */
    method CriticalSection(ghost s: State, t: nat, nNow: nat, fOk: bool) returns (r: Outcome, notifyMaster: bool)
      requires Sh() == s.sh && Countable(s.sh) && Enabled(s, Section(t)) && Remembers(s.threads[t], nNow, fOk)
      modifies this
      ensures Shows(Apply(s, Section(t)), s, t, r, notifyMaster)
    {
      hide Decide, Decided, Apply, Became;
      SectionIs(s, t, nNow, fOk);
      notifyMaster := Account(nNow, fOk, t == 0);
      r := Head(t == 0);
    }

    /** What a thread does once it is woken, until it releases the mutex again: the step `Wake`. */
    method Resume(ghost s: State, t: nat) returns (r: Outcome)
      requires Sh() == s.sh && Countable(s.sh) && s.sh.nIdle >= 1 && Enabled(s, Wake(t))
      modifies this
      ensures Shows(Apply(s, Wake(t)), s, t, r, false)
    {
      hide Decide, Decided;
      nIdle := nIdle - 1;
      r := Head(t == 0);
    }

    /** The shared state is that of `s'`, and its threads are those of `s` but for what thread `t` became
        and for the notification. */
    ghost predicate Shows(s': State, s: State, t: nat, r: Outcome, notifyMaster: bool)
      requires 0 < |s.threads|
      reads this
    {
      && Sh() == s'.sh && t < |s.threads|
      && s'.threads == (if notifyMaster then NotifyMaster(s.threads) else s.threads)[t := Became(r)]
      && s'.verdicts == if r.Return? then s.verdicts + [(s.added, r.verdict)] else s.verdicts
    }

    method PopBatch(nNow: nat) returns (vChecks: seq<Check>)
      requires nNow <= |queue|
      modifies `queue
      ensures vChecks == Popped(old(queue), nNow) && queue == old(queue)[..|old(queue)| - nNow]
    {
      vChecks := [];
      for i := 0 to nNow
        invariant queue == old(queue)[..|old(queue)| - i]
        invariant vChecks + Popped(queue, nNow - i) == Popped(old(queue), nNow)
      {
        var last, front := queue[|queue| - 1], queue[..|queue| - 1];
        assert Popped(queue, nNow - i) == [last] + Popped(front, nNow - i - 1);
        vChecks, queue := vChecks + [last], front;
      }
    }
  }

  // ----- The whole system -------------------------------------------------------------

  /** Thread 0 is the master. The last three fields only record history: the checks
      added in this session, those accounted for, and all verdicts so far. */
  datatype State = State(sh: Shared, threads: seq<Thread>, added: seq<Check>, finished: multiset<Check>,
                         verdicts: seq<(seq<Check>, bool)>)

  datatype Step =
    | Spawn                        // a worker thread starts
    | Add(checks: seq<Check>)      // the master adds checks, outside Wait
    | Enter                        // the master calls Wait
    | Execute(t: nat)              // a thread executes (or skips) the next check of its batch
    | Section(t: nat)              // a thread with no or a finished batch takes the mutex
    | Wake(t: nat)                 // a waiting thread reacquires the mutex, notified or not

  /** A thread at the loop head: return, wait, or take a batch. */
  function LoopHead(s: State, t: nat): State
    requires t < |s.threads| && Countable(s.sh)
  {
    var s' := s.(sh := Decided(s.sh, t == 0));
    match Decide(s.sh, t == 0)
    case Return(verdict) =>
      s'.(threads := s.threads[t := Outside], added := [], finished := multiset{},
          verdicts := s.verdicts + [(s.added, verdict)])
    case Wait => s'.(threads := s.threads[t := Waiting(false)])
    case Take(batch, ok) => s'.(threads := s.threads[t := Running(batch, 0, ok)])
  }

  /** What a thread is after its turn at the loop head. */
  function Became(r: Outcome): Thread {
    match r
    case Return(_) => Outside
    case Wait => Waiting(false)
    case Take(batch, ok) => Running(batch, 0, ok)
  }

  /** The variables of the loop, as a thread outside the mutex holds them. */
  predicate Remembers(th: Thread, nNow: nat, fOk: bool) {
    if th.Running? then 0 < nNow == |th.batch| && fOk == th.ok else nNow == 0
  }

  /** A critical section of a thread, from what it accounts for to what it decides. */
  lemma SectionIs(s: State, t: nat, nNow: nat, fOk: bool)
    requires Countable(s.sh) && Enabled(s, Section(t)) && Remembers(s.threads[t], nNow, fOk)
    ensures var sh := if nNow > 0 then CleanUp(s.sh, nNow, fOk) else s.sh.(nTotal := s.sh.nTotal + 1);
            var notified := if nNow > 0 && sh.nTodo == 0 && t != 0 then NotifyMaster(s.threads) else s.threads;
            var r := Decide(sh, t == 0);
            var s' := Apply(s, Section(t));
            && s'.sh == Decided(sh, t == 0) && s'.threads == notified[t := Became(r)]
            && s'.verdicts == if r.Return? then s.verdicts + [(s.added, r.verdict)] else s.verdicts
  {
    hide Decide, Decided;
  }

  /** condMaster.notify_one(). */
  function NotifyMaster(threads: seq<Thread>): seq<Thread>
    requires |threads| > 0
  {
    if threads[0].Waiting? then threads[0 := Waiting(true)] else threads
  }

  predicate Enabled(s: State, step: Step) {
    && |s.threads| > 0
    && match step
       case Spawn => true
       case Add(_) => s.threads[0].Outside?
       case Enter => s.threads[0].Outside?
       case Execute(t) => t < |s.threads| && s.threads[t].Running? && s.threads[t].done < |s.threads[t].batch|
       case Section(t) => t < |s.threads| && (s.threads[t].Entering?
                             || (s.threads[t].Running? && s.threads[t].done == |s.threads[t].batch|))
       case Wake(t) => t < |s.threads| && s.threads[t].Waiting?
  }

  function Apply(s: State, step: Step): State
    requires Enabled(s, step)
    requires Countable(s.sh) && (step.Wake? ==> s.sh.nIdle >= 1)
  {
    match step
    case Spawn => s.(threads := s.threads + [Entering])
    case Add(checks) =>
      s.(sh := s.sh.(queue := s.sh.queue + checks, nTodo := s.sh.nTodo + |checks|), added := s.added + checks)
    case Enter => s.(threads := s.threads[0 := Entering])
    case Execute(t) =>
      var r := s.threads[t];
      s.(threads := s.threads[t := Running(r.batch, r.done + 1, if r.ok then r.batch[r.done].passes else false)])
    case Section(t) =>
      var th := s.threads[t];
      if th.Entering? then
        LoopHead(s.(sh := s.sh.(nTotal := s.sh.nTotal + 1)), t)
      else
        var sh := CleanUp(s.sh, |th.batch|, th.ok);
        var threads := if sh.nTodo == 0 && t != 0 then NotifyMaster(s.threads) else s.threads;
        LoopHead(s.(sh := sh, threads := threads, finished := s.finished + multiset(th.batch)), t)
    case Wake(t) =>
      LoopHead(s.(sh := s.sh.(nIdle := s.sh.nIdle - 1)), t)
  }

  // ----- Sums over the threads ---------------------------------------------------------

  ghost function Sum(threads: seq<Thread>, weight: Thread -> int): int {
    if threads == [] then 0
    else Sum(threads[..|threads| - 1], weight) + weight(threads[|threads| - 1])
  }

  lemma {:induction false} SumUpdate(threads: seq<Thread>, weight: Thread -> int, i: nat, t: Thread)
    requires i < |threads|
    ensures Sum(threads[i := t], weight) == Sum(threads, weight) - weight(threads[i]) + weight(t)
  {
    var n := |threads| - 1;
    if i == n {
      assert threads[i := t][..n] == threads[..n];
    } else {
      assert threads[i := t][..n] == threads[..n][i := t];
      SumUpdate(threads[..n], weight, i, t);
    }
  }

  ghost function Held(t: Thread): multiset<Check> {
    if t.Running? then multiset(t.batch) else multiset{}
  }

  /** The checks that have left the queue but are not accounted for. */
  ghost function InFlight(threads: seq<Thread>): multiset<Check> {
    if threads == [] then multiset{}
    else InFlight(threads[..|threads| - 1]) + Held(threads[|threads| - 1])
  }

  lemma {:induction false} InFlightUpdate(threads: seq<Thread>, i: nat, t: Thread)
    requires i < |threads|
    ensures InFlight(threads[i := t]) + Held(threads[i]) == InFlight(threads) + Held(t)
  {
    hide Held;
    var n := |threads| - 1;
    var front, last := threads[..n], threads[n];
    if i == n {
      assert threads[i := t][..n] == front;
      Commute(InFlight(front), Held(t), Held(last));
    } else {
      assert threads[i := t][..n] == front[i := t];
      InFlightUpdate(front, i, t);
      Exchange(InFlight(front[i := t]), InFlight(front), Held(threads[i]), Held(t), Held(last));
    }
  }

  lemma Commute(a: multiset<Check>, b: multiset<Check>, c: multiset<Check>)
    ensures (a + b) + c == (a + c) + b
  {
  }

  lemma Exchange(a': multiset<Check>, a: multiset<Check>, h: multiset<Check>, h': multiset<Check>, l: multiset<Check>)
    requires a' + h == a + h'
    ensures (a' + l) + h == (a + l) + h'
  {
    calc {
      (a' + l) + h;
      (a' + h) + l;
      (a + h') + l;
      (a + l) + h';
    }
  }

  lemma {:induction false} SomeoneHolds(threads: seq<Thread>)
    requires InFlight(threads) != multiset{}
    ensures exists i :: 0 <= i < |threads| && threads[i].Running? && threads[i].batch != []
  {
    var n := |threads| - 1;
    if Held(threads[n]) == multiset{} {
      SomeoneHolds(threads[..n]);
      var i :| 0 <= i < n && threads[..n][i].Running? && threads[..n][i].batch != [];
      assert threads[i] == threads[..n][i];
    }
  }

  function Entered(t: Thread): int { if t.Waiting? || t.Running? then 1 else 0 }

  function Idle(t: Thread): int { if t.Waiting? then 1 else 0 }

  // ----- The invariant ------------------------------------------------------------------

  predicate AllPass(checks: seq<Check>) {
    forall c :: c in checks ==> c.passes
  }

  ghost predicate ThreadOk(t: Thread, added: seq<Check>) {
    t.Running? ==>
      && t.done <= |t.batch|
      && (t.ok ==> AllPass(t.batch[..t.done]))
      && (!t.ok ==> !AllPass(added))
  }

  ghost predicate VerdictsExact(verdicts: seq<(seq<Check>, bool)>) {
    forall i :: 0 <= i < |verdicts| ==> (verdicts[i].1 <==> AllPass(verdicts[i].0))
  }

  ghost predicate Inv(s: State) {
    && |s.threads| > 0
    && (forall i :: 0 < i < |s.threads| ==> !s.threads[i].Outside?)
    // every check added is queued, in flight or accounted for, and nTodo knows
    && multiset(s.added) == multiset(s.sh.queue) + InFlight(s.threads) + s.finished
    && s.sh.nTodo == |s.sh.queue| + |InFlight(s.threads)|
    && s.sh.nTotal == Sum(s.threads, Entered)
    && s.sh.nIdle == Sum(s.threads, Idle)
    // the running verdict
    && (s.sh.fAllOk ==> forall c :: c in s.finished ==> c.passes)
    && (!s.sh.fAllOk ==> !AllPass(s.added))
    && (forall i :: 0 <= i < |s.threads| ==> ThreadOk(s.threads[i], s.added))
    // the master sleeps only while someone else works
    && (s.threads[0] == Waiting(false) ==> s.sh.queue == [] && s.sh.nTodo > 0)
    && VerdictsExact(s.verdicts)
  }

  /** No thread holds an empty batch, so a finished batch is never mistaken for a
      first iteration. */
  ghost predicate BatchesFilled(s: State) {
    forall i :: 0 <= i < |s.threads| && s.threads[i].Running? ==> s.threads[i].batch != []
  }

  lemma {:induction false} SumNonNegative(threads: seq<Thread>, weight: Thread -> int)
    requires forall t :: weight(t) >= 0
    ensures Sum(threads, weight) >= 0
    ensures forall i :: 0 <= i < |threads| ==> weight(threads[i]) <= Sum(threads, weight)
  {
    if threads != [] {
      var n := |threads| - 1;
      SumNonNegative(threads[..n], weight);
      forall i | 0 <= i < |threads|
        ensures weight(threads[i]) <= Sum(threads, weight)
      {
        if i < n {
          assert threads[i] == threads[..n][i];
        }
      }
    }
  }

  lemma {:induction false} HeldIsInFlight(threads: seq<Thread>, i: nat)
    requires i < |threads|
    ensures Held(threads[i]) <= InFlight(threads)
  {
    var n := |threads| - 1;
    if i < n {
      HeldIsInFlight(threads[..n], i);
    }
  }

  lemma CountersNonNegative(s: State)
    requires Inv(s)
    ensures Countable(s.sh) && s.sh.nTodo >= 0
    ensures forall i :: 0 <= i < |s.threads| && s.threads[i].Waiting? ==> s.sh.nIdle >= 1
  {
    SumNonNegative(s.threads, Entered);
    SumNonNegative(s.threads, Idle);
    assert forall i :: 0 <= i < |s.threads| && s.threads[i].Waiting? ==> Idle(s.threads[i]) == 1;
  }

  // ----- Every step keeps it --------------------------------------------------------------

  /** A thread that holds the mutex and no checks. */
  const IN_HAND := Running([], 0, true)

  ghost predicate OthersFilled(s: State, t: nat) {
    forall i :: 0 <= i < |s.threads| && i != t && s.threads[i].Running? ==> s.threads[i].batch != []
  }

  /** Replacing one thread shifts all sums by its own share. */
  lemma ThreadReplaced(threads: seq<Thread>, i: nat, t: Thread)
    requires i < |threads|
    ensures InFlight(threads[i := t]) + Held(threads[i]) == InFlight(threads) + Held(t)
    ensures |InFlight(threads[i := t])| + |Held(threads[i])| == |InFlight(threads)| + |Held(t)|
    ensures Sum(threads[i := t], Entered) == Sum(threads, Entered) - Entered(threads[i]) + Entered(t)
    ensures Sum(threads[i := t], Idle) == Sum(threads, Idle) - Idle(threads[i]) + Idle(t)
  {
    InFlightUpdate(threads, i, t);
    SumUpdate(threads, Entered, i, t);
    SumUpdate(threads, Idle, i, t);
    assert |InFlight(threads[i := t]) + Held(threads[i])| == |InFlight(threads) + Held(t)|;
  }

  /** A thread without checks takes over some. */
  lemma HandFilled(threads: seq<Thread>, i: nat, t: Thread)
    requires i < |threads| && threads[i] == IN_HAND
    ensures InFlight(threads[i := t]) == InFlight(threads) + Held(t)
    ensures |InFlight(threads[i := t])| == |InFlight(threads)| + |Held(t)|
    ensures Sum(threads[i := t], Entered) == Sum(threads, Entered) - 1 + Entered(t)
    ensures Sum(threads[i := t], Idle) == Sum(threads, Idle) + Idle(t)
  {
    ThreadReplaced(threads, i, t);
    NothingHeld(InFlight(threads[i := t]));
  }

  lemma NothingHeld(m: multiset<Check>)
    ensures m + multiset{} == m && m + multiset([]) == m
  {
  }

  /** Moving checks from the queue to a batch conserves the total. */
  lemma MovedConserves(all: multiset<Check>, q: multiset<Check>, q': multiset<Check>, batch: multiset<Check>,
                       flight: multiset<Check>, fin: multiset<Check>)
    requires all == q + flight + fin && q == q' + batch
    ensures all == q' + (flight + batch) + fin
  {
  }

  lemma ReturnKeeps(s: State)
    requires Inv(s) && OthersFilled(s, 0) && s.threads[0] == IN_HAND && s.sh.queue == [] && s.sh.nTodo == 0
    ensures Countable(s.sh) && Inv(LoopHead(s, 0)) && BatchesFilled(LoopHead(s, 0))
  {
    CountersNonNegative(s);
    var s' := LoopHead(s, 0);
    HandFilled(s.threads, 0, Outside);
    assert InFlight(s.threads) == multiset{};
    forall i | 0 < i < |s.threads|
      ensures !s.threads[i].Running?
    {
      if s.threads[i].Running? {
        assert s.threads[i].batch[0] in Held(s.threads[i]);
        HeldIsInFlight(s.threads, i);
      }
    }
    assert multiset(s.added) == s.finished;
    assert forall c :: c in s.added <==> c in multiset(s.added);
    assert s'.verdicts[..|s.verdicts|] == s.verdicts;
  }

  lemma WaitKeeps(s: State, t: nat)
    requires Inv(s) && OthersFilled(s, t) && t < |s.threads| && s.threads[t] == IN_HAND
    requires s.sh.queue == [] && !(t == 0 && s.sh.nTodo == 0)
    ensures Countable(s.sh) && Inv(LoopHead(s, t)) && BatchesFilled(LoopHead(s, t))
  {
    CountersNonNegative(s);
    HandFilled(s.threads, t, Waiting(false));
    NothingHeld(InFlight(s.threads));
  }

  lemma TakeConserves(added: seq<Check>, queue: seq<Check>, n: nat, threads: seq<Thread>, t: nat, ok: bool,
                      fin: multiset<Check>)
    requires n <= |queue| && t < |threads| && threads[t] == IN_HAND
    requires multiset(added) == multiset(queue) + InFlight(threads) + fin
    ensures var threads' := threads[t := Running(Popped(queue, n), 0, ok)];
            && multiset(added) == multiset(queue[..|queue| - n]) + InFlight(threads') + fin
            && |queue[..|queue| - n]| + |InFlight(threads')| == |queue| + |InFlight(threads)|
            && Sum(threads', Entered) == Sum(threads, Entered) && Sum(threads', Idle) == Sum(threads, Idle)
  {
    var r := Running(Popped(queue, n), 0, ok);
    PoppedConserves(queue, n);
    HandFilled(threads, t, r);
    MovedConserves(multiset(added), multiset(queue), multiset(queue[..|queue| - n]), Held(r), InFlight(threads), fin);
  }

  lemma TakeKeeps(s: State, t: nat)
    requires Inv(s) && OthersFilled(s, t) && t < |s.threads| && s.threads[t] == IN_HAND && s.sh.queue != []
    ensures Countable(s.sh) && Inv(LoopHead(s, t)) && BatchesFilled(LoopHead(s, t))
  {
    hide InFlight, Sum, Popped, BatchSize;
    CountersNonNegative(s);
    BatchSizeFits(s.sh);
    TakeConserves(s.added, s.sh.queue, BatchSize(s.sh), s.threads, t, s.sh.fAllOk, s.finished);
  }

  lemma LoopHeadKeeps(s: State, t: nat)
    requires Inv(s) && OthersFilled(s, t) && t < |s.threads| && s.threads[t] == IN_HAND
    ensures Countable(s.sh) && Inv(LoopHead(s, t)) && BatchesFilled(LoopHead(s, t))
  {
    if s.sh.queue != [] {
      TakeKeeps(s, t);
    } else if t == 0 && s.sh.nTodo == 0 {
      ReturnKeeps(s);
    } else {
      WaitKeeps(s, t);
    }
  }

  /** Which thread stands at t before the loop head does not matter. */
  lemma LoopHeadOverwrites(s: State, t: nat, u: Thread)
    requires t < |s.threads| && Countable(s.sh)
    ensures LoopHead(s.(threads := s.threads[t := u]), t) == LoopHead(s, t)
  {
    assert s.threads[t := u][t := Outside] == s.threads[t := Outside];
    assert s.threads[t := u][t := Waiting(false)] == s.threads[t := Waiting(false)];
    if s.sh.queue != [] {
      BatchSizeFits(s.sh);
      var r := Running(Popped(s.sh.queue, BatchSize(s.sh)), 0, s.sh.fAllOk);
      assert s.threads[t := u][t := r] == s.threads[t := r];
    }
  }

  lemma EnteringKeeps(s: State, t: nat)
    requires Inv(s) && BatchesFilled(s) && t < |s.threads| && s.threads[t].Entering?
    ensures Countable(s.sh) && Inv(Apply(s, Section(t))) && BatchesFilled(Apply(s, Section(t)))
  {
    hide InFlight, Sum, LoopHead;
    CountersNonNegative(s);
    var s1 := s.(sh := s.sh.(nTotal := s.sh.nTotal + 1));
    var s2 := s1.(threads := s.threads[t := IN_HAND]);
    ThreadReplaced(s.threads, t, IN_HAND);
    NothingHeld(InFlight(s.threads[t := IN_HAND]));
    NothingHeld(InFlight(s.threads));
    LoopHeadKeeps(s2, t);
    LoopHeadOverwrites(s1, t, IN_HAND);
  }

  lemma WakeKeeps(s: State, t: nat)
    requires Inv(s) && BatchesFilled(s) && t < |s.threads| && s.threads[t].Waiting?
    ensures Countable(s.sh) && s.sh.nIdle >= 1 && Inv(Apply(s, Wake(t))) && BatchesFilled(Apply(s, Wake(t)))
  {
    hide InFlight, Sum, LoopHead;
    CountersNonNegative(s);
    var s1 := s.(sh := s.sh.(nIdle := s.sh.nIdle - 1));
    var s2 := s1.(threads := s.threads[t := IN_HAND]);
    ThreadReplaced(s.threads, t, IN_HAND);
    NothingHeld(InFlight(s.threads[t := IN_HAND]));
    NothingHeld(InFlight(s.threads));
    LoopHeadKeeps(s2, t);
    LoopHeadOverwrites(s1, t, IN_HAND);
  }

  /** Waking the master changes no sum. */
  lemma NotifyKeepsSums(threads: seq<Thread>)
    requires |threads| > 0
    ensures InFlight(NotifyMaster(threads)) == InFlight(threads)
    ensures Sum(NotifyMaster(threads), Entered) == Sum(threads, Entered)
    ensures Sum(NotifyMaster(threads), Idle) == Sum(threads, Idle)
  {
    if threads[0].Waiting? {
      ThreadReplaced(threads, 0, Waiting(true));
      NothingHeld(InFlight(NotifyMaster(threads)));
      NothingHeld(InFlight(threads));
    }
  }

  /** Handing in a batch moves it from in flight to accounted for. */
  lemma HandInConserves(all: multiset<Check>, q: multiset<Check>, flight: multiset<Check>, flight': multiset<Check>,
                        batch: multiset<Check>, fin: multiset<Check>)
    requires all == q + flight + fin && flight' + batch == flight + multiset{}
    ensures all == q + flight' + (fin + batch) && |flight'| == |flight| - |batch|
  {
    assert flight == flight' + batch;
  }

  lemma HandInKeeps(s: State, t: nat)
    requires Inv(s) && BatchesFilled(s) && t < |s.threads| && s.threads[t].Running?
    requires s.threads[t].done == |s.threads[t].batch|
    ensures Countable(s.sh) && Inv(Apply(s, Section(t))) && BatchesFilled(Apply(s, Section(t)))
  {
    hide InFlight, Sum, LoopHead;
    CountersNonNegative(s);
    var th := s.threads[t];
    var sh := CleanUp(s.sh, |th.batch|, th.ok);
    var threads := if sh.nTodo == 0 && t != 0 then NotifyMaster(s.threads) else s.threads;
    var s1 := s.(sh := sh, threads := threads, finished := s.finished + multiset(th.batch));
    var s2 := s1.(threads := threads[t := IN_HAND]);
    NotifyKeepsSums(s.threads);
    ThreadReplaced(threads, t, IN_HAND);
    assert threads[t] == th;
    HandInConserves(multiset(s.added), multiset(s.sh.queue), InFlight(s.threads), InFlight(s2.threads),
                    multiset(th.batch), s.finished);
    HandInVerdict(s, t);
    LoopHeadKeeps(s2, t);
    LoopHeadOverwrites(s1, t, IN_HAND);
  }

  lemma HandInVerdict(s: State, t: nat)
    requires Inv(s) && t < |s.threads| && s.threads[t].Running? && s.threads[t].done == |s.threads[t].batch|
    ensures var th := s.threads[t];
            var ok := s.sh.fAllOk && th.ok;
            && (ok ==> forall c :: c in s.finished + multiset(th.batch) ==> c.passes)
            && (!ok ==> !AllPass(s.added))
  {
    var th := s.threads[t];
    assert ThreadOk(th, s.added) && th.batch[..th.done] == th.batch;
    assert forall c :: c in multiset(th.batch) <==> c in th.batch;
  }

  lemma ExecuteKeeps(s: State, t: nat)
    requires Inv(s) && BatchesFilled(s) && Enabled(s, Execute(t)) && Countable(s.sh)
    ensures Inv(Apply(s, Execute(t))) && BatchesFilled(Apply(s, Execute(t)))
  {
    hide InFlight, Sum;
    var r, s' := s.threads[t], Apply(s, Execute(t));
    ThreadReplaced(s.threads, t, s'.threads[t]);
    SameFlight(InFlight(s'.threads), InFlight(s.threads), multiset(r.batch));
    assert ThreadOk(r, s.added);
    assert r.batch[..r.done + 1] == r.batch[..r.done] + [r.batch[r.done]];
    if r.ok && !r.batch[r.done].passes {
      assert r.batch[r.done] in Held(r);
      HeldIsInFlight(s.threads, t);
      assert r.batch[r.done] in multiset(s.added);
    }
  }

  lemma SameFlight(a: multiset<Check>, b: multiset<Check>, h: multiset<Check>)
    requires a + h == b + h
    ensures a == b
  {
    assert a == (a + h) - h && b == (b + h) - h;
  }

  lemma AddKeeps(s: State, checks: seq<Check>)
    requires Inv(s) && BatchesFilled(s) && s.threads[0].Outside? && Countable(s.sh)
    ensures Inv(Apply(s, Add(checks))) && BatchesFilled(Apply(s, Add(checks)))
  {
    hide InFlight, Sum;
    AddConserves(multiset(s.added), multiset(s.sh.queue), InFlight(s.threads), s.finished, multiset(checks));
    assert forall c :: c in s.added ==> c in s.added + checks;
  }

  lemma AddConserves(all: multiset<Check>, q: multiset<Check>, flight: multiset<Check>, fin: multiset<Check>,
                     more: multiset<Check>)
    requires all == q + flight + fin
    ensures all + more == (q + more) + flight + fin
  {
  }

  lemma SpawnKeeps(s: State)
    requires Inv(s) && BatchesFilled(s) && Countable(s.sh)
    ensures Inv(Apply(s, Spawn)) && BatchesFilled(Apply(s, Spawn))
  {
    var threads := s.threads + [Entering];
    assert threads[..|threads| - 1] == s.threads;
    NothingHeld(InFlight(s.threads));
  }

  lemma EnterKeeps(s: State)
    requires Inv(s) && BatchesFilled(s) && s.threads[0].Outside? && Countable(s.sh)
    ensures Inv(Apply(s, Enter)) && BatchesFilled(Apply(s, Enter))
  {
    hide InFlight, Sum;
    ThreadReplaced(s.threads, 0, Entering);
    NothingHeld(InFlight(s.threads));
    NothingHeld(InFlight(s.threads[0 := Entering]));
  }

  /** Every step of every thread keeps the invariant. */
  lemma StepKeeps(s: State, step: Step)
    requires Inv(s) && BatchesFilled(s) && Enabled(s, step)
    ensures Countable(s.sh) && (step.Wake? ==> s.sh.nIdle >= 1)
    ensures Inv(Apply(s, step)) && BatchesFilled(Apply(s, step))
  {
    hide Inv, BatchesFilled, Apply;
    CountersNonNegative(s);
    match step
    case Spawn => SpawnKeeps(s);
    case Add(checks) => AddKeeps(s, checks);
    case Enter => EnterKeeps(s);
    case Execute(t) => ExecuteKeeps(s, t);
    case Section(t) =>
      if s.threads[t].Entering? {
        EnteringKeeps(s, t);
      } else {
        HandInKeeps(s, t);
      }
    case Wake(t) => WakeKeeps(s, t);
  }

  // ----- Whole runs ---------------------------------------------------------------------

  /** A queue nobody has used yet, with its master outside Wait. */
  function Initial(nBatchSize: nat): State {
    State(Shared([], 0, 0, true, 0, nBatchSize), [Outside], [], multiset{}, [])
  }

  ghost predicate Next(s: State, step: Step, s': State) {
    && Enabled(s, step)
    && (Countable(s.sh) && (step.Wake? ==> s.sh.nIdle >= 1) ==> s' == Apply(s, step))
  }

  ghost predicate Trace(states: seq<State>, steps: seq<Step>) {
    && |states| == |steps| + 1
    && forall i :: 0 <= i < |steps| ==> Next(states[i], steps[i], states[i + 1])
  }

  /** In every interleaving, every state of the run satisfies the invariant; in
      particular every verdict ever returned is exact. */
  lemma {:induction false} RunsAreSafe(nBatchSize: nat, states: seq<State>, steps: seq<Step>, i: nat)
    requires Trace(states, steps) && states[0] == Initial(nBatchSize) && i < |states|
    ensures Inv(states[i]) && BatchesFilled(states[i]) && NotifiedOk(states[i])
    ensures VerdictsExact(states[i].verdicts)
  {
    if i == 0 {
      assert [Outside][..0] == [];
      assert InFlight([Outside]) == multiset{};
    } else {
      hide Inv, BatchesFilled, NotifiedOk, Apply, Enabled;
      RunsAreSafe(nBatchSize, states, steps, i - 1);
      assert Next(states[i - 1], steps[i - 1], states[i]);
      StepKeeps(states[i - 1], steps[i - 1]);
      NotifiedKept(states[i - 1], steps[i - 1]);
      InvGivesVerdicts(states[i]);
    }
  }

  lemma InvGivesVerdicts(s: State)
    requires Inv(s)
    ensures VerdictsExact(s.verdicts)
  {
  }

  /** No lost wake-up: while the master sleeps un-notified, a worker holds checks. */
  lemma SleepingMasterIsAwaited(s: State)
    requires Inv(s) && s.threads[0] == Waiting(false)
    ensures exists i :: 0 < i < |s.threads| && s.threads[i].Running? && s.threads[i].batch != []
  {
    SomeoneHolds(s.threads);
  }

  // ----- Every session ends ---------------------------------------------------------------

  /** Steps that do something; the others are wake-ups that find nothing to do. */
  predicate Effective(s: State, step: Step) {
    || step.Execute? || step.Section?
    || (step.Wake? && step.t < |s.threads|
        && (s.sh.queue != [] || s.threads[step.t] == Waiting(true)))
  }

  /** While the master is in Wait, some thread can do something. */
  lemma NoDeadlock(s: State)
    requires Inv(s) && BatchesFilled(s) && !s.threads[0].Outside?
    ensures exists step :: Enabled(s, step) && Effective(s, step)
  {
    if s.threads[0] == Waiting(false) {
      SleepingMasterIsAwaited(s);
      var i :| 0 < i < |s.threads| && s.threads[i].Running? && s.threads[i].batch != [];
      assert ThreadOk(s.threads[i], s.added);
      var step := if s.threads[i].done < |s.threads[i].batch| then Execute(i) else Section(i);
      assert Enabled(s, step) && Effective(s, step);
    } else {
      assert ThreadOk(s.threads[0], s.added);
      var step := if s.threads[0].Waiting? then Wake(0)
                  else if s.threads[0].Running? && s.threads[0].done < |s.threads[0].batch| then Execute(0)
                  else Section(0);
      assert Enabled(s, step) && Effective(s, step);
    }
  }

  function Weight(t: Thread): int {
    match t
    case Outside => 0
    case Entering => 1
    case Waiting(notified) => if notified then 1 else 0
    case Running(batch, done, _) => if done <= |batch| then 2 * (|batch| - done) + 2 else 0
  }

  ghost function Measure(s: State): int {
    5 * |s.sh.queue| + Sum(s.threads, Weight)
  }

  /** Only the master is ever notified by name, and only when its session is done. */
  ghost predicate NotifiedOk(s: State) {
    && (forall i :: 0 < i < |s.threads| && s.threads[i].Waiting? ==> !s.threads[i].notified)
    && (|s.threads| > 0 && s.threads[0] == Waiting(true) ==> s.sh.nTodo == 0)
  }

  lemma LoopHeadTouches(s: State, t: nat)
    requires t < |s.threads| && Countable(s.sh)
    ensures var s' := LoopHead(s, t);
            && |s'.threads| == |s.threads| && s'.threads[t] != Waiting(true) && s'.sh.nTodo == s.sh.nTodo
            && (forall i :: 0 <= i < |s.threads| && i != t ==> s'.threads[i] == s.threads[i])
            && (s'.verdicts == s.verdicts
                || (s.sh.queue == [] == s'.sh.queue && s.sh.nTodo == 0 && s'.sh.fAllOk && s'.added == []
                    && s'.finished == multiset{} && s'.verdicts == s.verdicts + [(s.added, s.sh.fAllOk)]
                    && s'.threads[t] == Outside))
  {
    hide Popped, BatchSize;
  }

  lemma NotifiedKept(s: State, step: Step)
    requires Inv(s) && BatchesFilled(s) && NotifiedOk(s) && Enabled(s, step)
    requires Countable(s.sh) && (step.Wake? ==> s.sh.nIdle >= 1)
    ensures NotifiedOk(Apply(s, step))
  {
    hide InFlight, Sum, LoopHead;
    if step.Wake? {
      LoopHeadTouches(s.(sh := s.sh.(nIdle := s.sh.nIdle - 1)), step.t);
    } else if step.Section? && s.threads[step.t].Entering? {
      LoopHeadTouches(s.(sh := s.sh.(nTotal := s.sh.nTotal + 1)), step.t);
    } else if step.Section? {
      var th := s.threads[step.t];
      HeldIsInFlight(s.threads, step.t);
      HeldNonEmpty(th, InFlight(s.threads));
      var sh := CleanUp(s.sh, |th.batch|, th.ok);
      var threads := if sh.nTodo == 0 && step.t != 0 then NotifyMaster(s.threads) else s.threads;
      LoopHeadTouches(s.(sh := sh, threads := threads, finished := s.finished + multiset(th.batch)), step.t);
    }
  }

  lemma HeldNonEmpty(t: Thread, flight: multiset<Check>)
    requires t.Running? && t.batch != [] && Held(t) <= flight
    ensures |flight| > 0
  {
    assert t.batch[0] in Held(t);
  }

  lemma WeightsNonNegative(threads: seq<Thread>)
    ensures Sum(threads, Weight) >= 0
  {
    SumNonNegative(threads, Weight);
  }

  /** Taking a batch, waiting or returning costs at most what the thread brings. */
  lemma LoopHeadCost(s: State, t: nat)
    requires Countable(s.sh) && t < |s.threads|
    ensures var s' := LoopHead(s, t);
            && (s.sh.queue == [] ==> Measure(s') == Measure(s) - Weight(s.threads[t]))
            && (s.sh.queue != [] ==> Measure(s') < Measure(s) - Weight(s.threads[t]))
  {
    var s' := LoopHead(s, t);
    SumUpdate(s.threads, Weight, t, s'.threads[t]);
    if s.sh.queue != [] {
      BatchSizeFits(s.sh);
    }
  }

  /** Every effective step uses up some of a bounded budget. */
  lemma EffectiveDecreases(s: State, step: Step)
    requires Inv(s) && BatchesFilled(s) && NotifiedOk(s) && Enabled(s, step) && Effective(s, step)
    requires Countable(s.sh) && (step.Wake? ==> s.sh.nIdle >= 1)
    ensures 0 <= Measure(Apply(s, step)) < Measure(s)
  {
    hide InFlight, Sum, LoopHead;
    WeightsNonNegative(Apply(s, step).threads);
    var t := step.t;
    if step.Execute? {
      SumUpdate(s.threads, Weight, t, Apply(s, step).threads[t]);
    } else if step.Wake? {
      LoopHeadCost(s.(sh := s.sh.(nIdle := s.sh.nIdle - 1)), t);
    } else if s.threads[t].Entering? {
      LoopHeadCost(s.(sh := s.sh.(nTotal := s.sh.nTotal + 1)), t);
    } else {
      var th := s.threads[t];
      var sh := CleanUp(s.sh, |th.batch|, th.ok);
      var threads := if sh.nTodo == 0 && t != 0 then NotifyMaster(s.threads) else s.threads;
      if s.threads[0].Waiting? {
        SumUpdate(s.threads, Weight, 0, Waiting(true));
      }
      LoopHeadCost(s.(sh := sh, threads := threads, finished := s.finished + multiset(th.batch)), t);
    }
  }

  /** A wake-up that finds nothing to do leaves the whole state as it was. */
  lemma SpuriousWakeStutters(s: State, t: nat)
    requires Inv(s) && NotifiedOk(s) && Enabled(s, Wake(t)) && !Effective(s, Wake(t))
    ensures Countable(s.sh) && s.sh.nIdle >= 1 && Apply(s, Wake(t)) == s
  {
    CountersNonNegative(s);
    assert s.threads[t := Waiting(false)] == s.threads;
  }

  predicate InsideSession(step: Step) {
    step.Execute? || step.Section? || step.Wake?
  }

  /** How many of the first i steps of a run are effective. */
  ghost function EffectiveSteps(states: seq<State>, steps: seq<Step>, i: nat): nat
    requires i <= |steps| <= |states|
  {
    if i == 0 then 0
    else EffectiveSteps(states, steps, i - 1) + if Effective(states[i - 1], steps[i - 1]) then 1 else 0
  }

  /** Without new work a session can take only a bounded number of effective steps,
      and by NoDeadlock it can only stop when Wait has returned. */
  lemma {:induction false} SessionsEnd(states: seq<State>, steps: seq<Step>, i: nat)
    requires Trace(states, steps) && Inv(states[0]) && BatchesFilled(states[0]) && NotifiedOk(states[0])
    requires (forall step :: step in steps ==> InsideSession(step)) && i <= |steps|
    ensures Inv(states[i]) && BatchesFilled(states[i]) && NotifiedOk(states[i])
    ensures 0 <= EffectiveSteps(states, steps, i) + Measure(states[i]) <= Measure(states[0])
    ensures EffectiveSteps(states, steps, i) <= Measure(states[0])
  {
    MeasureNonNegative(states[i]);
    if i != 0 {
      hide Inv, BatchesFilled, NotifiedOk, Apply, Measure;
      var s, step := states[i - 1], steps[i - 1];
      SessionsEnd(states, steps, i - 1);
      assert Next(s, step, states[i]) && InsideSession(step);
      StepKeeps(s, step);
      NotifiedKept(s, step);
      MeasureNonNegative(states[i]);
      if Effective(s, step) {
        EffectiveDecreases(s, step);
      } else {
        SpuriousWakeStutters(s, step.t);
      }
    }
  }

  lemma MeasureNonNegative(s: State)
    ensures Measure(s) >= 0
  {
    WeightsNonNegative(s.threads);
  }

  /** A returning Wait reports exactly whether all checks of its session pass, and
      leaves nothing behind for the next session. */
  lemma NothingLeaks(s: State, step: Step)
    requires Inv(s) && BatchesFilled(s) && Enabled(s, step)
    requires Countable(s.sh) && (step.Wake? ==> s.sh.nIdle >= 1)
    requires Apply(s, step).verdicts != s.verdicts
    ensures var s' := Apply(s, step);
            && s'.verdicts == s.verdicts + [(s.added, AllPass(s.added))]
            && s'.sh.queue == [] && s'.sh.nTodo == 0 && s'.sh.fAllOk && s'.added == [] && s'.finished == multiset{}
            && forall i :: 0 <= i < |s'.threads| ==> !s'.threads[i].Running?
  {
    hide Inv, BatchesFilled, Apply;
    var s' := Apply(s, step);
    StepKeeps(s, step);
    var ok := Returns(s, step);
    LastVerdict(s', s.verdicts, s.added, ok);
    NoneRunning(s');
  }

  /** Only a returning Wait adds a verdict; it takes the session's checks with it and resets the queue. */
  lemma Returns(s: State, step: Step) returns (ok: bool)
    requires Enabled(s, step) && Countable(s.sh) && (step.Wake? ==> s.sh.nIdle >= 1)
    requires Apply(s, step).verdicts != s.verdicts
    ensures var s' := Apply(s, step);
            && s'.verdicts == s.verdicts + [(s.added, ok)]
            && s'.sh.queue == [] && s'.sh.nTodo == 0 && s'.sh.fAllOk && s'.added == [] && s'.finished == multiset{}
  {
    hide LoopHead;
    if step.Wake? {
      LoopHeadTouches(s.(sh := s.sh.(nIdle := s.sh.nIdle - 1)), step.t);
      ok := s.sh.fAllOk;
    } else if step.Section? && s.threads[step.t].Entering? {
      LoopHeadTouches(s.(sh := s.sh.(nTotal := s.sh.nTotal + 1)), step.t);
      ok := s.sh.fAllOk;
    } else if step.Section? {
      var th := s.threads[step.t];
      var sh := CleanUp(s.sh, |th.batch|, th.ok);
      var threads := if sh.nTodo == 0 && step.t != 0 then NotifyMaster(s.threads) else s.threads;
      LoopHeadTouches(s.(sh := sh, threads := threads, finished := s.finished + multiset(th.batch)), step.t);
      ok := sh.fAllOk;
    }
  }

  lemma LastVerdict(s: State, verdicts: seq<(seq<Check>, bool)>, added: seq<Check>, ok: bool)
    requires Inv(s) && s.verdicts == verdicts + [(added, ok)]
    ensures ok == AllPass(added)
  {
    hide InFlight, Sum, AllPass;
    assert s.verdicts[|verdicts|] == (added, ok);
  }

  /** With nothing left to do, nobody is at work. */
  lemma NoneRunning(s: State)
    requires Inv(s) && BatchesFilled(s) && s.sh.nTodo == 0
    ensures forall i :: 0 <= i < |s.threads| ==> !s.threads[i].Running?
  {
    hide InFlight, Sum, AllPass;
    forall i | 0 <= i < |s.threads| ensures !s.threads[i].Running? {
      if s.threads[i].Running? {
        HeldIsInFlight(s.threads, i);
        HeldNonEmpty(s.threads[i], InFlight(s.threads));
      }
    }
  }
}
