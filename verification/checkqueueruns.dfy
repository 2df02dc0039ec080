/** Every interleaving of a master and any number of workers around one check queue
  * (src/checkqueue.h:69-168).
  *
  * Thread 0 is the master: it adds checks while it is outside the loop, and `Wait` is its
  * way through the loop. All others are workers. A sleeping thread may wake up at any time,
  * notified or not.
  */
module CheckQueueRuns {
  import opened CheckQueue

  datatype Thread = Outside | Asleep(notified: bool) | Holding(batch: seq<Check>, fOk: bool) | Gone

  datatype System = System(q: Shared, threads: seq<Thread>)

  /** `Add` by the master, with the worker that a single notification reaches, or one passage through the critical
    * section.
    */
  datatype Event = Add(checks: seq<Check>, chosen: nat) | Pass(thread: nat)

  // ----- Steps -----

  predicate Sleeping(threads: seq<Thread>, t: nat) {
    0 < t < |threads| && threads[t] == Asleep(false)
  }

  ghost predicate Enabled(s: System, e: Event) {
    match e
    case Add(checks, chosen) =>
      && |s.threads| > 0 && s.threads[0] == Outside
      && (|checks| == 1 ==> Sleeping(s.threads, chosen) || forall t :: !Sleeping(s.threads, t))
    case Pass(t) => t < |s.threads| && s.threads[t] != Gone
  }

  function ArrivalOf(thread: Thread): Arrival
    requires thread != Gone
  {
    match thread
    case Outside => First
    case Asleep(_) => Woken
    case Holding(batch, fOk) => Done(|batch|, fOk && AllHold(batch))
  }

  function ThreadAfter(outcome: Outcome, fMaster: bool): Thread {
    match outcome
    case Took(vChecks, fOk) => Holding(vChecks, fOk)
    case Sleeps => Asleep(false)
    case Returns(_) => if fMaster then Outside else Gone
  }

  function NotifyMaster(threads: seq<Thread>): seq<Thread> {
    if |threads| > 0 && threads[0].Asleep? then threads[0 := Asleep(true)] else threads
  }

  function NotifyWorkers(threads: seq<Thread>, n: nat, chosen: nat): seq<Thread> {
    if n == 0 then threads
    else if n == 1 then (if Sleeping(threads, chosen) then threads[chosen := Asleep(true)] else threads)
    else seq(|threads|, t requires 0 <= t < |threads| => if Sleeping(threads, t) then Asleep(true) else threads[t])
  }

  ghost function Settled(s: System, t: nat): Shared
    requires t < |s.threads| && s.threads[t] != Gone
  {
    Settle(s.q, ArrivalOf(s.threads[t]))
  }

  ghost function Apply(s: System, e: Event): System
    requires Enabled(s, e)
  {
    match e
    case Add(checks, chosen) =>
      System(s.q.(queue := s.q.queue + checks, nTodo := s.q.nTodo + |checks|),
             NotifyWorkers(s.threads, |checks|, chosen))
    case Pass(t) =>
      var q := Settled(s, t);
      var notify := s.threads[t].Holding? && q.nTodo == 0 && t != 0;
      var threads := if notify then NotifyMaster(s.threads) else s.threads;
      System(Left(q, t == 0), threads[t := ThreadAfter(Leave(q, t == 0), t == 0)])
  }

  /** The step ends a `Wait`. */
  ghost predicate WaitReturns(s: System, e: Event)
    requires Enabled(s, e)
  {
    e == Pass(0) && Leave(Settled(s, 0), true).Returns?
  }

  // ----- Runs -----

  ghost predicate Feasible(s: System, events: seq<Event>)
    decreases events, 0
  {
    events == [] || (Feasible(s, Front(events)) && Enabled(After(s, Front(events)), Last(events)))
  }

  ghost function After(s: System, events: seq<Event>): System
    requires Feasible(s, events)
    decreases events, 1
  {
    if events == [] then s else Apply(After(s, Front(events)), Last(events))
  }

  /** The checks added since the last return of `Wait`. */
  ghost function Pending(s: System, events: seq<Event>): seq<Check>
    requires Feasible(s, events)
  {
    if events == [] then []
    else if WaitReturns(After(s, Front(events)), Last(events)) then []
    else if Last(events).Add? then Pending(s, Front(events)) + Last(events).checks
    else Pending(s, Front(events))
  }

  function Front(events: seq<Event>): seq<Event>
    requires events != []
  {
    events[..|events| - 1]
  }

  function Last(events: seq<Event>): Event
    requires events != []
  {
    events[|events| - 1]
  }

  ghost predicate Initial(s: System) {
    && s.q.queue == [] && s.q.nIdle == 0 && s.q.nTotal == 0 && s.q.fAllOk && s.q.nTodo == 0
    && |s.threads| > 0 && forall t :: 0 <= t < |s.threads| ==> s.threads[t] == Outside
  }

  // ----- Totals over the threads -----

  function Batch(thread: Thread): multiset<Check> {
    if thread.Holding? then multiset(thread.batch) else multiset{}
  }

  function InHand(threads: seq<Thread>): multiset<Check> {
    if threads == [] then multiset{} else InHand(threads[1..]) + Batch(threads[0])
  }

  function Count(threads: seq<Thread>, p: Thread -> bool): nat {
    if threads == [] then 0 else Count(threads[1..], p) + (if p(threads[0]) then 1 else 0)
  }

  const ASLEEP: Thread -> bool := (t: Thread) => t.Asleep?
  const HOLDING: Thread -> bool := (t: Thread) => t.Holding?

  lemma {:induction false} InHandUpdate(threads: seq<Thread>, t: nat, thread: Thread)
    requires t < |threads|
    ensures Batch(threads[t]) <= InHand(threads)
    ensures InHand(threads[t := thread]) == InHand(threads) - Batch(threads[t]) + Batch(thread)
  {
    var updated := threads[t := thread];
    if t == 0 {
      assert updated[1..] == threads[1..];
    } else {
      InHandUpdate(threads[1..], t - 1, thread);
      assert updated[1..] == threads[1..][t - 1 := thread];
    }
  }

  lemma {:induction false} CountUpdate(threads: seq<Thread>, p: Thread -> bool, t: nat, thread: Thread)
    requires t < |threads|
    ensures Count(threads[t := thread], p) ==
              Count(threads, p) - (if p(threads[t]) then 1 else 0) + (if p(thread) then 1 else 0)
    ensures p(threads[t]) ==> Count(threads, p) >= 1
  {
    var updated := threads[t := thread];
    if t == 0 {
      assert updated[1..] == threads[1..];
    } else {
      CountUpdate(threads[1..], p, t - 1, thread);
      assert updated[1..] == threads[1..][t - 1 := thread];
    }
  }

  /** The threads look alike to batches and counts. */
  ghost predicate Alike(a: seq<Thread>, b: seq<Thread>) {
    && |a| == |b|
    && forall t :: 0 <= t < |a| ==> a[t] == b[t] || (a[t].Asleep? && b[t].Asleep?)
  }

  lemma {:induction false} AlikeTotals(a: seq<Thread>, b: seq<Thread>)
    requires Alike(a, b)
    ensures InHand(a) == InHand(b) && Count(a, ASLEEP) == Count(b, ASLEEP) && Count(a, HOLDING) == Count(b, HOLDING)
  {
    if a != [] {
      AlikeTotals(a[1..], b[1..]);
    }
  }

  lemma {:induction false} NoneInHand(threads: seq<Thread>)
    requires |InHand(threads)| == 0 && forall t :: 0 <= t < |threads| && threads[t].Holding? ==> threads[t].batch != []
    ensures Count(threads, HOLDING) == 0
    ensures forall t :: 0 <= t < |threads| ==> !threads[t].Holding?
  {
    if threads != [] {
      assert |Batch(threads[0])| == 0;
      NoneInHand(threads[1..]);
      forall t | 0 <= t < |threads| ensures !threads[t].Holding? {
        if t > 0 { assert threads[t] == threads[1..][t - 1]; }
      }
    }
  }

  // ----- The invariant -----

  /** The counters; `inside` threads are in the critical section. */
  ghost predicate Counters(q: Shared, threads: seq<Thread>, inside: nat) {
    && q.nIdle == Count(threads, ASLEEP)
    && q.nTotal - q.nIdle == Count(threads, HOLDING) + inside
  }

  /** Checks queued or in a thread's hands. */
  ghost function Open(q: Shared, threads: seq<Thread>): multiset<Check> {
    multiset(q.queue) + InHand(threads)
  }

  ghost predicate AllOf(checks: multiset<Check>) {
    forall c :: c in checks ==> c.holds
  }

  /** Of the checks added, those not open are finished, and the status is their conjunction. */
  ghost predicate Conserved(q: Shared, threads: seq<Thread>, added: seq<Check>) {
    && q.nTodo == |q.queue| + |InHand(threads)|
    && Open(q, threads) <= multiset(added)
    && (q.fAllOk <==> AllOf(multiset(added) - Open(q, threads)))
  }

  /** No batch is empty, and a batch taken after a failure finds the failure still standing. */
  ghost predicate Batches(q: Shared, threads: seq<Thread>) {
    forall t :: 0 <= t < |threads| && threads[t].Holding? ==> threads[t].batch != [] && (q.fAllOk ==> threads[t].fOk)
  }

  /** A sleeping master has nothing left to take, and has been notified exactly when all is finished. */
  ghost predicate MasterAware(q: Shared, threads: seq<Thread>) {
    && |threads| > 0 && threads[0] != Gone
    && (threads[0].Asleep? ==> q.queue == [] && (threads[0].notified <==> q.nTodo == 0))
  }

  ghost predicate Inv(s: System, added: seq<Check>) {
    && Counters(s.q, s.threads, 0)
    && Conserved(s.q, s.threads, added)
    && Batches(s.q, s.threads)
    && MasterAware(s.q, s.threads)
  }

  // ----- Adding -----

  lemma AddKeeps(s: System, e: Event, added: seq<Check>)
    requires e.Add? && Enabled(s, e) && Inv(s, added)
    ensures Inv(Apply(s, e), added + e.checks)
  {
    hide Conserved, Counters, Batches;
    var s' := Apply(s, e);
    assert Alike(s.threads, s'.threads);
    AlikeTotals(s.threads, s'.threads);
    AddConserves(s.q, s.threads, s'.threads, added, e.checks);
    assert Counters(s'.q, s'.threads, 0) by { AlikeCounters(s.q, s.threads, s'.q, s'.threads, 0); }
    assert Batches(s'.q, s'.threads) by { AlikeBatches(s.q, s.threads, s'.q, s'.threads); }
  }

  lemma AddConserves(q: Shared, threads: seq<Thread>, threads': seq<Thread>, added: seq<Check>, checks: seq<Check>)
    requires Conserved(q, threads, added) && InHand(threads) == InHand(threads')
    ensures Conserved(q.(queue := q.queue + checks, nTodo := q.nTodo + |checks|), threads', added + checks)
  {
    var q' := q.(queue := q.queue + checks, nTodo := q.nTodo + |checks|);
    assert Open(q', threads') == Open(q, threads) + multiset(checks);
    assert multiset(added + checks) - Open(q', threads') == multiset(added) - Open(q, threads);
  }

  lemma AlikeCounters(q: Shared, threads: seq<Thread>, q': Shared, threads': seq<Thread>, inside: nat)
    requires Counters(q, threads, inside) && Alike(threads, threads') && q'.nIdle == q.nIdle && q'.nTotal == q.nTotal
    ensures Counters(q', threads', inside)
  {
    AlikeTotals(threads, threads');
  }

  lemma AlikeBatches(q: Shared, threads: seq<Thread>, q': Shared, threads': seq<Thread>)
    requires Batches(q, threads) && Alike(threads, threads') && (q'.fAllOk ==> q.fAllOk)
    ensures Batches(q', threads')
  {
  }

  // ----- Passing through the critical section -----

  /** In the middle of thread t's passage: its batch is accounted for and it stands outside all totals. */
  ghost predicate Midway(q: Shared, threads: seq<Thread>, t: nat, added: seq<Check>) {
    && t < |threads| && threads[t] == Outside
    && Counters(q, threads, 1)
    && Conserved(q, threads, added)
    && Batches(q, threads)
    && (t != 0 ==> MasterAware(q, threads))
  }

  ghost function MidThreads(s: System, t: nat): seq<Thread>
    requires t < |s.threads| && s.threads[t] != Gone
  {
    var notify := s.threads[t].Holding? && Settled(s, t).nTodo == 0 && t != 0;
    (if notify then NotifyMaster(s.threads) else s.threads)[t := Outside]
  }

  lemma SettleKeeps(s: System, t: nat, added: seq<Check>)
    requires Enabled(s, Pass(t)) && Inv(s, added)
    ensures Midway(Settled(s, t), MidThreads(s, t), t, added)
  {
    hide Conserved, Counters, Batches;
    var q, threads := Settled(s, t), s.threads[t := Outside];
    SettleCounters(s, t);
    SettleConserves(s, t, added);
    SettleBatches(s, t);
    var mid := MidThreads(s, t);
    assert Alike(threads, mid);
    AlikeCounters(q, threads, q, mid, 1);
    AlikeBatches(q, threads, q, mid);
    AlikeTotals(threads, mid);
    AlikeConserves(q, threads, mid, added);
    if s.threads[t].Holding? { HolderCounts(s, t, added); }
    if t != 0 { SettleMaster(s, t); }
  }

  lemma SettleCounters(s: System, t: nat)
    requires Enabled(s, Pass(t)) && Counters(s.q, s.threads, 0)
    ensures Counters(Settled(s, t), s.threads[t := Outside], 1)
  {
    CountUpdate(s.threads, ASLEEP, t, Outside);
    CountUpdate(s.threads, HOLDING, t, Outside);
  }

  lemma SettleConserves(s: System, t: nat, added: seq<Check>)
    requires Enabled(s, Pass(t)) && Conserved(s.q, s.threads, added) && Batches(s.q, s.threads)
    ensures Conserved(Settled(s, t), s.threads[t := Outside], added)
  {
    hide AllOf, InHand, AllHold;
    var hand, batch := InHand(s.threads), Batch(s.threads[t]);
    InHandUpdate(s.threads, t, Outside);
    assert InHand(s.threads[t := Outside]) == hand - batch;
    if s.threads[t].Holding? {
      BatchOut(multiset(s.q.queue), hand, batch);
      Finished(multiset(added), multiset(s.q.queue) + hand, batch);
      AllOfSeq(s.threads[t].batch);
    } else {
      assert hand - batch == hand;
    }
  }

  lemma BatchOut(queue: multiset<Check>, hand: multiset<Check>, batch: multiset<Check>)
    requires batch <= hand
    ensures queue + (hand - batch) == queue + hand - batch && |hand - batch| == |hand| - |batch|
    ensures batch <= queue + hand
  {
    assert hand == hand - batch + batch;
  }

  /** What is finished grows by the batch. */
  lemma Finished(added: multiset<Check>, open: multiset<Check>, batch: multiset<Check>)
    requires batch <= open <= added
    ensures added - (open - batch) == added - open + batch
    ensures AllOf(added - (open - batch)) <==> AllOf(added - open) && AllOf(batch)
  {
    assert added - (open - batch) == added - open + batch;
  }

  lemma AllOfSeq(checks: seq<Check>)
    ensures AllHold(checks) <==> AllOf(multiset(checks))
  {
    if AllOf(multiset(checks)) {
      forall i | 0 <= i < |checks| ensures checks[i].holds { assert checks[i] in multiset(checks); }
    }
  }

  lemma AlikeConserves(q: Shared, threads: seq<Thread>, threads': seq<Thread>, added: seq<Check>)
    requires Conserved(q, threads, added) && InHand(threads) == InHand(threads')
    ensures Conserved(q, threads', added)
  {
  }

  lemma SettleBatches(s: System, t: nat)
    requires Enabled(s, Pass(t)) && Batches(s.q, s.threads)
    ensures Batches(Settled(s, t), s.threads[t := Outside])
  {
  }

  lemma SettleMaster(s: System, t: nat)
    requires Enabled(s, Pass(t)) && t != 0 && MasterAware(s.q, s.threads)
    requires s.threads[t].Holding? ==> 0 < |s.threads[t].batch| <= s.q.nTodo
    ensures MasterAware(Settled(s, t), MidThreads(s, t))
  {
  }

  lemma HolderCounts(s: System, t: nat, added: seq<Check>)
    requires t < |s.threads| && s.threads[t].Holding? && Conserved(s.q, s.threads, added) && Batches(s.q, s.threads)
    ensures 0 < |s.threads[t].batch| <= s.q.nTodo
  {
    hide AllOf, InHand;
    InHandUpdate(s.threads, t, Outside);
    BatchOut(multiset{}, InHand(s.threads), multiset(s.threads[t].batch));
  }

  lemma {:induction false} TakenRest(queue: seq<Check>, n: nat)
    requires n <= |queue|
    ensures multiset(queue) == multiset(queue[..|queue| - n]) + multiset(Taken(queue, n))
  {
    if n == 0 {
      assert queue[..|queue|] == queue;
    } else {
      TakenRest(queue, n - 1);
      var m := |queue| - n;
      assert queue[..m + 1] == queue[..m] + [queue[m]];
      assert Taken(queue, n) == Taken(queue, n - 1) + [queue[m]];
    }
  }

  lemma LeaveCounters(q: Shared, threads: seq<Thread>, t: nat)
    requires t < |threads| && threads[t] == Outside && Counters(q, threads, 1)
    ensures Counters(Left(q, t == 0), threads[t := ThreadAfter(Leave(q, t == 0), t == 0)], 0)
  {
    var thread := ThreadAfter(Leave(q, t == 0), t == 0);
    CountUpdate(threads, ASLEEP, t, thread);
    CountUpdate(threads, HOLDING, t, thread);
  }

  lemma TookConserves(q: Shared, threads: seq<Thread>, t: nat, added: seq<Check>)
    requires t < |threads| && threads[t] == Outside && Conserved(q, threads, added) && q.queue != []
    ensures Conserved(Left(q, t == 0), threads[t := ThreadAfter(Leave(q, t == 0), t == 0)], added)
  {
    hide AllOf, InHand, BatchSize, Taken;
    BatchFits(q);
    var n := BatchSize(q);
    var batch, thread := Taken(q.queue, n), Holding(Taken(q.queue, n), q.fAllOk);
    InHandUpdate(threads, t, thread);
    TakenRest(q.queue, n);
    TakenSize(q.queue, n);
    var threads' := threads[t := thread];
    assert InHand(threads') == InHand(threads) + multiset(batch);
    assert Open(Left(q, t == 0), threads') == Open(q, threads);
  }

  lemma TakenSize(queue: seq<Check>, n: nat)
    requires n <= |queue|
    ensures |Taken(queue, n)| == n
  {
  }

  lemma TookBatches(q: Shared, threads: seq<Thread>, t: nat)
    requires t < |threads| && Batches(q, threads) && q.queue != []
    ensures Batches(Left(q, t == 0), threads[t := ThreadAfter(Leave(q, t == 0), t == 0)])
  {
    BatchFits(q);
  }

  lemma OtherKeeps(q: Shared, q': Shared, threads: seq<Thread>, t: nat, thread: Thread, added: seq<Check>)
    requires t < |threads| && threads[t] == Outside && !thread.Holding? && Conserved(q, threads, added)
    requires Batches(q, threads)
    requires q'.queue == q.queue && q'.nTodo == q.nTodo && q'.fAllOk == q.fAllOk
    ensures Conserved(q', threads[t := thread], added) && Batches(q', threads[t := thread])
  {
    InHandUpdate(threads, t, thread);
  }

  /** When nothing is left to do, nobody holds anything and the status is that of everything added. */
  lemma AllFinished(q: Shared, threads: seq<Thread>, added: seq<Check>)
    requires Conserved(q, threads, added) && Batches(q, threads) && q.nTodo == 0
    ensures q.queue == [] && InHand(threads) == multiset{} && Count(threads, HOLDING) == 0
    ensures forall t :: 0 <= t < |threads| ==> !threads[t].Holding?
    ensures q.fAllOk <==> AllHold(added)
  {
    NoneInHand(threads);
    assert Open(q, threads) == multiset{};
    AllOfSeq(added);
  }

  lemma LeaveKeeps(q: Shared, threads: seq<Thread>, t: nat, added: seq<Check>)
    requires Midway(q, threads, t, added)
    ensures Inv(System(Left(q, t == 0), threads[t := ThreadAfter(Leave(q, t == 0), t == 0)]),
                if t == 0 && Leave(q, true).Returns? then [] else added)
  {
    hide Conserved, Counters, Batches, Count, InHand;
    var thread := ThreadAfter(Leave(q, t == 0), t == 0);
    LeaveCounters(q, threads, t);
    if q.queue != [] {
      TookConserves(q, threads, t, added);
      TookBatches(q, threads, t);
    } else if t == 0 && q.nTodo == 0 {
      AllFinished(q, threads, added);
      assert threads[t := thread] == threads;
      Restart(Left(q, true), threads);
    } else {
      OtherKeeps(q, Left(q, t == 0), threads, t, thread, added);
    }
  }

  lemma Restart(q: Shared, threads: seq<Thread>)
    requires q.queue == [] && q.nTodo == 0 && q.fAllOk && InHand(threads) == multiset{}
    requires forall t :: 0 <= t < |threads| ==> !threads[t].Holding?
    ensures Conserved(q, threads, []) && Batches(q, threads)
  {
  }

  /** One passage keeps the invariant; where it ends a `Wait`, counting starts afresh. */
  lemma PassKeeps(s: System, t: nat, added: seq<Check>)
    requires Enabled(s, Pass(t)) && Inv(s, added)
    ensures Inv(Apply(s, Pass(t)), if WaitReturns(s, Pass(t)) then [] else added)
  {
    hide Inv, Midway, Left, Leave, ThreadAfter;
    SettleKeeps(s, t, added);
    LeaveKeeps(Settled(s, t), MidThreads(s, t), t, added);
    var thread := ThreadAfter(Leave(Settled(s, t), t == 0), t == 0);
    assert MidThreads(s, t)[t := thread] == Apply(s, Pass(t)).threads;
  }

  // ----- Safety over every run -----

  lemma InitialInv(s: System)
    requires Initial(s)
    ensures Inv(s, [])
  {
    NothingYet(s.threads);
    Restart(s.q, s.threads);
  }

  lemma {:induction false} NothingYet(threads: seq<Thread>)
    requires forall t :: 0 <= t < |threads| ==> threads[t] == Outside
    ensures InHand(threads) == multiset{} && Count(threads, ASLEEP) == 0 && Count(threads, HOLDING) == 0
  {
    if threads != [] { NothingYet(threads[1..]); }
  }

  /** Whenever the mutex is free, in any interleaving, the invariant holds. */
  lemma {:induction false} RunKeeps(s: System, events: seq<Event>)
    requires Initial(s) && Feasible(s, events)
    ensures Inv(After(s, events), Pending(s, events))
    decreases |events|
  {
    hide Inv, Initial, Apply, WaitReturns;
    if events == [] {
      InitialInv(s);
    } else {
      var before, e := After(s, Front(events)), Last(events);
      RunKeeps(s, Front(events));
      if e.Add? {
        NotReturning(before, e);
        AddKeeps(before, e, Pending(s, Front(events)));
      } else {
        PassKeeps(before, e.thread, Pending(s, Front(events)));
      }
    }
  }

  lemma NotReturning(s: System, e: Event)
    requires Enabled(s, e) && e.Add?
    ensures !WaitReturns(s, e)
  {
  }

  /** `Wait` returns true exactly when every check added since the previous `Wait` holds, and only when
    * nothing is queued and no thread holds a batch. */
  lemma WaitCorrect(s: System, events: seq<Event>)
    requires Initial(s) && Feasible(s, events) && Enabled(After(s, events), Pass(0))
    requires WaitReturns(After(s, events), Pass(0))
    ensures Leave(Settled(After(s, events), 0), true) == Returns(AllHold(Pending(s, events)))
    ensures var after := Apply(After(s, events), Pass(0));
            after.q.queue == [] && after.q.nTodo == 0 && InHand(after.threads) == multiset{}
  {
    var before := After(s, events);
    RunKeeps(s, events);
    SettleKeeps(before, 0, Pending(s, events));
    AllFinished(Settled(before, 0), MidThreads(before, 0), Pending(s, events));
    assert Apply(before, Pass(0)).threads == MidThreads(before, 0);
  }

  /** The arithmetic of the counters, whenever the mutex is free; and the divisor of the batch size is positive. */
  lemma CountersExact(s: System, events: seq<Event>)
    requires Initial(s) && Feasible(s, events)
    ensures var x := After(s, events);
            && x.q.nTodo == |x.q.queue| + |InHand(x.threads)|
            && x.q.nTotal - x.q.nIdle == Count(x.threads, HOLDING)
            && x.q.nIdle == Count(x.threads, ASLEEP)
            && (forall t: nat :: Enabled(x, Pass(t)) ==> Settled(x, t).nTotal + Settled(x, t).nIdle + 1 > 0)
  {
    RunKeeps(s, events);
    var x := After(s, events);
    forall t: nat | Enabled(x, Pass(t)) ensures Settled(x, t).nTotal + Settled(x, t).nIdle + 1 > 0 {
      SettleCounters(x, t);
    }
  }

  /** The master never sleeps through the end of the work. */
  lemma NeverForgotten(s: System, events: seq<Event>)
    requires Initial(s) && Feasible(s, events)
    ensures var x := After(s, events); x.threads[0] == Asleep(false) ==> x.q.nTodo > 0 && Count(x.threads, HOLDING) > 0
  {
    RunKeeps(s, events);
    var x := After(s, events);
    if x.threads[0] == Asleep(false) && Count(x.threads, HOLDING) == 0 { NoHolder(x.threads); }
  }

  lemma {:induction false} NoHolder(threads: seq<Thread>)
    requires Count(threads, HOLDING) == 0
    ensures InHand(threads) == multiset{}
  {
    if threads != [] { NoHolder(threads[1..]); }
  }

  // ----- Idle between Wait and Add -----

  ghost predicate Resting(s: System, added: seq<Check>) {
    Inv(s, added) && added == [] && s.threads[0] == Outside
  }

  lemma RestingIdle(s: System, added: seq<Check>)
    requires Resting(s, added)
    ensures Idle(s.q)
  {
    assert Open(s.q, s.threads) == multiset{};
    AllFinished(s.q, s.threads, added);
  }

  lemma RestingStays(s: System, t: nat)
    requires Resting(s, []) && Enabled(s, Pass(t))
    ensures Resting(Apply(s, Pass(t)), [])
  {
    PassKeeps(s, t, []);
    assert Open(s.q, s.threads) == multiset{};
    AllFinished(s.q, s.threads, []);
  }

  /** From each return of `Wait` until the next `Add` the queue is idle, whatever the threads do. */
  lemma {:induction false} IdleUntilAdd(s: System, events: seq<Event>, n: nat)
    requires Initial(s) && Feasible(s, events) && n < |events|
    requires Feasible(s, events[..n]) && Enabled(After(s, events[..n]), events[n])
    requires WaitReturns(After(s, events[..n]), events[n])
    requires forall i :: n < i < |events| ==> !events[i].Add?
    ensures Resting(After(s, events), Pending(s, events)) && Idle(After(s, events).q)
    decreases |events|
  {
    hide Inv, Initial, Apply, WaitReturns, Idle;
    var front := Front(events);
    RunKeeps(s, events);
    if n == |front| {
      assert front == events[..n];
      RunKeeps(s, front);
      ReturnRests(After(s, front), events[n], Pending(s, front));
    } else {
      assert front[..n] == events[..n];
      IdleUntilAdd(s, front, n);
      RestingStays(After(s, front), Last(events).thread);
    }
    RestingIdle(After(s, events), Pending(s, events));
  }

  lemma ReturnRests(s: System, e: Event, added: seq<Check>)
    requires Inv(s, added) && Enabled(s, e) && WaitReturns(s, e)
    ensures Resting(Apply(s, e), [])
  {
    PassKeeps(s, 0, added);
  }

  // ----- Wait always comes to an end -----

  /** Threads that will go to the lock by themselves, other than those at work. */
  const READY: Thread -> bool := (t: Thread) => t.Outside? || t == Asleep(true)

  /** How many more passages can happen before `Wait` returns, not counting wake-ups without a notification. */
  ghost function Rank(s: System): int {
    2 * s.q.nTodo + |s.q.queue| + Count(s.threads, READY)
  }

  /** While the master is in `Wait`, some thread will move without being woken for no reason. */
  lemma NoDeadlock(s: System, added: seq<Check>) returns (t: nat)
    requires Inv(s, added) && s.threads[0] != Outside
    ensures Enabled(s, Pass(t)) && s.threads[t] != Asleep(false)
  {
    t := 0;
    if s.threads[0] == Asleep(false) { t := SomeHolder(s.threads); }
  }

  lemma {:induction false} SomeHolder(threads: seq<Thread>) returns (t: nat)
    requires |InHand(threads)| > 0
    ensures t < |threads| && threads[t].Holding?
  {
    t := 0;
    if !threads[0].Holding? {
      t := SomeHolder(threads[1..]);
      t := t + 1;
    }
  }

  /** Every passage but a wake-up without a notification brings the end of `Wait` nearer, and such a wake-up puts it
    * no further off.
    */
  lemma RankFalls(s: System, t: nat, added: seq<Check>)
    requires Inv(s, added) && s.threads[0] != Outside && Enabled(s, Pass(t)) && !WaitReturns(s, Pass(t))
    ensures 0 <= Rank(Apply(s, Pass(t))) <= Rank(s)
    ensures s.threads[t] != Asleep(false) ==> Rank(Apply(s, Pass(t))) < Rank(s)
  {
    hide Counters, Conserved, InHand, Count, Taken, BatchSize;
    PassKeeps(s, t, added);
    var s', q := Apply(s, Pass(t)), Settled(s, t);
    NotNegative(s'.q, s'.threads, if WaitReturns(s, Pass(t)) then [] else added);
    if q.queue != [] { BatchFits(q); }
    NotifiedRank(s, t, added);
    var notify := s.threads[t].Holding? && q.nTodo == 0 && t != 0;
    CountUpdate(if notify then NotifyMaster(s.threads) else s.threads, READY, t, s'.threads[t]);
  }

  lemma NotNegative(q: Shared, threads: seq<Thread>, added: seq<Check>)
    requires Conserved(q, threads, added)
    ensures q.nTodo >= 0
  {
  }

  /** A notification makes at most one more thread ready. */
  lemma NotifiedRank(s: System, t: nat, added: seq<Check>)
    requires Inv(s, added)
    ensures Count(NotifyMaster(s.threads), READY) <= Count(s.threads, READY) + 1
  {
    CountUpdate(s.threads, READY, 0, Asleep(true));
  }

  ghost predicate StaysInWait(s: System, events: seq<Event>)
    requires Feasible(s, events)
  {
    && |After(s, events).threads| > 0 && After(s, events).threads[0] != Outside
    && (events != [] ==> StaysInWait(s, Front(events)))
  }

  /** The passages that are not wake-ups without a notification. */
  ghost function Moves(s: System, events: seq<Event>): nat
    requires Feasible(s, events)
  {
    if events == [] then 0
    else Moves(s, Front(events)) +
         if Last(events).Pass? && After(s, Front(events)).threads[Last(events).thread] != Asleep(false) then 1 else 0
  }

  /** However the threads are scheduled, `Wait` is over after a bounded number of moves. */
  lemma {:induction false} WaitEnds(s: System, events: seq<Event>, added: seq<Check>)
    requires Inv(s, added) && Feasible(s, events) && StaysInWait(s, events)
    ensures Inv(After(s, events), added)
    ensures Moves(s, events) + Rank(After(s, events)) <= Rank(s)
    decreases |events|
  {
    hide Inv, Apply, Rank;
    if events != [] {
      var before, e := After(s, Front(events)), Last(events);
      WaitEnds(s, Front(events), added);
      NoReturn(before, e);
      PassKeeps(before, e.thread, added);
      RankFalls(before, e.thread, added);
    }
  }

  lemma NoReturn(s: System, e: Event)
    requires Enabled(s, e) && |s.threads| > 0 && s.threads[0] != Outside && Apply(s, e).threads[0] != Outside
    ensures e.Pass? && !WaitReturns(s, e)
  {
  }
}
