/** The queue of verifications shared by a master and its workers (src/checkqueue.h).
  *
  * The class holds the state that the mutex protects; `Arrive` and `Add` are its critical
  * sections, each from taking the lock to releasing it or going to sleep on a condition
  * variable. CheckQueueRuns puts any number of threads around it.
  */
module CheckQueue {
  import opened Numbers

  /** A verification, with what evaluating it returns. */
  datatype Check = Check(id: nat, holds: bool)

  /** The fields of the queue. */
  datatype Shared = Shared(queue: seq<Check>, nIdle: int, nTotal: int, fAllOk: bool, nTodo: int, fQuit: bool,
                           nBatchSize: nat)

  /** How a thread comes to the lock: for the first time, with a finished batch, or woken from sleep. */
  datatype Arrival = First | Done(nNow: nat, fOk: bool) | Woken

  /** How it leaves: with a batch and the status at that time, asleep, or out of the loop. */
  datatype Outcome = Took(vChecks: seq<Check>, fOk: bool) | Sleeps | Returns(fRet: bool)

  predicate AllHold(checks: seq<Check>) {
    forall i :: 0 <= i < |checks| ==> checks[i].holds
  }

  /** How many checks to take at once. The divisor is never below one in a run (CheckQueueRuns.CountersExact). */
  function BatchSize(q: Shared): int {
    Max(1, Min(q.nBatchSize, |q.queue| / Max(1, q.nTotal + q.nIdle + 1)))
  }

  lemma BatchFits(q: Shared)
    requires q.queue != []
    ensures 1 <= BatchSize(q) <= |q.queue|
  {
    var d := Max(1, q.nTotal + q.nIdle + 1);
    assert |q.queue| / d <= |q.queue| by { DivideShrinks(|q.queue|, d); }
  }

  /** It is the largest number within the limit of which every thread could take as many, and at least one. */
  lemma BatchShare(q: Shared, n: nat)
    requires q.nTotal + q.nIdle >= 0
    ensures var (k, threads) := (BatchSize(q), q.nTotal + q.nIdle + 1);
            && k >= 1 && (k > 1 ==> k <= q.nBatchSize && k * threads <= |q.queue|)
            && (n <= q.nBatchSize && n * threads <= |q.queue| ==> n <= k)
  {
    var d := q.nTotal + q.nIdle + 1;
    var share := |q.queue| / d;
    assert |q.queue| == share * d + |q.queue| % d;
    Times(Min(BatchSize(q), share), share, d);
    Times(share + 1, Max(n, share + 1), d);
    Spread(share, 1, 0, d);
  }

  lemma DivideShrinks(n: nat, d: nat)
    requires d >= 1
    ensures n / d <= n
  {
    var k := n / d;
    assert n == d * k + n % d;
    assert d * k >= k;
  }

  /** The last n elements, last first. */
  function Taken(queue: seq<Check>, n: nat): seq<Check>
    requires n <= |queue|
  {
    seq(n, i requires 0 <= i < n => queue[|queue| - 1 - i])
  }

  /** The bookkeeping on taking the lock. */
  function Settle(q: Shared, arrival: Arrival): Shared {
    match arrival
    case First => q.(nTotal := q.nTotal + 1)
    case Done(nNow, fOk) => q.(fAllOk := q.fAllOk && fOk, nTodo := q.nTodo - nNow)
    case Woken => q.(nIdle := q.nIdle - 1)
  }

  /** What the thread does before it lets go of the lock. */
  function Leave(q: Shared, fMaster: bool): Outcome {
    if q.queue != [] then BatchFits(q); Took(Taken(q.queue, BatchSize(q)), q.fAllOk)
    else if (fMaster || q.fQuit) && q.nTodo == 0 then Returns(q.fAllOk)
    else Sleeps
  }

  /** The fields after that. */
  function Left(q: Shared, fMaster: bool): Shared {
    match Leave(q, fMaster)
    case Took(_, _) => BatchFits(q); q.(queue := q.queue[..|q.queue| - BatchSize(q)])
    case Returns(_) => q.(nTotal := q.nTotal - 1, fAllOk := q.fAllOk || fMaster)
    case Sleeps => q.(nIdle := q.nIdle + 1)
  }

  predicate Idle(q: Shared) {
    q.nTotal == q.nIdle && q.nTodo == 0 && q.fAllOk
  }

  class CCheckQueue {
    var queue: seq<Check>
    var nIdle: int
    var nTotal: int
    var fAllOk: bool
    var nTodo: int
    const fQuit: bool := false
    const nBatchSize: nat

    ghost function State(): Shared
      reads this
    {
      Shared(queue, nIdle, nTotal, fAllOk, nTodo, fQuit, nBatchSize)
    }

    constructor (nBatchSize: nat)
      ensures State() == Shared([], 0, 0, true, 0, false, nBatchSize)
    {
      this.nBatchSize := nBatchSize;
      queue, nIdle, nTotal, fAllOk, nTodo := [], 0, 0, true, 0;
    }

    /** One passage through the critical section of the loop. */
    method Arrive(fMaster: bool, arrival: Arrival) returns (outcome: Outcome, notifyMaster: bool)
      requires var q := Settle(State(), arrival); q.nTotal + q.nIdle >= 0
      modifies this
      ensures outcome == Leave(Settle(old(State()), arrival), fMaster)
      ensures State() == Left(Settle(old(State()), arrival), fMaster)
      ensures notifyMaster <==> arrival.Done? && nTodo == 0 && !fMaster
    {
      notifyMaster := false;
      match arrival {
        case Done(nNow, fOk) =>
          fAllOk := fAllOk && fOk;
          nTodo := nTodo - nNow;
          if nTodo == 0 && !fMaster {
            notifyMaster := true;
          }
        case First =>
          nTotal := nTotal + 1;
        case Woken =>
          nIdle := nIdle - 1;
      }
      if queue == [] {
        if (fMaster || fQuit) && nTodo == 0 {
          nTotal := nTotal - 1;
          var fRet := fAllOk;
          if fMaster {
            fAllOk := true;
          }
          return Returns(fRet), notifyMaster;
        }
        nIdle := nIdle + 1;
        return Sleeps, notifyMaster;
      }
      var vChecks := TakeBatch();
      outcome := Took(vChecks, fAllOk);
    }

    /** Move a batch from the end of the queue into the thread's hands. */
    method TakeBatch() returns (vChecks: seq<Check>)
      requires queue != [] && nTotal + nIdle >= 0
      modifies this`queue
      ensures 1 <= BatchSize(old(State())) <= |old(queue)|
      ensures vChecks == Taken(old(queue), BatchSize(old(State())))
      ensures queue == old(queue)[..|old(queue)| - |vChecks|]
    {
      BatchFits(State());
      var nNow := Max(1, Min(nBatchSize, |queue| / (nTotal + nIdle + 1)));
      vChecks := [];
      var i := 0;
      while i < nNow
        invariant 0 <= i <= nNow && |vChecks| == i
        invariant queue == old(queue)[..|old(queue)| - i]
        invariant forall k :: 0 <= k < i ==> vChecks[k] == old(queue)[|old(queue)| - 1 - k]
      {
        vChecks := vChecks + [queue[|queue| - 1]];
        queue := queue[..|queue| - 1];
        i := i + 1;
      }
    }

    /** Run a batch outside the lock; nothing is evaluated any more once a check has failed. */
    static method Execute(vChecks: seq<Check>, fOk: bool) returns (ok: bool)
      ensures ok <==> fOk && AllHold(vChecks)
    {
      ok := fOk;
      for i := 0 to |vChecks|
        invariant ok <==> fOk && AllHold(vChecks[..i])
      {
        assert vChecks[..i + 1] == vChecks[..i] + [vChecks[i]];
        if ok {
          ok := vChecks[i].holds;
        }
      }
      assert vChecks[..|vChecks|] == vChecks;
    }

    /** Append a batch of checks; says how many sleeping workers to notify. */
    method Add(vChecks: seq<Check>) returns (notifyOne: bool, notifyAll: bool)
      modifies this`queue, this`nTodo
      ensures queue == old(queue) + vChecks && nTodo == old(nTodo) + |vChecks|
      ensures (notifyOne <==> |vChecks| == 1) && (notifyAll <==> |vChecks| > 1)
    {
      for i := 0 to |vChecks|
        invariant queue == old(queue) + vChecks[..i] && nTodo == old(nTodo)
      {
        assert vChecks[..i + 1] == vChecks[..i] + [vChecks[i]];
        queue := queue + [vChecks[i]];
      }
      assert vChecks[..|vChecks|] == vChecks;
      nTodo := nTodo + |vChecks|;
      notifyOne, notifyAll := |vChecks| == 1, |vChecks| > 1;
    }

    method IsIdle() returns (idle: bool)
      ensures idle <==> Idle(State())
    {
      idle := nTotal == nIdle && nTodo == 0 && fAllOk;
    }
  }
}
