/** Runs of the cuckoo cache, as far as they can be seen from outside (src/cuckoocache.h:288-320, 392-479).
  *
  * What can be seen is which elements are live, which of them belong to the current epoch,
  * and the counter. An element leaves because it is erased, because it is the one dropped
  * when the displacements run out, or because its epoch has grown old twice.
  */
module CuckooRuns {
  import opened Cuckoo
  import opened Options

  datatype View = View(live: set<Element>, current: set<Element>, counter: nat)

  datatype Op = Insertion(e: Element) | Erasure(e: Element)

  ghost function Seen(c: Cells, counter: nat): View
    requires Shaped(c)
  {
    View(Live(c), Fresh(c), counter)
  }

  ghost function Only(dropped: Option<Element>): set<Element> {
    match dropped case None => {} case Some(d) => {d}
  }

  /** An epoch ends: the counter has run out, and the current epoch is full. */
  ghost predicate EpochEnds(v: View, epochSize: nat) {
    v.counter == 0 && |v.current| >= epochSize
  }

  /** A wait that is positive, not below a sixteenth of the epoch, and long enough to fill the epoch up. */
  ghost predicate Enough(size: nat, epochSize: nat, k: nat) {
    k >= 1 && k >= epochSize / 16 && size + k >= epochSize
  }

  ghost predicate LeastWait(size: nat, epochSize: nat, k: nat) {
    Enough(size, epochSize, k) && forall j: nat :: Enough(size, epochSize, j) ==> j >= k
  }

  /** One call: what the epoch leaves, the element that comes, and the one that is dropped. */
  ghost predicate Follows(v: View, op: Op, dropped: Option<Element>, v': View, epochSize: nat) {
    match op
    case Erasure(e) =>
      dropped.None? && v' == v.(live := v.live - {e}, current := v.current - {e})
    case Insertion(e) =>
      && v'.live == (if EpochEnds(v, epochSize) then v.current else v.live) + {e} - Only(dropped)
      && v'.current == (if EpochEnds(v, epochSize) then {} else v.current) + {e} - Only(dropped)
      && (v.counter > 0 ==> v'.counter == v.counter - 1)
      && (EpochEnds(v, epochSize) ==> v'.counter == epochSize)
      && (v.counter == 0 && |v.current| < epochSize ==> LeastWait(|v.current|, epochSize, v'.counter))
  }

  /** A call that checked the epoch first, and then put the element in, follows the view before. */
  lemma InsertionFollows(h: Hashes, c: Cells, counter: nat, epochSize: nat, e: Element, dropped: Option<Element>,
                         c': Cells)
    requires Shaped(c) && Consistent(h, c) && Shaped(c') && Shaped(Checked(c, counter, epochSize).0)
    requires var (before, counter') := Checked(c, counter, epochSize);
             && Live(c') == Live(before) + {e} - Only(dropped)
             && Fresh(c') == Fresh(before) + {e} - Only(dropped)
    ensures Follows(Seen(c, counter), Insertion(e), dropped, Seen(c', Checked(c, counter, epochSize).1), epochSize)
  {
    hide Live, Fresh, Consistent;
    CheckedLive(h, c, counter, epochSize);
  }

  ghost predicate IsRun(views: seq<View>, ops: seq<Op>, drops: seq<Option<Element>>, epochSize: nat) {
    && |views| == |ops| + 1 && |drops| == |ops|
    && forall i :: 0 <= i < |ops| ==> Follows(views[i], ops[i], drops[i], views[i + 1], epochSize)
  }

  ghost function Insertions(ops: seq<Op>): nat {
    if ops == [] then 0
    else Insertions(ops[..|ops| - 1]) + if ops[|ops| - 1].Insertion? then 1 else 0
  }

  /** e is live; and if it has grown old, the k insertions since it came and the counter exceed the epoch. */
  ghost predicate Lasting(v: View, e: Element, k: nat, epochSize: nat) {
    e in v.live && (e in v.current || v.counter + k > epochSize)
  }

  lemma StillLasting(v: View, op: Op, dropped: Option<Element>, v': View, e: Element, k: nat, epochSize: nat)
    requires Lasting(v, e, k, epochSize) && Follows(v, op, dropped, v', epochSize)
    requires op != Erasure(e) && dropped != Some(e)
    requires op.Insertion? ==> k <= epochSize
    ensures Lasting(v', e, k + if op.Insertion? then 1 else 0, epochSize)
  {
  }

  /** An inserted element stays live through one more insertion than an epoch holds, unless it is erased or dropped. */
  lemma {:induction false} InsertedLasts(views: seq<View>, ops: seq<Op>, drops: seq<Option<Element>>, epochSize: nat,
                                         e: Element)
    requires IsRun(views, ops, drops, epochSize) && ops != [] && ops[0] == Insertion(e)
    requires forall i :: 1 <= i < |ops| ==> ops[i] != Erasure(e)
    requires forall i :: 0 <= i < |ops| ==> drops[i] != Some(e)
    requires Insertions(ops) <= epochSize + 2
    ensures e in views[|ops|].live
  {
    assert ops[..|ops|] == ops;
    LastsUpTo(views, ops, drops, epochSize, e, |ops|);
  }

  lemma {:induction false} LastsUpTo(views: seq<View>, ops: seq<Op>, drops: seq<Option<Element>>, epochSize: nat,
                                     e: Element, n: nat)
    requires IsRun(views, ops, drops, epochSize) && 1 <= n <= |ops| && ops[0] == Insertion(e)
    requires forall i :: 1 <= i < n ==> ops[i] != Erasure(e)
    requires forall i :: 0 <= i < n ==> drops[i] != Some(e)
    requires Insertions(ops[..n]) <= epochSize + 2
    ensures Insertions(ops[..n]) >= 1 && Lasting(views[n], e, Insertions(ops[..n]) - 1, epochSize)
    decreases n
  {
    hide Lasting;
    assert ops[..n][..n - 1] == ops[..n - 1];
    if n == 1 {
      assert Insertions(ops[..0]) == 0;
      JustCame(views[0], drops[0], views[1], e, epochSize);
    } else {
      LastsUpTo(views, ops, drops, epochSize, e, n - 1);
      StillLasting(views[n - 1], ops[n - 1], drops[n - 1], views[n], e, Insertions(ops[..n - 1]) - 1, epochSize);
    }
  }

  lemma JustCame(v: View, dropped: Option<Element>, v': View, e: Element, epochSize: nat)
    requires Follows(v, Insertion(e), dropped, v', epochSize) && dropped != Some(e)
    ensures Lasting(v', e, 0, epochSize)
  {
  }

  /** What leaves the live set: what is erased, what is dropped, and at the end of an epoch what is not of it. */
  lemma LeavesOnlyFor(v: View, op: Op, dropped: Option<Element>, v': View, epochSize: nat, e: Element)
    requires Follows(v, op, dropped, v', epochSize) && e in v.live
    ensures e !in v'.live <==>
              || op == Erasure(e) || (op.Insertion? && dropped == Some(e))
              || (op.Insertion? && EpochEnds(v, epochSize) && e !in v.current && op != Insertion(e))
  {
  }
}
