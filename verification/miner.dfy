/** The block assembler (src/miner.h, src/miner.cpp).
  *
  * It fills a block from the memory pool: first by priority, one transaction at a time,
  * then by packages of a transaction with those of its ancestors that are not yet in the
  * block. Priorities are any numbers, and the highest goes first. The comparison of packages is a
  * parameter, since the source does it in floating point: whatever it is, the block is valid; and where it
  * is a strict order, the best package goes first.
  */
module Miner {
  import opened Mempool
  import opened Numbers
  import opened Packages

  const MAX_BLOCK_SIZE: nat := 1000000
  const MAX_BLOCK_SIGOPS: nat := MAX_BLOCK_SIZE / 50
  const DEFAULT_BLOCK_MAX_SIZE: nat := 750000

  /** TxCoinAgePriority: a transaction in the priority queue. */
  datatype Candidate = Candidate(priority: int, tx: nat)

  // ----- What a block is -----

  ghost function Txs(vtx: seq<nat>): set<nat> {
    set t | t in vtx
  }

  /** Every transaction once, and after all its parents. */
  ghost predicate Ordered(pool: Pool, vtx: seq<nat>) {
    && (forall i :: 0 <= i < |vtx| ==> Placeable(pool, vtx[i], vtx[..i]))
    && (forall i, j :: 0 <= i < j < |vtx| ==> vtx[i] != vtx[j])
  }

  ghost predicate Placeable(pool: Pool, t: nat, before: seq<nat>) {
    t in pool && pool[t].parents <= Txs(before)
  }

  ghost function FeesOf(pool: Pool, vtx: seq<nat>): seq<int>
    requires forall i :: 0 <= i < |vtx| ==> vtx[i] in pool
  {
    seq(|vtx|, i requires 0 <= i < |vtx| => pool[vtx[i]].fee)
  }

  ghost function SigOpCosts(pool: Pool, vtx: seq<nat>): seq<nat>
    requires forall i :: 0 <= i < |vtx| ==> vtx[i] in pool
  {
    seq(|vtx|, i requires 0 <= i < |vtx| => pool[vtx[i]].sigOps)
  }

  ghost function SumSeq(xs: seq<int>): int {
    if xs == [] then 0 else SumSeq(xs[..|xs| - 1]) + xs[|xs| - 1]
  }

  lemma {:induction false} OrderedPrefix(pool: Pool, vtx: seq<nat>, n: nat)
    requires Ordered(pool, vtx) && n <= |vtx|
    ensures Ordered(pool, vtx[..n])
  {
    forall i | 0 <= i < n ensures Placeable(pool, vtx[..n][i], vtx[..n][..i]) {
      assert vtx[..n][..i] == vtx[..i];
      assert Placeable(pool, vtx[i], vtx[..i]);
    }
  }

  /** A block in which parents come first contains the ancestors of everything in it. */
  lemma {:induction false} OrderedClosed(pool: Pool, vtx: seq<nat>)
    requires Closure(pool) && Ordered(pool, vtx)
    ensures AncestorClosed(pool, Txs(vtx))
    decreases |vtx|
  {
    if vtx != [] {
      var n := |vtx| - 1;
      var t := vtx[n];
      OrderedPrefix(pool, vtx, n);
      OrderedClosed(pool, vtx[..n]);
      assert Placeable(pool, t, vtx[..n]);
      assert Txs(vtx) == Txs(vtx[..n]) + {t};
      forall a | a in pool[t].ancestors ensures a in Txs(vtx[..n]) {
        if a !in pool[t].parents {
          assert Through(pool, t, a);
          var p :| p in pool[t].parents && p in pool && a in pool[p].ancestors;
          assert p in Txs(vtx[..n]);
        }
      }
    }
  }

  lemma OrderedAppend(pool: Pool, vtx: seq<nat>, t: nat)
    requires Ordered(pool, vtx) && t !in Txs(vtx) && Placeable(pool, t, vtx)
    ensures Ordered(pool, vtx + [t])
    ensures Txs(vtx + [t]) == Txs(vtx) + {t}
  {
    var w := vtx + [t];
    forall i | 0 <= i < |w| ensures Placeable(pool, w[i], w[..i]) {
      if i < |vtx| {
        assert w[..i] == vtx[..i];
        assert Placeable(pool, vtx[i], vtx[..i]);
      } else {
        assert w[..i] == vtx;
      }
    }
  }

  lemma OrderedIn(pool: Pool, vtx: seq<nat>)
    requires Ordered(pool, vtx)
    ensures forall i :: 0 <= i < |vtx| ==> vtx[i] in pool
  {
    forall i | 0 <= i < |vtx| ensures vtx[i] in pool { assert Placeable(pool, vtx[i], vtx[..i]); }
  }

  lemma ListsAppend(pool: Pool, vtx: seq<nat>, t: nat)
    requires t in pool && forall i :: 0 <= i < |vtx| ==> vtx[i] in pool
    ensures FeesOf(pool, vtx + [t]) == FeesOf(pool, vtx) + [pool[t].fee]
    ensures SigOpCosts(pool, vtx + [t]) == SigOpCosts(pool, vtx) + [pool[t].sigOps]
    ensures SumSeq(FeesOf(pool, vtx) + [pool[t].fee]) == SumSeq(FeesOf(pool, vtx)) + pool[t].fee
    ensures SizeOf(pool)(t) == pool[t].size && SigOpsOf(pool)(t) == pool[t].sigOps
  {
    var fees := FeesOf(pool, vtx);
    assert (fees + [pool[t].fee])[..|fees|] == fees;
  }

  /** The configured size of a block, within what leaves room for the coinbase. */
  function Clamped(configuredMax: nat): nat {
    if configuredMax < 1000 then 1000
    else if configuredMax > MAX_BLOCK_SIZE - 1000 then MAX_BLOCK_SIZE - 1000 else configuredMax
  }

  /** No allowed size is nearer to the configured one. */
  lemma ClampedNearest(configuredMax: nat, size: nat)
    requires 1000 <= size <= MAX_BLOCK_SIZE - 1000
    ensures 1000 <= Clamped(configuredMax) <= MAX_BLOCK_SIZE - 1000
    ensures Distance(Clamped(configuredMax), configuredMax) <= Distance(size, configuredMax)
  {
  }

  ghost function Distance(a: int, b: int): nat {
    if a < b then b - a else a - b
  }

  // ----- What cannot be added -----

  /** A transaction with those of its ancestors that are not in the block cannot be added: one is not final, or the
    * block with all of them breaks a limit.
    */
  ghost predicate TooMuch(pool: Pool, isFinal: nat -> bool, maxSize: nat, inBlock: set<nat>, t: nat) {
    && t in pool
    && (|| (exists x :: x in Remaining(pool, inBlock, t) && !isFinal(x))
        || 1000 + Sum(SizeOf(pool), inBlock + Family(pool, t)) >= Min(maxSize, DEFAULT_BLOCK_MAX_SIZE)
        || 100 + Sum(SigOpsOf(pool), inBlock + Family(pool, t)) >= MAX_BLOCK_SIGOPS)
  }

  ghost predicate AllTooMuch(pool: Pool, isFinal: nat -> bool, maxSize: nat, inBlock: set<nat>, refused: set<nat>) {
    forall t :: t in refused ==> TooMuch(pool, isFinal, maxSize, inBlock, t)
  }

  lemma WithFamily(pool: Pool, inBlock: set<nat>, t: nat, w: nat -> int)
    requires t in pool
    ensures Sum(w, inBlock) + Sum(w, Remaining(pool, inBlock, t)) == Sum(w, inBlock + Family(pool, t))
  {
    hide Sum;
    SumUnion(w, inBlock, Remaining(pool, inBlock, t));
    assert inBlock + Remaining(pool, inBlock, t) == inBlock + Family(pool, t);
  }

  lemma SumGrows(w: nat -> int, s: set<nat>, t: set<nat>)
    requires s <= t && forall x :: w(x) >= 0
    ensures Sum(w, s) <= Sum(w, t)
  {
    SumNotNegative(w, t - s);
    SumSplit(w, t, s);
  }

  /** What cannot be added cannot be added to a larger block either, if only final transactions have joined. */
  lemma TooMuchStays(pool: Pool, isFinal: nat -> bool, maxSize: nat, before: set<nat>, inBlock: set<nat>,
                     refused: set<nat>)
    requires before <= inBlock && AllTooMuch(pool, isFinal, maxSize, before, refused)
    requires forall t :: t in inBlock && t !in before ==> isFinal(t)
    ensures AllTooMuch(pool, isFinal, maxSize, inBlock, refused)
  {
    hide Sum;
    forall t | t in refused ensures TooMuch(pool, isFinal, maxSize, inBlock, t) {
      assert TooMuch(pool, isFinal, maxSize, before, t);
      SumGrows(SizeOf(pool), before + Family(pool, t), inBlock + Family(pool, t));
      SumGrows(SigOpsOf(pool), before + Family(pool, t), inBlock + Family(pool, t));
      if x :| x in Remaining(pool, before, t) && !isFinal(x) { assert x in Remaining(pool, inBlock, t); }
    }
  }

  /** The first n of the order are in the block, were refused, or are still to be looked at in the modified set. */
  ghost predicate Decided(order: seq<nat>, n: nat, modified: map<nat, Modified>, inBlock: set<nat>, refused: set<nat>) {
    n <= |order| && forall i :: 0 <= i < n ==> order[i] in modified || order[i] in inBlock || order[i] in refused
  }

  lemma NoneDecided(pool: Pool, isFinal: nat -> bool, maxSize: nat, order: seq<nat>, modified: map<nat, Modified>,
                    inBlock: set<nat>)
    ensures Decided(order, 0, modified, inBlock, {}) && AllTooMuch(pool, isFinal, maxSize, inBlock, {})
  {
  }

  lemma DecidedNext(order: seq<nat>, n: nat, modified: map<nat, Modified>, inBlock: set<nat>, refused: set<nat>)
    requires Decided(order, n, modified, inBlock, refused) && n < |order|
    requires order[n] in modified || order[n] in inBlock || order[n] in refused
    ensures Decided(order, n + 1, modified, inBlock, refused)
  {
  }

  /** Nothing has left the modified set but what joined the block, and iter. */
  ghost predicate KeptBut(modified: map<nat, Modified>, modified': map<nat, Modified>, inBlock: set<nat>, iter: nat) {
    forall d :: d in modified ==> d in modified' || d in inBlock || d == iter
  }

  /** A round decides iter, and looks at the next of the order if that was iter. */
  lemma DecidedStep(order: seq<nat>, n: nat, n': nat, modified: map<nat, Modified>, modified': map<nat, Modified>,
                    inBlock: set<nat>, inBlock': set<nat>, refused: set<nat>, refused': set<nat>, iter: nat)
    requires Decided(order, n, modified, inBlock, refused)
    requires n' == n || (n' == n + 1 && n < |order| && order[n] == iter)
    requires KeptBut(modified, modified', inBlock', iter) && inBlock <= inBlock' && refused <= refused'
    requires iter in inBlock' || iter in refused'
    ensures Decided(order, n', modified', inBlock', refused')
  {
  }

  lemma RefusedStep(pool: Pool, isFinal: nat -> bool, maxSize: nat, before: set<nat>, inBlock: set<nat>,
                    refused: set<nat>, refused': set<nat>, iter: nat)
    requires before <= inBlock && AllTooMuch(pool, isFinal, maxSize, before, refused)
    requires forall t :: t in inBlock && t !in before ==> isFinal(t)
    requires refused' == if iter in inBlock then refused else refused + {iter}
    requires iter in inBlock || iter in refused || TooMuch(pool, isFinal, maxSize, inBlock, iter)
    ensures AllTooMuch(pool, isFinal, maxSize, inBlock, refused')
  {
    hide TooMuch;
    TooMuchStays(pool, isFinal, maxSize, before, inBlock, refused);
  }

  lemma NotRefused(pool: Pool, isFinal: nat -> bool, maxSize: nat, inBlock: set<nat>, refused: set<nat>, iter: nat)
    requires AllTooMuch(pool, isFinal, maxSize, inBlock, refused) && !TooMuch(pool, isFinal, maxSize, inBlock, iter)
    ensures iter !in refused
  {
  }

  lemma DecidedWithin(order: seq<nat>, n: nat, modified: map<nat, Modified>, inBlock: set<nat>, refused: set<nat>)
    requires Decided(order, n, modified, inBlock, refused)
    ensures n <= |order|
  {
  }

  lemma DecidedAll(pool: Pool, isFinal: nat -> bool, maxSize: nat, order: seq<nat>, modified: map<nat, Modified>,
                   inBlock: set<nat>, refused: set<nat>)
    requires modified == map[] && Decided(order, |order|, modified, inBlock, refused)
    requires AllTooMuch(pool, isFinal, maxSize, inBlock, refused)
    ensures forall i :: 0 <= i < |order| ==> order[i] in inBlock || TooMuch(pool, isFinal, maxSize, inBlock, order[i])
  {
    hide TooMuch;
  }

  // ----- The order of packages -----

  /** A transaction with the totals it is ranked by. */
  datatype Ranked = Ranked(totals: Modified, tx: nat)

  /** The comparison orders the candidates strictly, and any two different transactions one way or the other. */
  ghost predicate StrictOrder(better: (Ranked, Ranked) -> bool) {
    && (forall a :: !better(a, a))
    && (forall a, b, c :: better(a, b) && better(b, c) ==> better(a, c))
    && (forall a: Ranked, b: Ranked :: a.tx != b.tx ==> better(a, b) || better(b, a))
  }

  /** Nothing in the modified set is better than this. */
  predicate BestOf(modified: map<nat, Modified>, better: (Ranked, Ranked) -> bool, iter: nat)
    requires iter in modified
  {
    forall d :: d in modified && d != iter ==> better(Ranked(modified[iter], iter), Ranked(modified[d], d))
  }

  lemma {:induction false} SomeBestOf(modified: map<nat, Modified>, better: (Ranked, Ranked) -> bool)
    requires StrictOrder(better) && modified != map[]
    ensures exists iter :: iter in modified && BestOf(modified, better, iter)
    decreases |modified|
  {
    var x :| x in modified;
    var rest := modified - {x};
    if rest == map[] {
      assert forall d :: d in modified && d != x ==> d in rest;
      assert BestOf(modified, better, x);
    } else {
      SomeBestOf(rest, better);
      var y :| y in rest && BestOf(rest, better, y);
      var best := if better(Ranked(modified[x], x), Ranked(modified[y], y)) then x else y;
      forall d | d in modified && d != best ensures better(Ranked(modified[best], best), Ranked(modified[d], d)) {
        assert d != x ==> d in rest && (d != y ==> better(Ranked(rest[y], y), Ranked(rest[d], d)));
      }
      assert BestOf(modified, better, best);
    }
  }

  /** The first of the modified set, if the comparison orders it; any, if not. */
  method BestModified(modified: map<nat, Modified>, better: (Ranked, Ranked) -> bool) returns (iter: nat)
    requires modified != map[]
    ensures iter in modified && (StrictOrder(better) ==> BestOf(modified, better, iter))
  {
    hide StrictOrder, BestOf;
    if StrictOrder(better) { SomeBestOf(modified, better); }
    if best :| best in modified && BestOf(modified, better, best) {
      iter := best;
    } else {
      assert modified.Keys != {};
      iter :| iter in modified;
    }
  }

  /** The pool in the order of its own totals. */
  ghost predicate SortedBy(pool: Pool, order: seq<nat>, better: (Ranked, Ranked) -> bool)
    requires forall i :: 0 <= i < |order| ==> order[i] in pool
  {
    forall i, j :: 0 <= i < j < |order| ==> better(Ranking(pool, map[], order[i]), Ranking(pool, map[], order[j]))
  }

  function Ranking(pool: Pool, modified: map<nat, Modified>, t: nat): Ranked
    requires t in pool
  {
    Ranked(Base(pool, modified, t), t)
  }

  /** The candidate is better than all others: those of the modified set, and the next of the order. */
  ghost predicate Leading(pool: Pool, order: seq<nat>, n: nat, modified: map<nat, Modified>,
                          better: (Ranked, Ranked) -> bool, best: Ranked)
  {
    && (forall d :: d in modified && d != best.tx ==> better(best, Ranked(modified[d], d)))
    && (n < |order| && order[n] in pool && order[n] != best.tx ==> better(best, Ranking(pool, map[], order[n])))
  }

  lemma AloneLeads(pool: Pool, order: seq<nat>, n: nat, modified: map<nat, Modified>, better: (Ranked, Ranked) -> bool)
    requires n < |order| && order[n] in pool && modified == map[]
    ensures Leading(pool, order, n, modified, better, Ranking(pool, map[], order[n]))
  {
  }

  lemma ModifiedLeads(pool: Pool, order: seq<nat>, n: nat, modified: map<nat, Modified>,
                      better: (Ranked, Ranked) -> bool, iter: nat)
    requires iter in pool && iter in modified && BestOf(modified, better, iter)
    requires n < |order| && order[n] in pool ==> better(Ranking(pool, modified, iter), Ranking(pool, map[], order[n]))
    ensures Leading(pool, order, n, modified, better, Ranking(pool, modified, iter))
  {
  }

  lemma NextLeads(pool: Pool, order: seq<nat>, n: nat, modified: map<nat, Modified>, better: (Ranked, Ranked) -> bool,
                  iter: nat)
    requires StrictOrder(better) && n < |order| && order[n] in pool && order[n] !in modified && iter in pool
    requires iter in modified && BestOf(modified, better, iter)
    requires !better(Ranking(pool, modified, iter), Ranking(pool, map[], order[n]))
    ensures Leading(pool, order, n, modified, better, Ranking(pool, map[], order[n]))
  {
    var next, first := Ranking(pool, map[], order[n]), Ranking(pool, modified, iter);
    assert better(next, first);
  }

  /** Everything in the order is in the block, cannot be added, or is not as good as the candidate. */
  ghost predicate NothingBetter(pool: Pool, isFinal: nat -> bool, maxSize: nat, inBlock: set<nat>, order: seq<nat>,
                                cached: map<nat, Modified>, better: (Ranked, Ranked) -> bool, best: Ranked)
    requires forall i :: 0 <= i < |order| ==> order[i] in pool
  {
    forall i :: 0 <= i < |order| ==>
      || order[i] in inBlock || TooMuch(pool, isFinal, maxSize, inBlock, order[i])
      || order[i] == best.tx || better(best, Ranking(pool, cached, order[i]))
  }

  lemma LeadingAll(pool: Pool, isFinal: nat -> bool, maxSize: nat, inBlock: set<nat>, refused: set<nat>,
                   order: seq<nat>, n: nat, modified: map<nat, Modified>, better: (Ranked, Ranked) -> bool,
                   best: Ranked)
    requires forall i :: 0 <= i < |order| ==> order[i] in pool
    requires Decided(order, n, modified, inBlock, refused) && AllTooMuch(pool, isFinal, maxSize, inBlock, refused)
    requires StrictOrder(better) && SortedBy(pool, order, better) && Leading(pool, order, n, modified, better, best)
    requires n < |order| && order[n] == best.tx ==> best == Ranking(pool, map[], order[n])
    ensures NothingBetter(pool, isFinal, maxSize, inBlock, order, modified, better, best)
  {
    hide TooMuch;
    forall i | 0 <= i < |order| && order[i] !in modified && i >= n && order[i] != best.tx
      ensures better(best, Ranking(pool, modified, order[i]))
    {
      var next, this_ := Ranking(pool, map[], order[n]), Ranking(pool, map[], order[i]);
      assert i > n ==> better(next, this_);
      assert best == next || better(best, next);
    }
  }

  // ----- The rounds of the package phase -----

  /** What the package phase goes by. */
  datatype Offers = Offers(pool: Pool, isFinal: nat -> bool, maxSize: nat, order: seq<nat>,
                           better: (Ranked, Ranked) -> bool, minFee: int -> int)
  {
    ghost predicate InPool() {
      forall i :: 0 <= i < |order| ==> order[i] in pool
    }
  }

  /** A round that takes a package: where the block stood, the transaction with its totals, and the totals kept for
    * the others.
    */
  datatype Pick = Pick(start: nat, best: Ranked, cached: map<nat, Modified>, failed: set<nat>)

  /** The round takes what is missing of one family, all of it final, by exact totals that pay enough; and nothing that
    * could have been taken is better.
    */
  ghost predicate Takes(o: Offers, before: set<nat>, after: set<nat>, p: Pick)
    requires o.InPool()
  {
    && p.best.tx in o.pool && p.best.tx !in before
    && after == before + Remaining(o.pool, before, p.best.tx)
    && (forall t :: t in Remaining(o.pool, before, p.best.tx) ==> o.isFinal(t))
    && Exact(o.pool, before, p.best.tx, p.best.totals) && p.best.totals.fees >= o.minFee(p.best.totals.size)
    && Tracks(o.pool, before, p.failed, p.cached)
    && (StrictOrder(o.better) && SortedBy(o.pool, o.order, o.better) ==>
          NothingBetter(o.pool, o.isFinal, o.maxSize, before, o.order, p.cached, o.better, p.best))
  }

  /** After its first n transactions the block was filled by these rounds. */
  ghost predicate InRounds(o: Offers, vtx: seq<nat>, n: nat, picks: seq<Pick>)
    requires o.InPool()
    decreases |picks|
  {
    if picks == [] then |vtx| == n
    else
      var p := picks[|picks| - 1];
      && p.start <= |vtx| && Takes(o, Txs(vtx[..p.start]), Txs(vtx), p)
      && InRounds(o, vtx[..p.start], n, picks[..|picks| - 1])
  }

  lemma NoRound(o: Offers, vtx: seq<nat>)
    requires o.InPool()
    ensures InRounds(o, vtx, |vtx|, [])
  {
  }

  lemma NextRound(o: Offers, vtx: seq<nat>, vtx': seq<nat>, n: nat, picks: seq<Pick>, p: Pick)
    requires o.InPool() && InRounds(o, vtx, n, picks) && vtx <= vtx' && p.start == |vtx|
    requires Takes(o, Txs(vtx), Txs(vtx'), p)
    ensures InRounds(o, vtx', n, picks + [p])
  {
    hide Takes, Txs;
    assert vtx'[..p.start] == vtx;
    assert (picks + [p])[..|picks|] == picks;
  }

  /** Only final transactions join in rounds. */
  lemma {:induction false} RoundsFinal(o: Offers, vtx: seq<nat>, n: nat, picks: seq<Pick>)
    requires o.InPool() && InRounds(o, vtx, n, picks)
    ensures n <= |vtx| && forall i :: n <= i < |vtx| ==> o.isFinal(vtx[i]) || vtx[i] in vtx[..n]
    decreases |picks|
  {
    hide Exact, Tracks, NothingBetter, StrictOrder, SortedBy;
    if picks != [] {
      var p := picks[|picks| - 1];
      var start := vtx[..p.start];
      RoundsFinal(o, start, n, picks[..|picks| - 1]);
      assert start[..n] == vtx[..n];
      forall i | n <= i < |vtx| ensures o.isFinal(vtx[i]) || vtx[i] in vtx[..n] {
        assert vtx[i] in Txs(vtx);
        if vtx[i] in Txs(start) {
          var j :| 0 <= j < |start| && start[j] == vtx[i];
          assert j < n ==> vtx[..n][j] == vtx[i];
        }
      }
    }
  }

  lemma TakesMeans(o: Offers, before: set<nat>, after: set<nat>, p: Pick)
    requires o.InPool() && p.best.tx in o.pool && p.best.tx !in before && Tracks(o.pool, before, p.failed, p.cached)
    requires after == before + Remaining(o.pool, before, p.best.tx)
    requires forall t :: t in after && t !in before ==> o.isFinal(t)
    requires Exact(o.pool, before, p.best.tx, p.best.totals) && p.best.totals.fees >= o.minFee(p.best.totals.size)
    requires StrictOrder(o.better) && SortedBy(o.pool, o.order, o.better) ==>
               NothingBetter(o.pool, o.isFinal, o.maxSize, before, o.order, p.cached, o.better, p.best)
    ensures Takes(o, before, after, p)
  {
  }

  /** The comparison of the source, without rounding: by fee rate, then by hash. */
  predicate ByFeeRate(a: Ranked, b: Ranked) {
    var f1, f2 := a.totals.fees * Max(1, b.totals.size), b.totals.fees * Max(1, a.totals.size);
    if f1 == f2 then a.tx < b.tx else f1 > f2
  }

  lemma FeeRateOrders()
    ensures StrictOrder(ByFeeRate)
  {
    hide ByFeeRate;
    forall a: Ranked ensures !ByFeeRate(a, a) { NotItself(a); }
    forall a: Ranked, b: Ranked | a.tx != b.tx ensures ByFeeRate(a, b) || ByFeeRate(b, a) { OneWay(a, b); }
    forall a: Ranked, b: Ranked, c: Ranked | ByFeeRate(a, b) && ByFeeRate(b, c) ensures ByFeeRate(a, c) {
      RatesChain(a, b, c);
    }
  }

  lemma NotItself(a: Ranked)
    ensures !ByFeeRate(a, a)
  {
  }

  lemma OneWay(a: Ranked, b: Ranked)
    requires a.tx != b.tx
    ensures ByFeeRate(a, b) || ByFeeRate(b, a)
  {
  }

  lemma RatesChain(a: Ranked, b: Ranked, c: Ranked)
    requires ByFeeRate(a, b) && ByFeeRate(b, c)
    ensures ByFeeRate(a, c)
  {
    CrossChain(a.totals.fees, Max(1, a.totals.size), b.totals.fees, Max(1, b.totals.size),
               c.totals.fees, Max(1, c.totals.size));
  }

  /** Fractions with positive denominators are ordered by cross-multiplication. */
  lemma CrossChain(p: int, x: nat, q: int, y: nat, r: int, z: nat)
    requires x > 0 && y > 0 && z > 0 && p * y >= q * x && q * z >= r * y
    ensures p * z >= r * x
    ensures p * z == r * x ==> p * y == q * x && q * z == r * y
  {
    Times(q * x, p * y, z);
    Times(r * y, q * z, x);
    Cross(p, y, z);
    Cross(q, x, z);
    Cross(r, y, x);
    var left, right, mid := p * z, r * x, (q * x) * z;
    assert left * y >= mid >= right * y;
    if left < right { Times(left + 1, right, y); Spread(left, 1, 0, y); }
    if left == right {
      Unique(z, p * y, 0, q * x, 0);
      Unique(x, q * z, 0, r * y, 0);
    }
  }

  lemma Cross(a: int, b: int, c: int)
    ensures (a * b) * c == (a * c) * b
  {
  }

  // ----- How far the priority phase goes -----

  /** What the priority phase goes by. */
  datatype Rules = Rules(pool: Pool, isFinal: nat -> bool, tooYoung: nat -> bool, priority: nat -> int,
                         allowFree: int -> bool, prioritySize: nat, maxSize: nat)

  /** After its i-th transaction the block is below the priority size, and that transaction may go free. */
  ghost predicate GoesOn(r: Rules, vtx: seq<nat>, i: nat)
    requires i < |vtx|
  {
    1000 + Sum(SizeOf(r.pool), Txs(vtx[..i + 1])) < r.prioritySize && r.allowFree(r.priority(vtx[i]))
  }

  /** A transaction dated after a proof-of-stake block. */
  function Young(fProofOfStake: bool, nBlockTime: int, txTime: nat -> int): nat -> bool {
    (t: nat) => fProofOfStake && nBlockTime < txTime(t)
  }

  ghost predicate GoesOnUpTo(r: Rules, vtx: seq<nat>, n: nat) {
    n <= |vtx| && forall i: nat :: i < n ==> GoesOn(r, vtx, i)
  }

  /** The transaction cannot be added, to this block or a larger one. */
  ghost predicate Barred(r: Rules, inBlock: set<nat>, t: nat) {
    && t in r.pool
    && (|| r.tooYoung(t) || !r.isFinal(t)
        || 1000 + Sum(SizeOf(r.pool), inBlock) + r.pool[t].size >= r.maxSize
        || 100 + Sum(SigOpsOf(r.pool), inBlock) + r.pool[t].sigOps >= MAX_BLOCK_SIGOPS)
  }

  ghost predicate AllUsable(r: Rules, vtx: seq<nat>) {
    forall i :: 0 <= i < |vtx| ==> r.isFinal(vtx[i]) && !r.tooYoung(vtx[i])
  }

  /** The priority phase: nothing with a priority size of 0; only final transactions that are not too young; it stops
    * with the first transaction that reaches the priority size or may not go free; and where neither it nor a full
    * block stops it, whatever it has left out cannot be added or misses a parent.
    */
  ghost predicate PriorityPhase(r: Rules, vtx: seq<nat>, finished: bool) {
    && (r.prioritySize == 0 ==> vtx == [])
    && AllUsable(r, vtx)
    && GoesOnUpTo(r, vtx, if vtx == [] then 0 else |vtx| - 1)
    && (r.prioritySize > 0 && !finished && GoesOnUpTo(r, vtx, |vtx|) ==>
          forall t :: t in r.pool ==>
            t in Txs(vtx) || Barred(r, Txs(vtx), t) || !(r.pool[t].parents <= Txs(vtx)))
  }

  ghost predicate InQueue(vec: seq<Candidate>, t: nat) {
    exists i :: 0 <= i < |vec| && vec[i].tx == t
  }

  /** Every transaction but one is in the block, in the queue, waiting, or barred. */
  ghost predicate Covers(r: Rules, inBlock: set<nat>, vec: seq<Candidate>, wait: map<nat, int>, besides: set<nat>) {
    forall t :: t in r.pool && t !in besides ==> t in inBlock || t in wait || InQueue(vec, t) || Barred(r, inBlock, t)
  }

  /** The phase goes on. */
  ghost predicate Sifted(r: Rules, vtx: seq<nat>, vec: seq<Candidate>, wait: map<nat, int>, besides: set<nat>) {
    AllUsable(r, vtx) && GoesOnUpTo(r, vtx, |vtx|) && Covers(r, Txs(vtx), vec, wait, besides)
  }

  /** The phase was stopped by its last transaction. */
  ghost predicate Stopped(r: Rules, vtx: seq<nat>) {
    vtx != [] && AllUsable(r, vtx) && GoesOnUpTo(r, vtx, |vtx| - 1) && !GoesOn(r, vtx, |vtx| - 1)
  }

  lemma SiftedStart(r: Rules, vec: seq<Candidate>)
    requires forall t :: t in r.pool ==> Contains(vec, Candidate(r.priority(t), t))
    ensures Sifted(r, [], vec, map[], {})
  {
  }

  lemma SiftedPop(r: Rules, vtx: seq<nat>, vec: seq<Candidate>, wait: map<nat, int>, best: nat)
    requires Sifted(r, vtx, vec, wait, {}) && best < |vec|
    ensures Sifted(r, vtx, vec[..best] + vec[best + 1..], wait, {vec[best].tx})
  {
    hide Barred, AllUsable, GoesOnUpTo;
    var rest := vec[..best] + vec[best + 1..];
    forall t | InQueue(vec, t) && t != vec[best].tx ensures InQueue(rest, t) {
      var i :| 0 <= i < |vec| && vec[i].tx == t;
      assert rest[if i < best then i else i - 1] == vec[i];
    }
  }

  lemma SiftedDrop(r: Rules, vtx: seq<nat>, vec: seq<Candidate>, wait: map<nat, int>, t: nat)
    requires Sifted(r, vtx, vec, wait, {t}) && Barred(r, Txs(vtx), t)
    ensures Sifted(r, vtx, vec, wait, {})
  {
    hide Barred, AllUsable, GoesOnUpTo, InQueue;
  }

  lemma SiftedWait(r: Rules, vtx: seq<nat>, vec: seq<Candidate>, wait: map<nat, int>, c: Candidate)
    requires Sifted(r, vtx, vec, wait, {c.tx})
    ensures Sifted(r, vtx, vec, wait[c.tx := c.priority], {})
  {
    hide Barred, AllUsable, GoesOnUpTo, InQueue;
  }

  lemma BarredStays(r: Rules, inBlock: set<nat>, added: nat, t: nat)
    requires Barred(r, inBlock, t)
    ensures Barred(r, inBlock + {added}, t)
  {
    hide Sum;
    SumGrows(SizeOf(r.pool), inBlock, inBlock + {added});
    SumGrows(SigOpsOf(r.pool), inBlock, inBlock + {added});
  }

  lemma GoesOnNext(r: Rules, vtx: seq<nat>, t: nat)
    requires GoesOnUpTo(r, vtx, |vtx|)
    ensures GoesOnUpTo(r, vtx + [t], |vtx|)
    ensures GoesOnUpTo(r, vtx + [t], |vtx| + 1) <==> GoesOn(r, vtx + [t], |vtx|)
  {
    hide Sum, Txs;
    var w := vtx + [t];
    forall i: nat | i < |vtx| ensures GoesOn(r, w, i) {
      assert GoesOn(r, vtx, i);
      assert w[..i + 1] == vtx[..i + 1];
    }
  }

  lemma SiftedAdd(r: Rules, vtx: seq<nat>, vec: seq<Candidate>, wait: map<nat, int>, t: nat)
    requires Sifted(r, vtx, vec, wait, {t}) && r.isFinal(t) && !r.tooYoung(t)
    ensures GoesOn(r, vtx + [t], |vtx|) ==> Sifted(r, vtx + [t], vec, wait, {})
    ensures !GoesOn(r, vtx + [t], |vtx|) ==> Stopped(r, vtx + [t])
  {
    hide Barred, InQueue, GoesOn, GoesOnUpTo;
    GoesOnNext(r, vtx, t);
    assert Txs(vtx + [t]) == Txs(vtx) + {t};
    forall x | x in r.pool && Barred(r, Txs(vtx), x) ensures Barred(r, Txs(vtx + [t]), x) {
      BarredStays(r, Txs(vtx), t, x);
    }
  }

  lemma SiftedWake(r: Rules, vtx: seq<nat>, vec: seq<Candidate>, wait: map<nat, int>, vec': seq<Candidate>,
                   wait': map<nat, int>)
    requires Sifted(r, vtx, vec, wait, {}) && vec <= vec'
    requires forall t :: t in wait && t !in wait' ==> Contains(vec', Candidate(wait[t], t))
    ensures Sifted(r, vtx, vec', wait', {})
  {
    hide Barred, AllUsable, GoesOnUpTo;
    forall t | InQueue(vec, t) ensures InQueue(vec', t) {
      var i :| 0 <= i < |vec| && vec[i].tx == t;
      assert vec'[i].tx == t;
    }
  }

  lemma PhaseFinal(r: Rules, vtx: seq<nat>, finished: bool)
    requires PriorityPhase(r, vtx, finished)
    ensures forall i :: 0 <= i < |vtx| ==> r.isFinal(vtx[i])
  {
  }

  lemma NoPhase(r: Rules)
    requires r.prioritySize == 0
    ensures PriorityPhase(r, [], false)
  {
  }

  /** The phase has ended: it was stopped, or ran out of candidates, or the block is finished. */
  lemma PhaseEnds(r: Rules, vtx: seq<nat>, vec: seq<Candidate>, wait: map<nat, int>, stop: bool, finished: bool)
    requires r.prioritySize > 0 && (stop || finished || vec == [])
    requires if stop then Stopped(r, vtx)
             else Sifted(r, vtx, vec, wait, {}) && ByPriority(r.pool, r.priority, vtx, vec, wait)
    ensures PriorityPhase(r, vtx, finished)
  {
    hide Barred, AllUsable, GoesOn, Greedy, OutrankedBy;
  }

  /** How many transactions are not in the block. */
  ghost function Outside(pool: Pool, inBlock: set<nat>): nat { |pool.Keys - inBlock| }

  /** How many entries the selection loop has still to look at. */
  ghost function Waiting(order: seq<nat>, n: nat, modified: map<nat, Modified>): nat {
    if n <= |order| then |order| - n + |modified| else 0
  }

  class BlockAssembler {
    const pool: Pool
    const isFinal: nat -> bool
    var nBlockMaxSize: nat
    var nBlockSize: nat
    var nBlockTx: nat
    var nBlockSigOps: nat
    var nFees: int
    var inBlock: set<nat>
    var vtx: seq<nat>
    var vTxFees: seq<int>
    var vTxSigOpsCost: seq<nat>
    var lastFewTxs: nat
    var blockFinished: bool

    ghost predicate Valid()
      reads this
    {
      && WellFormed(pool)
      && 1000 <= nBlockMaxSize <= MAX_BLOCK_SIZE - 1000
      && Ordered(pool, vtx)
      && inBlock == Txs(vtx)
      && Accounted()
      && (vtx == [] || nBlockSize < nBlockMaxSize)
      && nBlockSigOps < MAX_BLOCK_SIGOPS
      && (lastFewTxs > 0 ==> nBlockSize > nBlockMaxSize - 1000)
      && (blockFinished ==> nBlockSize > nBlockMaxSize - 1000 || nBlockSigOps > MAX_BLOCK_SIGOPS - 2)
    }

    /** The counters are those of the transactions in the block, plus the room kept for the coinbase. */
    ghost predicate Accounted()
      reads this
    {
      && nBlockTx == |vtx|
      && nBlockSize == 1000 + Sum(SizeOf(pool), inBlock)
      && nBlockSigOps == 100 + Sum(SigOpsOf(pool), inBlock)
      && (forall i :: 0 <= i < |vtx| ==> vtx[i] in pool)
      && vTxFees == FeesOf(pool, vtx)
      && vTxSigOpsCost == SigOpCosts(pool, vtx)
      && nFees == SumSeq(vTxFees)
    }

    /** The constructor and resetBlock: an empty block of the configured size, clamped. */
    constructor (pool: Pool, isFinal: nat -> bool, configuredMax: nat)
      requires WellFormed(pool)
      ensures Valid() && this.pool == pool && this.isFinal == isFinal && vtx == [] && !blockFinished && lastFewTxs == 0
      ensures nBlockMaxSize == Clamped(configuredMax)
    {
      this.pool := pool;
      this.isFinal := isFinal;
      var capped := if configuredMax < MAX_BLOCK_SIZE - 1000 then configuredMax else MAX_BLOCK_SIZE - 1000;
      nBlockMaxSize := if capped > 1000 then capped else 1000;
      nBlockSize, nBlockSigOps := 1000, 100;
      nBlockTx, nFees := 0, 0;
      inBlock, vtx, vTxFees, vTxSigOpsCost := {}, [], [], [];
      lastFewTxs, blockFinished := 0, false;
      new;
      assert Txs(vtx) == {};
    }

    /** Some parent is not in the block yet. */
    method IsStillDependent(iter: nat) returns (dependent: bool)
      requires Valid() && iter in pool
      ensures !dependent <==> pool[iter].parents <= inBlock
    {
      hide Valid;
      var todo := pool[iter].parents;
      while todo != {}
        invariant todo <= pool[iter].parents
        invariant pool[iter].parents - todo <= inBlock
        decreases |todo|
      {
        var parent :| parent in todo;
        if parent !in inBlock {
          return true;
        }
        todo := todo - {parent};
      }
      return false;
    }

    /** Append a transaction whose parents are all in the block and that fits. */
    method AddToBlock(iter: nat)
      requires Valid() && iter in pool && iter !in inBlock && pool[iter].parents <= inBlock
      requires nBlockSize + pool[iter].size < nBlockMaxSize && nBlockSigOps + pool[iter].sigOps < MAX_BLOCK_SIGOPS
      modifies this`vtx, this`vTxFees, this`vTxSigOpsCost, this`nBlockSize
      modifies this`nBlockTx, this`nBlockSigOps, this`nFees, this`inBlock
      ensures Valid() && vtx == old(vtx) + [iter] && inBlock == old(inBlock) + {iter}
      ensures nBlockSize == old(nBlockSize) + pool[iter].size && nBlockSigOps == old(nBlockSigOps) + pool[iter].sigOps
    {
      hide WellFormed, Ordered, Sum, FeesOf, SigOpCosts, SumSeq, Txs, SizeOf, SigOpsOf;
      OrderedAppend(pool, vtx, iter);
      OrderedIn(pool, vtx + [iter]);
      SumAdd(SizeOf(pool), inBlock, iter);
      SumAdd(SigOpsOf(pool), inBlock, iter);
      ListsAppend(pool, vtx, iter);
      vtx := vtx + [iter];
      vTxFees := vTxFees + [pool[iter].fee];
      vTxSigOpsCost := vTxSigOpsCost + [pool[iter].sigOps];
      nBlockSize := nBlockSize + pool[iter].size;
      nBlockTx := nBlockTx + 1;
      nBlockSigOps := nBlockSigOps + pool[iter].sigOps;
      nFees := nFees + pool[iter].fee;
      inBlock := inBlock + {iter};
    }

    /** Whether a transaction fits and is final; also notices when the block is as good as full. */
    method TestForBlock(iter: nat) returns (fits: bool)
      requires Valid() && iter in pool
      modifies this`lastFewTxs, this`blockFinished
      ensures Valid()
      ensures fits <==> && nBlockSize + pool[iter].size < nBlockMaxSize
                        && nBlockSigOps + pool[iter].sigOps < MAX_BLOCK_SIGOPS
                        && isFinal(iter)
      ensures fits ==> blockFinished == old(blockFinished)
      ensures var tooBig := nBlockSize + pool[iter].size >= nBlockMaxSize;
              var nearlyFull := nBlockMaxSize - 1000 < nBlockSize <= nBlockMaxSize - 100;
              lastFewTxs == old(lastFewTxs) + if tooBig && nearlyFull && old(lastFewTxs) <= 50 then 1 else 0
      ensures var tooBig := nBlockSize + pool[iter].size >= nBlockMaxSize;
              var tooManyOps := !tooBig && nBlockSigOps + pool[iter].sigOps >= MAX_BLOCK_SIGOPS;
              blockFinished == (|| old(blockFinished)
                                || (tooBig && (nBlockSize > nBlockMaxSize - 100 || old(lastFewTxs) > 50))
                                || (tooManyOps && nBlockSigOps > MAX_BLOCK_SIGOPS - 2))
    {
      hide Closure, Totals, Ordered;
      if nBlockSize + pool[iter].size >= nBlockMaxSize {
        if nBlockSize > nBlockMaxSize - 100 || lastFewTxs > 50 {
          blockFinished := true;
          return false;
        }
        if nBlockSize > nBlockMaxSize - 1000 {
          lastFewTxs := lastFewTxs + 1;
        }
        return false;
      }
      if nBlockSigOps + pool[iter].sigOps >= MAX_BLOCK_SIGOPS {
        if nBlockSigOps > MAX_BLOCK_SIGOPS - 2 {
          blockFinished := true;
          return false;
        }
        return false;
      }
      if !isFinal(iter) {
        return false;
      }
      return true;
    }

    /** The body of the priority loop for one popped candidate: dropped, made to wait, or added. */
    method TryCandidate(c: Candidate, vec: seq<Candidate>, wait: map<nat, int>, r: Rules)
      returns (stop: bool, vecPriority: seq<Candidate>, waitPriMap: map<nat, int>)
      requires Valid() && c.tx in pool && c.tx !in inBlock
      requires Queued(pool, inBlock, vec, wait) && Queued(pool, inBlock, vec, wait[c.tx := c.priority])
      requires Queued(pool, inBlock + {c.tx}, vec, wait)
      requires ByPriority(pool, r.priority, vtx, vec, wait) && Leads(pool, r.priority, vtx, c, vec)
      requires r.pool == pool && r.isFinal == isFinal && r.maxSize == nBlockMaxSize
      requires Sifted(r, vtx, vec, wait, {c.tx})
      modifies this
      ensures Valid() && nBlockMaxSize == old(nBlockMaxSize)
      ensures Greedy(pool, r.priority, vtx) && (!stop ==> ByPriority(pool, r.priority, vtx, vecPriority, waitPriMap))
      ensures if stop then Stopped(r, vtx) else Sifted(r, vtx, vecPriority, waitPriMap, {})
      ensures Queued(pool, inBlock, vecPriority, waitPriMap)
      ensures (inBlock == old(inBlock) && vecPriority == vec && !stop) || inBlock == old(inBlock) + {c.tx}
      ensures !r.tooYoung(c.tx) && pool[c.tx].parents <= old(inBlock) && isFinal(c.tx)
              && old(nBlockSize) + pool[c.tx].size < nBlockMaxSize
              && old(nBlockSigOps) + pool[c.tx].sigOps < MAX_BLOCK_SIGOPS
              <==> inBlock == old(inBlock) + {c.tx}
    {
      hide Valid, Queued, ByPriority, Greedy, Leads, Sifted, Stopped, Barred, GoesOn;
      ByPriorityGreedy(pool, r.priority, vtx, vec, wait);
      stop, vecPriority, waitPriMap := false, vec, wait;
      InBlock();
      if r.tooYoung(c.tx) {
        BarredNow(r, c.tx);
        SiftedDrop(r, vtx, vec, wait, c.tx);
        return;
      }
      var dependent := IsStillDependent(c.tx);
      if dependent {
        Postponed(pool, r.priority, vtx, c, vec, wait);
        SiftedWait(r, vtx, vec, wait, c);
        waitPriMap := waitPriMap[c.tx := c.priority];
        return;
      }
      var fits := TestForBlock(c.tx);
      if !fits {
        BarredNow(r, c.tx);
        SiftedDrop(r, vtx, vec, wait, c.tx);
        return;
      }
      Included(pool, r.priority, vtx, c, vec);
      SiftedAdd(r, vtx, vec, wait, c.tx);
      AddToBlock(c.tx);
      SizeNow(r);
      LeadsWith(pool, r.priority, old(vtx), c, vec);
      if nBlockSize >= r.prioritySize || !r.allowFree(c.priority) {
        stop := true;
        return;
      }
      vecPriority, waitPriMap := WakeChildren(pool, inBlock, c.tx, vecPriority, waitPriMap);
      Woken(pool, r.priority, old(vtx), c, vec, wait, vecPriority, waitPriMap);
      SiftedWake(r, vtx, vec, wait, vecPriority, waitPriMap);
    }

    /** addPriorityTxs: fill the start of an empty block in priority order. */
    method AddPriorityTxs(priority: nat -> int, allowFree: int -> bool, configuredSize: nat,
                          fProofOfStake: bool, nBlockTime: int, txTime: nat -> int)
      requires Valid() && vtx == [] && !blockFinished
      modifies this
      ensures Valid() && nBlockMaxSize == old(nBlockMaxSize)
      ensures Greedy(pool, priority, vtx)
      ensures PriorityPhase(Rules(pool, isFinal, Young(fProofOfStake, nBlockTime, txTime), priority, allowFree,
                                  Min(nBlockMaxSize, configuredSize), nBlockMaxSize), vtx, blockFinished)
    {
      hide Valid, Queued, ByPriority, Greedy, Leads, Sifted, Stopped, PriorityPhase, Txs, Young, IsBest, Contains;
      InBlock();
      NothingYet(pool, priority);
      var nBlockPrioritySize := if nBlockMaxSize < configuredSize then nBlockMaxSize else configuredSize;
      var r := Rules(pool, isFinal, Young(fProofOfStake, nBlockTime, txTime), priority, allowFree, nBlockPrioritySize,
                     nBlockMaxSize);
      if nBlockPrioritySize == 0 {
        NoPhase(r);
        return;
      }
      var vecPriority := AllCandidates(pool, priority);
      var waitPriMap: map<nat, int> := map[];
      StartByPriority(pool, priority, vecPriority);
      SiftedStart(r, vecPriority);
      var stop := false;
      while vecPriority != [] && !blockFinished && !stop
        invariant Valid() && nBlockMaxSize == old(nBlockMaxSize)
        invariant Queued(pool, inBlock, vecPriority, waitPriMap)
        invariant Greedy(pool, priority, vtx) && (!stop ==> ByPriority(pool, priority, vtx, vecPriority, waitPriMap))
        invariant if stop then Stopped(r, vtx) else Sifted(r, vtx, vecPriority, waitPriMap, {})
        decreases |pool.Keys - inBlock|, |vecPriority|
      {
        SomeBest(vecPriority);
        var best: nat :| best < |vecPriority| && IsBest(vecPriority, best);
        Popped(pool, priority, vtx, vecPriority, waitPriMap, best);
        QueuePop(pool, inBlock, vecPriority, waitPriMap, best);
        SiftedPop(r, vtx, vecPriority, waitPriMap, best);
        var c := vecPriority[best];
        vecPriority := vecPriority[..best] + vecPriority[best + 1..];
        if c.tx in inBlock {
          assert false;
        }
        FewerLeft(pool.Keys, inBlock, {c.tx});
        stop, vecPriority, waitPriMap := TryCandidate(c, vecPriority, waitPriMap, r);
      }
      PhaseEnds(r, vtx, vecPriority, waitPriMap, stop, blockFinished);
    }

    /** Remove what is in the block from a set. */
    method OnlyUnconfirmed(testSet: set<nat>) returns (rest: set<nat>)
      ensures rest == testSet - inBlock
    {
      rest := testSet;
      var todo := testSet;
      while todo != {}
        invariant todo <= testSet && rest == testSet - (inBlock - todo)
        decreases |todo|
      {
        var it :| it in todo;
        if it in inBlock {
          rest := rest - {it};
        }
        todo := todo - {it};
      }
    }

    /** The package totals fit. The size is held against the default limit, not the configured one. */
    method TestPackage(packageSize: int, packageSigOps: int) returns (fits: bool)
      ensures fits <==> && nBlockSize + packageSize < DEFAULT_BLOCK_MAX_SIZE
                        && nBlockSigOps + packageSigOps < MAX_BLOCK_SIGOPS
    {
      var blockSizeWithPackage := nBlockSize + packageSize;
      if blockSizeWithPackage >= DEFAULT_BLOCK_MAX_SIZE {
        return false;
      }
      if nBlockSigOps + packageSigOps >= MAX_BLOCK_SIGOPS {
        return false;
      }
      return true;
    }

    /** Every transaction is final, and together they stay below the configured size. */
    method TestPackageTransactions(package: set<nat>) returns (ok: bool)
      requires package <= pool.Keys
      ensures ok <==> && (forall t :: t in package ==> isFinal(t))
                      && (package == {} || nBlockSize + Sum(SizeOf(pool), package) < nBlockMaxSize)
    {
      var nPotentialBlockSize := nBlockSize;
      var todo := package;
      while todo != {}
        invariant todo <= package
        invariant nPotentialBlockSize + Sum(SizeOf(pool), todo) == nBlockSize + Sum(SizeOf(pool), package)
        invariant todo != package ==> nPotentialBlockSize < nBlockMaxSize
        invariant forall t :: t in package && t !in todo ==> isFinal(t)
        decreases |todo|
      {
        var it :| it in todo;
        SumRemove(SizeOf(pool), todo, it);
        SumNotNegative(SizeOf(pool), todo - {it});
        if !isFinal(it) {
          return false;
        }
        var nTxSize := pool[it].size;
        if nPotentialBlockSize + nTxSize >= nBlockMaxSize {
          return false;
        }
        nPotentialBlockSize := nPotentialBlockSize + nTxSize;
        todo := todo - {it};
      }
      return true;
    }

    /** Add a package, parents first. */
    method AddPackage(iter: nat, package: set<nat>)
      requires Valid() && iter in pool && iter !in inBlock && package == Remaining(pool, inBlock, iter)
      requires nBlockSize + Sum(SizeOf(pool), package) < nBlockMaxSize
      requires nBlockSigOps + Sum(SigOpsOf(pool), package) < MAX_BLOCK_SIGOPS
      modifies this`vtx, this`vTxFees, this`vTxSigOpsCost, this`nBlockSize
      modifies this`nBlockTx, this`nBlockSigOps, this`nFees, this`inBlock
      ensures Valid() && inBlock == old(inBlock) + package && old(vtx) <= vtx
    {
      hide Valid, Remaining, WellFormed, AncestorClosed, Sum, Txs, SortedFor, SizeOf, SigOpsOf;
      Closed();
      PackageIn(pool, inBlock, iter, package);
      var sortedEntries := SortForBlock(pool, package);
      var i := 0;
      SortedEnds(pool, package, sortedEntries);
      SumEmpty(SizeOf(pool));
      SumEmpty(SigOpsOf(pool));
      while i < |sortedEntries|
        invariant i <= |sortedEntries|
        invariant Valid() && inBlock == old(inBlock) + Txs(sortedEntries[..i]) && old(vtx) <= vtx
        invariant nBlockSize == old(nBlockSize) + Sum(SizeOf(pool), Txs(sortedEntries[..i]))
        invariant nBlockSigOps == old(nBlockSigOps) + Sum(SigOpsOf(pool), Txs(sortedEntries[..i]))
      {
        PackageStep(pool, old(inBlock), iter, package, sortedEntries, i);
        AddToBlock(sortedEntries[i]);
        i := i + 1;
      }
      assert sortedEntries[..i] == sortedEntries;
    }

    /** The entry was evaluated already, or has better totals in the modified set. */
    predicate SkipMapTxEntry(it: nat, mapModifiedTx: map<nat, Modified>, failedTx: set<nat>)
      reads this
    {
      it in mapModifiedTx || it in inBlock || it in failedTx
    }

    /** The cached totals fit, every remaining transaction of the package is final, and their true size fits. */
    ghost predicate PackageFits(iter: nat, packageSize: int, packageSigOps: int)
      requires iter in pool
      reads this
    {
      && nBlockSize + packageSize < DEFAULT_BLOCK_MAX_SIZE
      && nBlockSigOps + packageSigOps < MAX_BLOCK_SIGOPS
      && (forall t :: t in Remaining(pool, inBlock, iter) ==> isFinal(t))
      && nBlockSize + Sum(SizeOf(pool), Remaining(pool, inBlock, iter)) < nBlockMaxSize
    }

    /** Test a transaction with its remaining ancestors, and add them all if they pass. */
    method TryPackage(iter: nat, packageSize: int, packageSigOps: int) returns (added: bool, ancestors: set<nat>)
      requires Valid() && iter in pool && iter !in inBlock
      requires packageSigOps >= Sum(SigOpsOf(pool), Remaining(pool, inBlock, iter))
      modifies this`vtx, this`vTxFees, this`vTxSigOpsCost, this`nBlockSize
      modifies this`nBlockTx, this`nBlockSigOps, this`nFees, this`inBlock
      ensures Valid() && old(vtx) <= vtx
      ensures added ==> ancestors == Remaining(pool, old(inBlock), iter) && inBlock == old(inBlock) + ancestors
      ensures !added ==> inBlock == old(inBlock) && vtx == old(vtx)
      ensures added <==> old(PackageFits(iter, packageSize, packageSigOps))
      ensures added ==> forall t :: t in ancestors ==> isFinal(t)
    {
      hide Valid, Sum, Closure, Totals;
      Closed();
      ancestors := {};
      var fits := TestPackage(packageSize, packageSigOps);
      if !fits {
        return false, ancestors;
      }
      ancestors := OnlyUnconfirmed(pool[iter].ancestors);
      ancestors := ancestors + {iter};
      assert ancestors == Remaining(pool, inBlock, iter);
      PackageIn(pool, inBlock, iter, ancestors);
      fits := TestPackageTransactions(ancestors);
      if !fits {
        return false, ancestors;
      }
      AddPackage(iter, ancestors);
      return true, ancestors;
    }

    /** The body of the selection loop for one chosen transaction: stop because it pays too little, add its
      * package and charge the descendants, or drop its failed entry. */
    method EvaluatePackage(iter: nat, fUsingModified: bool, modified: map<nat, Modified>, failed: set<nat>,
                           minFee: int -> int)
      returns (stop: bool, mapModifiedTx: map<nat, Modified>, failedTx: set<nat>)
      requires Valid() && Tracks(pool, inBlock, failed, modified)
      requires iter in pool && iter !in inBlock && (fUsingModified ==> iter in modified)
      modifies this`vtx, this`vTxFees, this`vTxSigOpsCost, this`nBlockSize
      modifies this`nBlockTx, this`nBlockSigOps, this`nFees, this`inBlock
      ensures Valid() && old(vtx) <= vtx && Tracks(pool, inBlock, failedTx, mapModifiedTx)
      ensures var package := Base(pool, if fUsingModified then modified else map[], iter);
              && (stop <==> package.fees < minFee(package.size))
              && (iter in inBlock <==> !stop && old(PackageFits(iter, package.size, package.sigOps)))
      ensures iter in inBlock ==> inBlock == old(inBlock) + Remaining(pool, old(inBlock), iter)
      ensures iter in inBlock ==> |pool.Keys - inBlock| < |pool.Keys - old(inBlock)|
      ensures iter !in inBlock ==> inBlock == old(inBlock) && vtx == old(vtx)
      ensures iter !in inBlock && !stop ==> mapModifiedTx == if fUsingModified then modified - {iter} else modified
      ensures stop ==> mapModifiedTx == modified && failedTx == failed
      ensures forall t :: t in inBlock && t !in old(inBlock) ==> isFinal(t)
      ensures KeptBut(modified, mapModifiedTx, inBlock, iter)
      ensures failedTx <= if iter in inBlock then failed else failed + {iter}
      ensures !stop && iter !in inBlock && iter !in failed && (fUsingModified || iter !in modified) ==>
                TooMuch(pool, isFinal, nBlockMaxSize, inBlock, iter)
    {
      hide Valid, Tracks, Patched, Charges, NotBelow, Exact, Remaining, WellFormed, AncestorClosed, Base, PackageFits,
           TooMuch;
      stop, mapModifiedTx, failedTx := false, modified, failed;
      var package := Base(pool, if fUsingModified then mapModifiedTx else map[], iter);
      Closed();
      PackageNotBelow(pool, inBlock, failedTx, mapModifiedTx, fUsingModified, iter);
      if package.fees < minFee(package.size) {
        stop := true;
        return;
      }
      ghost var before := inBlock;
      if !PackageFits(iter, package.size, package.sigOps) && iter !in failed && (fUsingModified || iter !in modified) {
        PackageExact(pool, inBlock, failedTx, mapModifiedTx, fUsingModified, iter);
        RefusedMeans(iter, package);
      }
      var added, ancestors := TryPackage(iter, package.size, package.sigOps);
      if !added {
        if fUsingModified {
          TracksFailed(pool, inBlock, failedTx, mapModifiedTx, iter);
          mapModifiedTx := mapModifiedTx - {iter};
          failedTx := failedTx + {iter};
        }
        return;
      }
      Closed();
      PackageIn(pool, before, iter, ancestors);
      FewerLeft(pool.Keys, before, ancestors);
      TracksIn(pool, before, failedTx, mapModifiedTx);
      mapModifiedTx := UpdatePackagesForAdded(pool, ancestors, mapModifiedTx - ancestors);
      TracksUpdate(pool, before, ancestors, failedTx, modified, mapModifiedTx);
      PatchedKeeps(pool, modified, ancestors, mapModifiedTx);
    }

    /** A package with exact totals that does not fit will never fit. */
    lemma RefusedMeans(iter: nat, package: Modified)
      requires Valid() && iter in pool && iter !in inBlock && Exact(pool, inBlock, iter, package)
      requires !PackageFits(iter, package.size, package.sigOps)
      ensures TooMuch(pool, isFinal, nBlockMaxSize, inBlock, iter)
    {
      hide WellFormed, Ordered, Sum, FeesOf, SigOpCosts, SumSeq, Txs, SizeOf, SigOpsOf;
      WithFamily(pool, inBlock, iter, SizeOf(pool));
      WithFamily(pool, inBlock, iter, SigOpsOf(pool));
    }

    /** A package that fits, even by totals that are too high, can be added. */
    lemma FitsMeans(iter: nat, package: Modified)
      requires Valid() && iter in pool && iter !in inBlock && NotBelow(pool, inBlock, iter, package)
      requires PackageFits(iter, package.size, package.sigOps)
      ensures !TooMuch(pool, isFinal, nBlockMaxSize, inBlock, iter)
    {
      hide WellFormed, Ordered, Sum, FeesOf, SigOpCosts, SumSeq, Txs, SizeOf, SigOpsOf;
      WithFamily(pool, inBlock, iter, SizeOf(pool));
      WithFamily(pool, inBlock, iter, SigOpsOf(pool));
    }

    /** What fits has not been refused before, so its totals are exact. */
    lemma Fitting(iter: nat, using: bool, modified: map<nat, Modified>, failed: set<nat>, refused: set<nat>)
      requires Valid() && Tracks(pool, inBlock, failed, modified) && failed <= refused
      requires AllTooMuch(pool, isFinal, nBlockMaxSize, inBlock, refused)
      requires iter in pool && iter !in inBlock && (using <==> iter in modified)
      ensures var package := Base(pool, if using then modified else map[], iter);
              PackageFits(iter, package.size, package.sigOps) ==> Exact(pool, inBlock, iter, package)
    {
      hide Valid, Tracks, Remaining, WellFormed, AncestorClosed, Base, Sum, TooMuch, AllTooMuch, PackageFits, Exact,
           NotBelow;
      var package := Base(pool, if using then modified else map[], iter);
      if PackageFits(iter, package.size, package.sigOps) {
        Closed();
        PackageNotBelow(pool, inBlock, failed, modified, using, iter);
        FitsMeans(iter, package);
        NotRefused(pool, isFinal, nBlockMaxSize, inBlock, refused, iter);
        PackageExact(pool, inBlock, failed, modified, using, iter);
      }
    }

    /** The next transaction to look at: the best of the modified set, or the next of the order if that is better. */
    method Choose(order: seq<nat>, mi: nat, mapModifiedTx: map<nat, Modified>, better: (Ranked, Ranked) -> bool,
                  ghost failedTx: set<nat>)
      returns (fUsingModified: bool, iter: nat)
      requires Tracks(pool, inBlock, failedTx, mapModifiedTx)
      requires mi <= |order| && (mi < |order| || mapModifiedTx != map[])
      requires forall i :: 0 <= i < |order| ==> order[i] in pool
      requires mi < |order| ==> !SkipMapTxEntry(order[mi], mapModifiedTx, failedTx)
      ensures iter in pool && iter !in inBlock
      ensures if fUsingModified then iter in mapModifiedTx
              else mi < |order| && iter == order[mi] && iter !in mapModifiedTx && iter !in failedTx
      ensures StrictOrder(better) ==>
                Leading(pool, order, mi, mapModifiedTx, better,
                        Ranking(pool, if fUsingModified then mapModifiedTx else map[], iter))
    {
      hide Tracks, StrictOrder, BestOf, Leading, Base, Ranking;
      fUsingModified, iter := false, 0;
      if mapModifiedTx == map[] {
        AloneLeads(pool, order, mi, mapModifiedTx, better);
      } else {
        iter := BestModified(mapModifiedTx, better);
        ModifiedOut(pool, inBlock, failedTx, mapModifiedTx, iter);
        fUsingModified := mi == |order| || better(Ranking(pool, mapModifiedTx, iter), Ranking(pool, map[], order[mi]));
        if StrictOrder(better) {
          if fUsingModified {
            ModifiedLeads(pool, order, mi, mapModifiedTx, better, iter);
          } else {
            NextLeads(pool, order, mi, mapModifiedTx, better, iter);
          }
        }
      }
      if !fUsingModified {
        iter := order[mi];
      }
    }

    /** One round of the selection loop after the entries to skip. */
    method Round(order: seq<nat>, n: nat, modified: map<nat, Modified>, failed: set<nat>, ghost refused: set<nat>,
                 better: (Ranked, Ranked) -> bool, minFee: int -> int)
      returns (stop: bool, mi: nat, mapModifiedTx: map<nat, Modified>, failedTx: set<nat>, ghost refused': set<nat>,
               ghost last: Ranked)
      requires Valid() && Tracks(pool, inBlock, failed, modified) && (n < |order| || modified != map[])
      requires forall i :: 0 <= i < |order| ==> order[i] in pool
      requires n < |order| ==> !SkipMapTxEntry(order[n], modified, failed)
      requires failed <= refused && AllTooMuch(pool, isFinal, nBlockMaxSize, inBlock, refused)
      requires Decided(order, n, modified, inBlock, refused)
      modifies this`vtx, this`vTxFees, this`vTxSigOpsCost, this`nBlockSize
      modifies this`nBlockTx, this`nBlockSigOps, this`nFees, this`inBlock
      ensures Valid() && old(vtx) <= vtx && Tracks(pool, inBlock, failedTx, mapModifiedTx)
      ensures !stop ==>
                && failedTx <= refused' && AllTooMuch(pool, isFinal, nBlockMaxSize, inBlock, refused')
                && Decided(order, mi, mapModifiedTx, inBlock, refused')
      ensures !stop ==>
                || Outside(pool, inBlock) < Outside(pool, old(inBlock))
                || (inBlock == old(inBlock) && Waiting(order, mi, mapModifiedTx) < Waiting(order, n, modified))
      ensures stop ==> last.tx in pool && last.tx !in inBlock && last.totals.fees < minFee(last.totals.size)
      ensures stop && StrictOrder(better) && SortedBy(pool, order, better) ==>
                NothingBetter(pool, isFinal, nBlockMaxSize, inBlock, order, mapModifiedTx, better, last)
      ensures inBlock == old(inBlock) ==> vtx == old(vtx)
      ensures inBlock != old(inBlock) ==>
                Takes(Offers(pool, isFinal, nBlockMaxSize, order, better, minFee), old(inBlock), inBlock,
                      Pick(|old(vtx)|, last, modified, failed))
    {
      hide Valid, Tracks, Remaining, TooMuch, AllTooMuch, Decided, Base, PackageFits, KeptBut, StrictOrder, SortedBy,
           Leading, NothingBetter, Takes, Exact;
      assert n <= |order| by { DecidedWithin(order, n, modified, inBlock, refused); }
      ghost var before := inBlock;
      mi, refused' := n, refused;
      var fUsingModified, iter := Choose(order, n, modified, better, failed);
      if !fUsingModified {
        mi := n + 1;
      }
      last := Ranking(pool, if fUsingModified then modified else map[], iter);
      if StrictOrder(better) && SortedBy(pool, order, better) {
        LeadingAll(pool, isFinal, nBlockMaxSize, inBlock, refused, order, n, modified, better, last);
      }
      assert iter !in inBlock;
      Fitting(iter, fUsingModified, modified, failed, refused);
      stop, mapModifiedTx, failedTx := EvaluatePackage(iter, fUsingModified, modified, failed, minFee);
      if stop {
        return;
      }
      if iter in inBlock {
        TakesMeans(Offers(pool, isFinal, nBlockMaxSize, order, better, minFee), before, inBlock,
                   Pick(|old(vtx)|, last, modified, failed));
      }
      if iter !in inBlock { refused' := refused + {iter}; }
      RefusedStep(pool, isFinal, nBlockMaxSize, before, inBlock, refused, refused', iter);
      DecidedStep(order, n, mi, modified, mapModifiedTx, before, inBlock, refused, refused', iter);
    }

    /** addPackageTxs: take packages until none is left, or the best pays too little. `order` is the pool
      * in the order of its ancestor score, `better` compares scores, `minFee` is the least fee for a size.
      * When it does not end for a low fee, no package it has left out can be added any more. When it does, nothing
      * that could be added is better than the package with that fee, by the totals `cached` at the end.
      */
    method AddPackageTxs(order: seq<nat>, better: (Ranked, Ranked) -> bool, minFee: int -> int)
      returns (lowFee: bool, ghost last: Ranked, ghost cached: map<nat, Modified>, ghost failed: set<nat>,
               ghost picks: seq<Pick>)
      requires Valid() && forall i :: 0 <= i < |order| ==> order[i] in pool
      modifies this
      ensures Valid() && old(vtx) <= vtx && nBlockMaxSize == old(nBlockMaxSize)
      ensures !lowFee ==> forall i :: 0 <= i < |order| ==>
                order[i] in inBlock || TooMuch(pool, isFinal, nBlockMaxSize, inBlock, order[i])
      ensures lowFee ==> last.tx in pool && last.tx !in inBlock && last.totals.fees < minFee(last.totals.size)
      ensures lowFee && StrictOrder(better) && SortedBy(pool, order, better) ==>
                NothingBetter(pool, isFinal, nBlockMaxSize, inBlock, order, cached, better, last)
      ensures Tracks(pool, inBlock, failed, cached)
      ensures InRounds(Offers(pool, isFinal, nBlockMaxSize, order, better, minFee), vtx, |old(vtx)|, picks)
    {
      hide StrictOrder, SortedBy, NothingBetter, Valid, Tracks, Patched, Charges, WellFormed, AncestorClosed, TooMuch,
           AllTooMuch, Decided, Outside, Takes, InRounds, Txs;
      picks := [];
      ghost var o := Offers(pool, isFinal, nBlockMaxSize, order, better, minFee);
      NoRound(o, vtx);
      Closed();
      ClosedIn(pool, inBlock);
      var mapModifiedTx := UpdatePackagesForAdded(pool, inBlock, map[]);
      var failedTx: set<nat> := {};
      TracksStart(pool, inBlock, mapModifiedTx);
      var mi: nat := 0;
      ghost var refused: set<nat> := {};
      last := Ranked(Modified(0, 0, 0), 0);
      NoneDecided(pool, isFinal, nBlockMaxSize, order, mapModifiedTx, inBlock);
      while mi < |order| || mapModifiedTx != map[]
        invariant Valid() && old(vtx) <= vtx && nBlockMaxSize == old(nBlockMaxSize)
        invariant Tracks(pool, inBlock, failedTx, mapModifiedTx)
        invariant failedTx <= refused && AllTooMuch(pool, isFinal, nBlockMaxSize, inBlock, refused)
        invariant Decided(order, mi, mapModifiedTx, inBlock, refused)
        invariant InRounds(o, vtx, |old(vtx)|, picks)
        decreases Outside(pool, inBlock), Waiting(order, mi, mapModifiedTx)
      {
        DecidedWithin(order, mi, mapModifiedTx, inBlock, refused);
        if mi < |order| && SkipMapTxEntry(order[mi], mapModifiedTx, failedTx) {
          DecidedNext(order, mi, mapModifiedTx, inBlock, refused);
          mi := mi + 1;
          continue;
        }
        ghost var before, inBefore, pick := vtx, inBlock, Pick(|vtx|, last, mapModifiedTx, failedTx);
        InBlock();
        lowFee, mi, mapModifiedTx, failedTx, refused, last :=
          Round(order, mi, mapModifiedTx, failedTx, refused, better, minFee);
        InBlock();
        if inBlock != inBefore {
          pick := pick.(best := last);
          NextRound(o, before, vtx, |old(vtx)|, picks, pick);
          picks := picks + [pick];
        }
        cached, failed := mapModifiedTx, failedTx;
        if lowFee {
          return;
        }
      }
      DecidedWithin(order, mi, mapModifiedTx, inBlock, refused);
      DecidedAll(pool, isFinal, nBlockMaxSize, order, mapModifiedTx, inBlock, refused);
      lowFee, cached, failed := false, mapModifiedTx, failedTx;
    }

    lemma BarredNow(r: Rules, t: nat)
      requires Valid() && r.pool == pool && r.isFinal == isFinal && r.maxSize == nBlockMaxSize && t in pool
      requires || r.tooYoung(t) || !isFinal(t) || nBlockSize + pool[t].size >= nBlockMaxSize
               || nBlockSigOps + pool[t].sigOps >= MAX_BLOCK_SIGOPS
      ensures Barred(r, Txs(vtx), t)
    {
      hide Sum, Txs, Ordered, WellFormed, FeesOf, SigOpCosts, SumSeq;
    }

    lemma SizeNow(r: Rules)
      requires Valid() && r.pool == pool && vtx != []
      ensures GoesOn(r, vtx, |vtx| - 1) <==>
                nBlockSize < r.prioritySize && r.allowFree(r.priority(vtx[|vtx| - 1]))
    {
      hide Sum, Txs, Ordered, WellFormed, FeesOf, SigOpCosts, SumSeq;
      assert vtx[..|vtx|] == vtx;
    }

    lemma InBlock()
      requires Valid()
      ensures inBlock == Txs(vtx)
    {
    }

    /** The pool is well formed and the block contains the ancestors of everything in it. */
    lemma Closed()
      requires Valid()
      ensures WellFormed(pool) && AncestorClosed(pool, inBlock)
    {
      hide Totals, Accounted;
      OrderedClosed(pool, vtx);
    }
  }

  /** CreateNewBlock, as far as the choice of transactions goes. */
  method CreateNewBlock(pool: Pool, isFinal: nat -> bool, configuredMax: nat,
                        priority: nat -> int, allowFree: int -> bool, prioritySize: nat,
                        fProofOfStake: bool, nBlockTime: int, txTime: nat -> int,
                        order: seq<nat>, better: (Ranked, Ranked) -> bool, minFee: int -> int)
    returns (vtx: seq<nat>, nFees: int, lowFee: bool, nPriority: nat,
             ghost last: Ranked, ghost cached: map<nat, Modified>, ghost finished: bool, ghost picks: seq<Pick>)
    requires WellFormed(pool) && forall i :: 0 <= i < |order| ==> order[i] in pool
    ensures !lowFee ==> forall i :: 0 <= i < |order| ==>
              || order[i] in Txs(vtx)
              || TooMuch(pool, isFinal, Clamped(configuredMax), Txs(vtx), order[i])
    ensures lowFee ==> last.tx in pool && last.tx !in Txs(vtx) && last.totals.fees < minFee(last.totals.size)
    ensures lowFee && StrictOrder(better) && SortedBy(pool, order, better) ==>
              NothingBetter(pool, isFinal, Clamped(configuredMax), Txs(vtx), order, cached, better, last)
    ensures nPriority <= |vtx| && Greedy(pool, priority, vtx[..nPriority])
    ensures PriorityPhase(Rules(pool, isFinal, Young(fProofOfStake, nBlockTime, txTime), priority, allowFree,
                                Min(Clamped(configuredMax), prioritySize), Clamped(configuredMax)),
                          vtx[..nPriority], finished)
    ensures finished ==>
              || 1000 + Sum(SizeOf(pool), Txs(vtx[..nPriority])) > Clamped(configuredMax) - 1000
              || 100 + Sum(SigOpsOf(pool), Txs(vtx[..nPriority])) > MAX_BLOCK_SIGOPS - 2
    ensures InRounds(Offers(pool, isFinal, Clamped(configuredMax), order, better, minFee), vtx, nPriority, picks)
    ensures forall i :: 0 <= i < |vtx| ==> isFinal(vtx[i])
    ensures Ordered(pool, vtx) && AncestorClosed(pool, Txs(vtx))
    ensures vtx != [] ==> 1000 + Sum(SizeOf(pool), Txs(vtx)) < MAX_BLOCK_SIZE - 1000
    ensures configuredMax >= 1000 && vtx != [] ==> 1000 + Sum(SizeOf(pool), Txs(vtx)) < configuredMax
    ensures 100 + Sum(SigOpsOf(pool), Txs(vtx)) < MAX_BLOCK_SIGOPS
    ensures (forall i :: 0 <= i < |vtx| ==> vtx[i] in pool) && nFees == SumSeq(FeesOf(pool, vtx))
  {
    hide WellFormed, Ordered, Sum, AncestorClosed, TooMuch, StrictOrder, SortedBy, NothingBetter, Greedy, Tracks,
         PriorityPhase, InRounds;
    var assembler := new BlockAssembler(pool, isFinal, configuredMax);
    assembler.AddPriorityTxs(priority, allowFree, prioritySize, fProofOfStake, nBlockTime, txTime);
    nPriority, finished := |assembler.vtx|, assembler.blockFinished;
    ghost var chosen, failed := assembler.vtx, {};
    lowFee, last, cached, failed, picks := assembler.AddPackageTxs(order, better, minFee);
    assert assembler.vtx[..nPriority] == chosen;
    assembler.Closed();
    vtx, nFees := assembler.vtx, assembler.nFees;
    PhaseFinal(Rules(pool, isFinal, Young(fProofOfStake, nBlockTime, txTime), priority, allowFree,
                     Min(Clamped(configuredMax), prioritySize), Clamped(configuredMax)), chosen, finished);
    RoundsFinal(Offers(pool, isFinal, Clamped(configuredMax), order, better, minFee), vtx, nPriority, picks);
  }

  // ----- Ordering a package -----

  /** CompareTxIterByAncestorCount. */
  predicate Before(pool: Pool, a: nat, b: nat)
    requires a in pool && b in pool
  {
    if pool[a].countWithAncestors != pool[b].countWithAncestors
    then pool[a].countWithAncestors < pool[b].countWithAncestors
    else a < b
  }

  ghost predicate SortedFor(pool: Pool, package: set<nat>, entries: seq<nat>) {
    && (forall i :: 0 <= i < |entries| ==> entries[i] in pool)
    && Txs(entries) == package
    && (forall i, j :: 0 <= i < j < |entries| ==> Before(pool, entries[i], entries[j]))
  }

  ghost predicate AllBefore(pool: Pool, entries: seq<nat>, t: nat) {
    && t in pool
    && forall i :: 0 <= i < |entries| ==> entries[i] in pool && Before(pool, entries[i], t)
  }

  lemma SortedEmpty(pool: Pool)
    ensures SortedFor(pool, {}, [])
  {
  }

  lemma SortedAppend(pool: Pool, package: set<nat>, entries: seq<nat>, t: nat)
    requires SortedFor(pool, package, entries) && AllBefore(pool, entries, t)
    ensures SortedFor(pool, package + {t}, entries + [t])
  {
    assert Txs(entries + [t]) == Txs(entries) + {t};
  }

  /** The transactions of a package, by number of ancestors and then by hash. */
  method SortForBlock(pool: Pool, package: set<nat>) returns (sortedEntries: seq<nat>)
    requires package <= pool.Keys
    ensures SortedFor(pool, package, sortedEntries)
    ensures |sortedEntries| == |package|
  {
    hide SortedFor;
    sortedEntries := [];
    var rest := package;
    SortedEmpty(pool);
    assert package - package == {};
    while rest != {}
      invariant rest <= package && |sortedEntries| + |rest| == |package|
      invariant SortedFor(pool, package - rest, sortedEntries)
      invariant forall t :: t in rest ==> AllBefore(pool, sortedEntries, t)
      decreases |rest|
    {
      var least := Least(pool, rest);
      SortedAppend(pool, package - rest, sortedEntries, least);
      assert package - (rest - {least}) == package - rest + {least};
      sortedEntries := sortedEntries + [least];
      rest := rest - {least};
    }
    assert package - {} == package;
  }

  method Least(pool: Pool, s: set<nat>) returns (least: nat)
    requires s != {} && s <= pool.Keys
    ensures least in s && forall t :: t in s && t != least ==> Before(pool, least, t)
  {
    least :| least in s;
    var todo := s - {least};
    while todo != {}
      invariant todo <= s && least in s
      invariant forall t :: t in s && t !in todo && t != least ==> Before(pool, least, t)
      decreases |todo|
    {
      var t :| t in todo;
      if Before(pool, t, least) {
        least := t;
      }
      todo := todo - {t};
    }
  }

  /** The candidates in the queue and those waiting for a parent are distinct and not in the block. */
  ghost predicate Queued(pool: Pool, inBlock: set<nat>, vecPriority: seq<Candidate>, waitPriMap: map<nat, int>) {
    && (forall i :: 0 <= i < |vecPriority| ==>
          vecPriority[i].tx in pool && vecPriority[i].tx !in inBlock && vecPriority[i].tx !in waitPriMap)
    && (forall i, j :: 0 <= i < j < |vecPriority| ==> vecPriority[i].tx != vecPriority[j].tx)
    && (forall t :: t in waitPriMap ==> t in pool && t !in inBlock)
  }

  /** A popped candidate is not in the block, and may be dropped, made to wait, or added. */
  lemma QueuePop(pool: Pool, inBlock: set<nat>, vec: seq<Candidate>, wait: map<nat, int>, best: nat)
    requires Queued(pool, inBlock, vec, wait) && best < |vec|
    ensures vec[best].tx in pool && vec[best].tx !in inBlock
    ensures Queued(pool, inBlock, vec[..best] + vec[best + 1..], wait)
    ensures Queued(pool, inBlock, vec[..best] + vec[best + 1..], wait[vec[best].tx := vec[best].priority])
    ensures Queued(pool, inBlock + {vec[best].tx}, vec[..best] + vec[best + 1..], wait)
  {
    var rest := vec[..best] + vec[best + 1..];
    forall i | 0 <= i < |rest| ensures rest[i] == vec[if i < best then i else i + 1] {}
  }

  /** Move the children that waited for a transaction back into the queue. */
  method WakeChildren(pool: Pool, ghost inBlock: set<nat>, iter: nat, vec: seq<Candidate>, wait: map<nat, int>)
    returns (vecPriority: seq<Candidate>, waitPriMap: map<nat, int>)
    requires Queued(pool, inBlock, vec, wait)
    ensures Queued(pool, inBlock, vecPriority, waitPriMap)
    ensures forall t :: t in waitPriMap <==> t in wait && iter !in pool[t].parents
    ensures forall t :: t in waitPriMap ==> waitPriMap[t] == wait[t]
    ensures forall t :: t in wait && t !in waitPriMap ==> Contains(vecPriority, Candidate(wait[t], t))
    ensures vec <= vecPriority && WokenBy(pool, iter, |vec|, vecPriority, wait)
  {
    vecPriority, waitPriMap := vec, wait;
    var children := set c | c in pool && iter in pool[c].parents;
    while children != {}
      invariant forall c :: c in children ==> c in pool && iter in pool[c].parents
      invariant Queued(pool, inBlock, vecPriority, waitPriMap) && vec <= vecPriority
      invariant WokenBy(pool, iter, |vec|, vecPriority, wait)
      invariant forall t :: t in waitPriMap <==> t in wait && (iter !in pool[t].parents || t in children)
      invariant forall t :: t in waitPriMap ==> waitPriMap[t] == wait[t]
      invariant forall t :: t in wait && t !in waitPriMap ==> Contains(vecPriority, Candidate(wait[t], t))
      decreases |children|
    {
      var child :| child in children;
      if child in waitPriMap {
        QueueWake(pool, inBlock, vecPriority, waitPriMap, child);
        vecPriority := vecPriority + [Candidate(waitPriMap[child], child)];
        waitPriMap := waitPriMap - {child};
      }
      children := children - {child};
    }
  }

  // ----- The order of priorities -----

  /** From position n on, the queue holds children of iter that had waited. */
  ghost predicate WokenBy(pool: Pool, iter: nat, n: nat, vec: seq<Candidate>, wait: map<nat, int>) {
    forall i :: n <= i < |vec| ==>
      && vec[i].tx in wait && vec[i].priority == wait[vec[i].tx]
      && vec[i].tx in pool && iter in pool[vec[i].tx].parents
  }

  /** Before the i-th transaction was chosen, t could have been. */
  ghost predicate Ready(pool: Pool, vtx: seq<nat>, i: nat, t: nat)
    requires i <= |vtx|
  {
    t in pool && pool[t].parents <= Txs(vtx[..i])
  }

  /** Whatever was ready and was chosen later has no higher priority. */
  ghost predicate Greedy(pool: Pool, priority: nat -> int, vtx: seq<nat>) {
    forall j :: 0 <= j < |vtx| ==> OutrankedBy(pool, priority, vtx[..j], vtx[j])
  }

  /** The transactions chosen while t was ready have no lower priority than t. */
  ghost predicate OutrankedBy(pool: Pool, priority: nat -> int, vtx: seq<nat>, t: nat) {
    forall i :: 0 <= i < |vtx| && Ready(pool, vtx, i, t) ==> priority(vtx[i]) >= priority(t)
  }

  /** The queue is outranked by what has been chosen, and what waits has a parent outside the block. */
  ghost predicate ByPriority(pool: Pool, priority: nat -> int, vtx: seq<nat>, vec: seq<Candidate>,
                             wait: map<nat, int>) {
    && Greedy(pool, priority, vtx)
    && (forall q :: 0 <= q < |vec| ==>
          vec[q].priority == priority(vec[q].tx) && OutrankedBy(pool, priority, vtx, vec[q].tx))
    && (forall t :: t in wait ==> wait[t] == priority(t) && t in pool && !(pool[t].parents <= Txs(vtx)))
  }

  /** c has come out of the queue and nothing left there has a higher priority. */
  ghost predicate Leads(pool: Pool, priority: nat -> int, vtx: seq<nat>, c: Candidate, vec: seq<Candidate>) {
    && c.priority == priority(c.tx) && OutrankedBy(pool, priority, vtx, c.tx)
    && forall q :: 0 <= q < |vec| ==> priority(vec[q].tx) <= priority(c.tx)
  }

  lemma LeadsWith(pool: Pool, priority: nat -> int, vtx: seq<nat>, c: Candidate, vec: seq<Candidate>)
    requires Leads(pool, priority, vtx, c, vec)
    ensures c.priority == priority(c.tx)
  {
  }

  predicate IsBest(vec: seq<Candidate>, best: nat) {
    best < |vec| && forall q :: 0 <= q < |vec| ==> vec[q].priority <= vec[best].priority
  }

  lemma {:induction false} SomeBest(vec: seq<Candidate>)
    requires vec != []
    ensures exists best: nat :: best < |vec| && IsBest(vec, best)
  {
    if |vec| == 1 {
      assert IsBest(vec, 0);
    } else {
      var n := |vec| - 1;
      SomeBest(vec[..n]);
      var best: nat :| best < n && IsBest(vec[..n], best);
      assert forall q :: 0 <= q < n ==> vec[..n][q] == vec[q];
      assert IsBest(vec, if vec[best].priority < vec[n].priority then n else best);
    }
  }

  lemma NothingYet(pool: Pool, priority: nat -> int)
    ensures Greedy(pool, priority, []) && Txs([]) == {}
  {
  }

  lemma StartByPriority(pool: Pool, priority: nat -> int, vec: seq<Candidate>)
    requires forall i :: 0 <= i < |vec| ==> vec[i].priority == priority(vec[i].tx)
    ensures ByPriority(pool, priority, [], vec, map[])
  {
  }

  lemma ByPriorityGreedy(pool: Pool, priority: nat -> int, vtx: seq<nat>, vec: seq<Candidate>, wait: map<nat, int>)
    requires ByPriority(pool, priority, vtx, vec, wait)
    ensures Greedy(pool, priority, vtx)
  {
  }

  lemma Popped(pool: Pool, priority: nat -> int, vtx: seq<nat>, vec: seq<Candidate>, wait: map<nat, int>, best: nat)
    requires ByPriority(pool, priority, vtx, vec, wait) && IsBest(vec, best)
    ensures ByPriority(pool, priority, vtx, vec[..best] + vec[best + 1..], wait)
    ensures Leads(pool, priority, vtx, vec[best], vec[..best] + vec[best + 1..])
  {
    hide Greedy, OutrankedBy;
    var rest := vec[..best] + vec[best + 1..];
    forall q | 0 <= q < |rest| ensures rest[q] == vec[if q < best then q else q + 1] {}
  }

  lemma Postponed(pool: Pool, priority: nat -> int, vtx: seq<nat>, c: Candidate, vec: seq<Candidate>,
                  wait: map<nat, int>)
    requires ByPriority(pool, priority, vtx, vec, wait) && Leads(pool, priority, vtx, c, vec)
    requires c.tx in pool && !(pool[c.tx].parents <= Txs(vtx))
    ensures ByPriority(pool, priority, vtx, vec, wait[c.tx := c.priority])
  {
    hide Greedy, OutrankedBy;
  }

  /** One more transaction: t is outranked by it too, or was not ready before it. */
  lemma OutrankedNext(pool: Pool, priority: nat -> int, vtx: seq<nat>, chosen: nat, t: nat)
    requires OutrankedBy(pool, priority, vtx, t)
    requires priority(chosen) >= priority(t) || !(t in pool && pool[t].parents <= Txs(vtx))
    ensures OutrankedBy(pool, priority, vtx + [chosen], t)
  {
    var w := vtx + [chosen];
    forall i | 0 <= i < |w| && Ready(pool, w, i, t) ensures priority(w[i]) >= priority(t) {
      assert w[..i] == vtx[..i];
      if i < |vtx| { assert Ready(pool, vtx, i, t); } else { assert vtx[..i] == vtx; }
    }
  }

  /** A transaction is not ready before its parent is in the block. */
  lemma OutrankedChild(pool: Pool, priority: nat -> int, vtx: seq<nat>, chosen: nat, t: nat)
    requires t in pool && !(pool[t].parents <= Txs(vtx))
    ensures OutrankedBy(pool, priority, vtx + [chosen], t)
  {
    var w := vtx + [chosen];
    forall i | 0 <= i < |w| ensures !Ready(pool, w, i, t) {
      assert w[..i] == vtx[..i];
      assert Txs(vtx[..i]) <= Txs(vtx);
    }
  }

  lemma Included(pool: Pool, priority: nat -> int, vtx: seq<nat>, c: Candidate, vec: seq<Candidate>)
    requires Greedy(pool, priority, vtx) && Leads(pool, priority, vtx, c, vec)
    ensures Greedy(pool, priority, vtx + [c.tx])
  {
    hide OutrankedBy;
    var w := vtx + [c.tx];
    forall j | 0 <= j < |w| ensures OutrankedBy(pool, priority, w[..j], w[j]) {
      assert w[..j] == vtx[..j];
      if j == |vtx| { assert vtx[..j] == vtx; }
    }
  }

  lemma Woken(pool: Pool, priority: nat -> int, vtx: seq<nat>, c: Candidate, vec: seq<Candidate>, wait: map<nat, int>,
              vec': seq<Candidate>, wait': map<nat, int>)
    requires ByPriority(pool, priority, vtx, vec, wait) && Leads(pool, priority, vtx, c, vec)
    requires vec <= vec' && WokenBy(pool, c.tx, |vec|, vec', wait)
    requires forall t :: t in wait' <==> t in wait && c.tx !in pool[t].parents
    requires forall t :: t in wait' ==> wait'[t] == wait[t]
    ensures ByPriority(pool, priority, vtx + [c.tx], vec', wait')
  {
    hide OutrankedBy, Greedy, Txs;
    Included(pool, priority, vtx, c, vec);
    forall q | 0 <= q < |vec'|
      ensures vec'[q].priority == priority(vec'[q].tx) && OutrankedBy(pool, priority, vtx + [c.tx], vec'[q].tx)
    {
      if q < |vec| {
        assert vec'[q] == vec[q];
        OutrankedNext(pool, priority, vtx, c.tx, vec[q].tx);
      } else {
        OutrankedChild(pool, priority, vtx, c.tx, vec'[q].tx);
      }
    }
    forall t | t in wait' ensures !(pool[t].parents <= Txs(vtx + [c.tx])) {
      StillWaiting(vtx, c.tx, pool[t].parents);
    }
  }

  lemma StillWaiting(vtx: seq<nat>, chosen: nat, parents: set<nat>)
    requires !(parents <= Txs(vtx)) && chosen !in parents
    ensures !(parents <= Txs(vtx + [chosen]))
  {
    var p :| p in parents && p !in Txs(vtx);
    assert p !in Txs(vtx + [chosen]);
  }

  /** Adding something new to the block leaves less outside it. */
  lemma FewerLeft(all: set<nat>, inBlock: set<nat>, added: set<nat>)
    requires added <= all && added !! inBlock && added != {}
    ensures |all - (inBlock + added)| < |all - inBlock|
  {
    var rest := all - (inBlock + added);
    assert all - inBlock == rest + added;
    assert |rest + added| == |rest| + |added|;
  }

  ghost predicate Contains(vec: seq<Candidate>, c: Candidate) {
    exists i :: 0 <= i < |vec| && vec[i] == c
  }

  lemma QueueWake(pool: Pool, inBlock: set<nat>, vec: seq<Candidate>, wait: map<nat, int>, child: nat)
    requires Queued(pool, inBlock, vec, wait) && child in wait
    ensures Queued(pool, inBlock, vec + [Candidate(wait[child], child)], wait - {child})
    ensures Contains(vec + [Candidate(wait[child], child)], Candidate(wait[child], child))
    ensures forall c :: Contains(vec, c) ==> Contains(vec + [Candidate(wait[child], child)], c)
  {
    var w := vec + [Candidate(wait[child], child)];
    assert w[|vec|] == Candidate(wait[child], child);
    forall c | Contains(vec, c) ensures Contains(w, c) {
      var i :| 0 <= i < |vec| && vec[i] == c;
      assert w[i] == c;
    }
  }

  /** Every transaction of the pool once. */
  method AllCandidates(pool: Pool, priority: nat -> int) returns (vec: seq<Candidate>)
    ensures forall i :: 0 <= i < |vec| ==> vec[i].tx in pool && vec[i].priority == priority(vec[i].tx)
    ensures forall i, j :: 0 <= i < j < |vec| ==> vec[i].tx != vec[j].tx
    ensures forall t :: t in pool ==> Contains(vec, Candidate(priority(t), t))
    ensures Queued(pool, {}, vec, map[])
  {
    vec := [];
    var todo := pool.Keys;
    while todo != {}
      invariant todo <= pool.Keys
      invariant forall i :: 0 <= i < |vec| ==>
                vec[i].tx in pool && vec[i].tx !in todo && vec[i].priority == priority(vec[i].tx)
      invariant forall i, j :: 0 <= i < j < |vec| ==> vec[i].tx != vec[j].tx
      invariant forall t :: t in pool && t !in todo ==> Contains(vec, Candidate(priority(t), t))
      decreases |todo|
    {
      var t :| t in todo;
      ghost var before := vec;
      vec := vec + [Candidate(priority(t), t)];
      assert vec[|before|] == Candidate(priority(t), t);
      forall c | Contains(before, c) ensures Contains(vec, c) {
        var i :| 0 <= i < |before| && before[i] == c;
        assert vec[i] == c;
      }
      todo := todo - {t};
    }
  }

  lemma PackageIn(pool: Pool, inBlock: set<nat>, iter: nat, package: set<nat>)
    requires WellFormed(pool) && iter in pool && iter !in inBlock && package == Remaining(pool, inBlock, iter)
    ensures package <= pool.Keys && package !! inBlock && iter in package
  {
  }

  /** The i-th transaction of a sorted package: it is new, its parents are already there, and it fits if the whole
    * package does.
    */
  lemma PackageStep(pool: Pool, inBlock: set<nat>, iter: nat, package: set<nat>, entries: seq<nat>, i: nat)
    requires WellFormed(pool) && AncestorClosed(pool, inBlock) && iter in pool
    requires package == Remaining(pool, inBlock, iter)
    requires SortedFor(pool, package, entries) && i < |entries|
    ensures entries[i] in pool && entries[i] !in inBlock + Txs(entries[..i])
    ensures pool[entries[i]].parents <= inBlock + Txs(entries[..i])
    ensures Txs(entries[..i + 1]) == Txs(entries[..i]) + {entries[i]}
    ensures Sum(SizeOf(pool), Txs(entries[..i + 1])) ==
              Sum(SizeOf(pool), Txs(entries[..i])) + pool[entries[i]].size <= Sum(SizeOf(pool), package)
    ensures Sum(SigOpsOf(pool), Txs(entries[..i + 1])) ==
              Sum(SigOpsOf(pool), Txs(entries[..i])) + pool[entries[i]].sigOps <= Sum(SigOpsOf(pool), package)
  {
    hide Totals, Closure, Sum;
    var t := entries[i];
    assert t in Txs(entries);
    NotYet(pool, package, entries, i);
    assert entries[..i + 1] == entries[..i] + [t];
    assert Txs(entries[..i + 1]) == Txs(entries[..i]) + {t};
    SumAdd(SizeOf(pool), Txs(entries[..i]), t);
    SumAdd(SigOpsOf(pool), Txs(entries[..i]), t);
    assert Txs(entries[..i + 1]) <= package by {
      forall x | x in Txs(entries[..i + 1]) ensures x in Txs(entries) {}
    }
    SumGrows(SizeOf(pool), Txs(entries[..i + 1]), package);
    SumGrows(SigOpsOf(pool), Txs(entries[..i + 1]), package);
    forall p | p in pool[t].parents ensures p in inBlock + Txs(entries[..i]) {
      ParentFirst(pool, inBlock, iter, package, entries, i, p);
    }
  }

  lemma SortedEnds(pool: Pool, package: set<nat>, entries: seq<nat>)
    requires SortedFor(pool, package, entries)
    ensures Txs(entries[..0]) == {} && Txs(entries) == package
  {
  }

  lemma NotYet(pool: Pool, package: set<nat>, entries: seq<nat>, i: nat)
    requires SortedFor(pool, package, entries) && i < |entries|
    ensures entries[i] !in Txs(entries[..i])
  {
    forall j | 0 <= j < i ensures entries[..i][j] != entries[i] {
      assert Before(pool, entries[j], entries[i]);
    }
  }

  /** A parent has fewer ancestors, so it is sorted before its child, or in the block already. */
  lemma ParentFirst(pool: Pool, inBlock: set<nat>, iter: nat, package: set<nat>, entries: seq<nat>, i: nat, p: nat)
    requires WellFormed(pool) && iter in pool && package == Remaining(pool, inBlock, iter)
    requires SortedFor(pool, package, entries) && i < |entries| && p in pool[entries[i]].parents
    ensures p in inBlock + Txs(entries[..i])
  {
    hide SortedFor, Closure, Totals;
    var t := entries[i];
    EntryIn(pool, package, entries, i);
    FewerAncestors(pool, t, p);
    assert pool[p].countWithAncestors < pool[t].countWithAncestors by {
      CountsAncestors(pool, t);
      CountsAncestors(pool, p);
    }
    if t != iter { AncestorsTransitive(pool, iter, t); }
    if p !in inBlock {
      assert p in package;
      FewerFirst(pool, package, entries, i, p);
    }
  }

  lemma CountsAncestors(pool: Pool, t: nat)
    requires Totals(pool) && t in pool
    ensures pool[t].countWithAncestors == |pool[t].ancestors| + 1
  {
  }

  lemma EntryIn(pool: Pool, package: set<nat>, entries: seq<nat>, i: nat)
    requires SortedFor(pool, package, entries) && i < |entries|
    ensures entries[i] in pool && entries[i] in package
  {
    assert entries[i] in Txs(entries);
  }

  lemma FewerFirst(pool: Pool, package: set<nat>, entries: seq<nat>, i: nat, p: nat)
    requires SortedFor(pool, package, entries) && i < |entries| && p in package && p in pool
    requires pool[p].countWithAncestors < pool[entries[i]].countWithAncestors
    ensures p in Txs(entries[..i])
  {
    assert p in Txs(entries);
    var j :| 0 <= j < |entries| && entries[j] == p;
    if j >= i {
      assert false;
    }
    assert entries[..i][j] == p;
  }

  // ----- Facts for the selection loop -----

  lemma ClosedIn(pool: Pool, inBlock: set<nat>)
    requires AncestorClosed(pool, inBlock)
    ensures inBlock <= pool.Keys
  {
  }

  lemma TracksStart(pool: Pool, inBlock: set<nat>, modified: map<nat, Modified>)
    requires WellFormed(pool) && AncestorClosed(pool, inBlock)
    requires Patched(pool, map[], modified, Charges(pool, inBlock, inBlock))
    ensures Tracks(pool, inBlock, {}, modified)
  {
    hide WellFormed, Patched, Charges, Tracks;
    TracksNothing(pool, {});
    assert {} + inBlock == inBlock;
    var none: map<nat, Modified> := map[];
    assert none - inBlock == none;
    TracksUpdate(pool, {}, inBlock, {}, map[], modified);
  }

  lemma TracksIn(pool: Pool, inBlock: set<nat>, failed: set<nat>, modified: map<nat, Modified>)
    requires Tracks(pool, inBlock, failed, modified)
    ensures modified.Keys <= pool.Keys
  {
  }

  /** The modified set never holds a transaction that is in the block. */
  lemma ModifiedOut(pool: Pool, inBlock: set<nat>, failed: set<nat>, modified: map<nat, Modified>, iter: nat)
    requires Tracks(pool, inBlock, failed, modified) && iter in modified
    ensures iter in pool && iter !in inBlock
  {
  }

  /** Whichever totals the loop uses, they are not below what the package will cost. */
  lemma PackageNotBelow(pool: Pool, inBlock: set<nat>, failed: set<nat>, modified: map<nat, Modified>, using: bool,
                        iter: nat)
    requires WellFormed(pool) && Tracks(pool, inBlock, failed, modified)
    requires iter in pool && iter !in inBlock && (using ==> iter in modified)
    ensures NotBelow(pool, inBlock, iter, Base(pool, if using then modified else map[], iter))
    ensures Base(pool, if using then modified else map[], iter).sigOps >=
              Sum(SigOpsOf(pool), Remaining(pool, inBlock, iter))
  {
    if !using { FullFamily(pool, inBlock, iter); }
  }

  /** They are exact for a transaction that has not failed yet. */
  lemma PackageExact(pool: Pool, inBlock: set<nat>, failed: set<nat>, modified: map<nat, Modified>, using: bool,
                     iter: nat)
    requires WellFormed(pool) && Tracks(pool, inBlock, failed, modified)
    requires iter in pool && iter !in inBlock && iter !in failed && (using <==> iter in modified)
    ensures Exact(pool, inBlock, iter, Base(pool, if using then modified else map[], iter))
  {
    hide Exact;
    if !using { FullFamily(pool, inBlock, iter); }
  }

  /** Charging takes nothing out of the modified set but what joined the block. */
  lemma PatchedKeeps(pool: Pool, before: map<nat, Modified>, added: set<nat>, after: map<nat, Modified>)
    requires Patched(pool, before - added, after, Charges(pool, added, added)) && before.Keys <= pool.Keys
    ensures before.Keys <= after.Keys + added
  {
    forall d | d in before && d !in added ensures d in after {
      assert PatchedAt(pool, before - added, after, Charges(pool, added, added)[d], d);
    }
  }
}
