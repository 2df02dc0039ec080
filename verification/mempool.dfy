/** The part of the memory pool that the block assembler reads (src/txmempool.h).
  *
  * The pool is a finite set of transactions with their parents and, as the pool caches
  * them, their ancestors and the totals over the ancestors. `WellFormed` says that the
  * ancestors are the transitive closure of the parents, that nobody is its own ancestor,
  * and that the cached totals are exact.
  */
module Mempool {
  import opened Numbers

  datatype Entry = Entry(
    size: nat,
    sigOps: nat,
    fee: int,
    modifiedFee: int,
    parents: set<nat>,
    ancestors: set<nat>,
    countWithAncestors: nat,
    sizeWithAncestors: nat,
    sigOpsWithAncestors: nat,
    modFeesWithAncestors: int)

  /** Transactions are named by their hash, a number; comparing hashes is comparing numbers. */
  type Pool = map<nat, Entry>

  // ----- Sums over sets of transactions -----

  ghost function Sum(w: nat -> int, s: set<nat>): int
    decreases |s|
  {
    if s == {} then 0 else
    var x :| x in s;
    w(x) + Sum(w, s - {x})
  }

  lemma {:induction false} SumRemove(w: nat -> int, s: set<nat>, y: nat)
    requires y in s
    ensures Sum(w, s) == w(y) + Sum(w, s - {y})
    decreases |s|
  {
    var x :| x in s && Sum(w, s) == w(x) + Sum(w, s - {x});
    if x != y {
      SumRemove(w, s - {x}, y);
      SumRemove(w, s - {y}, x);
      assert s - {x} - {y} == s - {y} - {x};
    }
  }

  lemma SumEmpty(w: nat -> int)
    ensures Sum(w, {}) == 0
  {
  }

  lemma SumAdd(w: nat -> int, s: set<nat>, y: nat)
    requires y !in s
    ensures Sum(w, s + {y}) == Sum(w, s) + w(y)
  {
    SumRemove(w, s + {y}, y);
    assert s + {y} - {y} == s;
  }

  lemma {:induction false} SumUnion(w: nat -> int, s: set<nat>, t: set<nat>)
    requires s !! t
    ensures Sum(w, s + t) == Sum(w, s) + Sum(w, t)
    decreases |t|
  {
    if t == {} {
      assert s + t == s;
    } else {
      var x :| x in t;
      SumRemove(w, t, x);
      SumUnion(w, s, t - {x});
      assert s + t == (s + (t - {x})) + {x};
      SumAdd(w, s + (t - {x}), x);
    }
  }

  lemma SumSplit(w: nat -> int, s: set<nat>, t: set<nat>)
    requires t <= s
    ensures Sum(w, s) == Sum(w, s - t) + Sum(w, t)
  {
    assert s == (s - t) + t;
    SumUnion(w, s - t, t);
  }

  /** Sums of weights add up. */
  lemma {:induction false} SumPlus(u: nat -> int, v: nat -> int, w: nat -> int, s: set<nat>)
    requires forall x :: w(x) == u(x) + v(x)
    ensures Sum(w, s) == Sum(u, s) + Sum(v, s)
    decreases |s|
  {
    if s != {} {
      var x :| x in s;
      SumRemove(u, s, x);
      SumRemove(v, s, x);
      SumRemove(w, s, x);
      SumPlus(u, v, w, s - {x});
    }
  }

  lemma {:induction false} SumZeros(w: nat -> int, s: set<nat>)
    requires forall x :: x in s ==> w(x) == 0
    ensures Sum(w, s) == 0
    decreases |s|
  {
    if s != {} {
      var x :| x in s;
      SumRemove(w, s, x);
      SumZeros(w, s - {x});
    }
  }

  lemma {:induction false} SumConstant(w: nat -> int, s: set<nat>, c: int)
    requires forall x :: x in s ==> w(x) == c
    ensures Sum(w, s) == |s| * c
    decreases |s|
  {
    if s != {} {
      var x :| x in s;
      SumRemove(w, s, x);
      SumConstant(w, s - {x}, c);
    }
  }

  lemma {:induction false} SumNotNegative(w: nat -> int, s: set<nat>)
    requires forall x :: w(x) >= 0
    ensures Sum(w, s) >= 0
    decreases |s|
  {
    if s != {} {
      var x :| x in s;
      SumRemove(w, s, x);
      SumNotNegative(w, s - {x});
    }
  }

  // ----- The dependency graph -----

  ghost function SizeOf(pool: Pool): nat -> int {
    t => if t in pool then pool[t].size else 0
  }

  ghost function SigOpsOf(pool: Pool): nat -> int {
    t => if t in pool then pool[t].sigOps else 0
  }

  ghost function FeeOf(pool: Pool): nat -> int {
    t => if t in pool then pool[t].fee else 0
  }

  ghost function ModifiedFeeOf(pool: Pool): nat -> int {
    t => if t in pool then pool[t].modifiedFee else 0
  }

  /** What prioritising has added to the fee of a transaction. */
  ghost function DeltaOf(pool: Pool): nat -> int {
    t => if t in pool then pool[t].modifiedFee - pool[t].fee else 0
  }

  lemma SumDelta(pool: Pool, s: set<nat>)
    ensures Sum(ModifiedFeeOf(pool), s) == Sum(FeeOf(pool), s) + Sum(DeltaOf(pool), s)
  {
    SumPlus(FeeOf(pool), DeltaOf(pool), ModifiedFeeOf(pool), s);
  }

  /** No transaction has been prioritised. */
  ghost predicate Plain(pool: Pool) {
    forall t :: t in pool ==> pool[t].modifiedFee == pool[t].fee
  }

  /** A transaction with its ancestors. */
  ghost function Family(pool: Pool, t: nat): set<nat>
    requires t in pool
  {
    pool[t].ancestors + {t}
  }

  ghost predicate Closure(pool: Pool) {
    && (forall t :: t in pool ==> pool[t].parents <= pool.Keys && pool[t].ancestors <= pool.Keys)
    && (forall t, a :: t in pool && a in pool[t].ancestors ==> a in pool[t].parents || Through(pool, t, a))
    && (forall t, p :: t in pool && p in pool[t].parents ==> p in pool && Family(pool, p) <= pool[t].ancestors)
    && (forall t :: t in pool ==> t !in pool[t].ancestors)
  }

  /** a is an ancestor of one of t's parents. */
  ghost predicate Through(pool: Pool, t: nat, a: nat)
    requires t in pool
  {
    exists p :: p in pool[t].parents && p in pool && a in pool[p].ancestors
  }

  ghost predicate Totals(pool: Pool) {
    forall t :: t in pool ==>
      && pool[t].countWithAncestors == |pool[t].ancestors| + 1
      && pool[t].sizeWithAncestors == Sum(SizeOf(pool), Family(pool, t))
      && pool[t].sigOpsWithAncestors == Sum(SigOpsOf(pool), Family(pool, t))
      && pool[t].modFeesWithAncestors == Sum(ModifiedFeeOf(pool), Family(pool, t))
  }

  ghost predicate WellFormed(pool: Pool) {
    Closure(pool) && Totals(pool)
  }

  /** Ancestors of ancestors are ancestors. */
  lemma {:induction false} AncestorsTransitive(pool: Pool, t: nat, a: nat)
    requires Closure(pool) && t in pool && a in pool[t].ancestors
    ensures a in pool && pool[a].ancestors <= pool[t].ancestors
    decreases |pool[t].ancestors|
  {
    assert a in pool;
    if a in pool[t].parents {
    } else {
      assert Through(pool, t, a);
      var p :| p in pool[t].parents && p in pool && a in pool[p].ancestors;
      FewerAncestors(pool, t, p);
      AncestorsTransitive(pool, p, a);
    }
  }

  /** A parent has fewer ancestors than its child. */
  lemma FewerAncestors(pool: Pool, t: nat, p: nat)
    requires Closure(pool) && t in pool && p in pool[t].parents
    ensures p in pool && p in pool[t].ancestors && |pool[p].ancestors| < |pool[t].ancestors|
  {
    assert Family(pool, p) <= pool[t].ancestors;
    SubsetSize(Family(pool, p), pool[t].ancestors);
  }

  /** A chain of parents from t to a. */
  ghost predicate IsPath(pool: Pool, path: seq<nat>, t: nat, a: nat) {
    && |path| >= 2 && path[0] == t && path[|path| - 1] == a
    && forall i :: 0 <= i < |path| - 1 ==> Link(pool, path[i], path[i + 1])
  }

  ghost predicate Link(pool: Pool, t: nat, p: nat) {
    t in pool && p in pool[t].parents
  }

  /** The cached ancestors are those reachable through parents: every chain leads to one. */
  lemma {:induction false} PathsLeadToAncestors(pool: Pool, path: seq<nat>, t: nat, a: nat)
    requires Closure(pool) && IsPath(pool, path, t, a)
    ensures t in pool && a in pool[t].ancestors
    decreases |path|
  {
    assert Link(pool, path[0], path[1]);
    if |path| > 2 {
      forall i | 0 <= i < |path[1..]| - 1 ensures Link(pool, path[1..][i], path[1..][i + 1]) {
        assert Link(pool, path[i + 1], path[i + 2]);
      }
      PathsLeadToAncestors(pool, path[1..], path[1], a);
    }
  }

  /** ... and every ancestor is at the end of a chain. */
  lemma {:induction false} AncestorsHavePaths(pool: Pool, t: nat, a: nat) returns (path: seq<nat>)
    requires Closure(pool) && t in pool && a in pool[t].ancestors
    ensures IsPath(pool, path, t, a)
    decreases |pool[t].ancestors|
  {
    if a in pool[t].parents {
      path := [t, a];
      assert Link(pool, t, a);
    } else {
      assert Through(pool, t, a);
      var p :| p in pool[t].parents && p in pool && a in pool[p].ancestors;
      FewerAncestors(pool, t, p);
      var rest := AncestorsHavePaths(pool, p, a);
      path := [t] + rest;
      assert Link(pool, t, p);
      forall i | 0 <= i < |path| - 1 ensures Link(pool, path[i], path[i + 1]) {
        if i > 0 { assert Link(pool, rest[i - 1], rest[i]); }
      }
    }
  }
}
