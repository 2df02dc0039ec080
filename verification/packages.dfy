/** The cached package totals of the block assembler (src/miner.cpp:308-330, src/miner.h:35-48, 117-129).
  *
  * mapModifiedTx holds, for transactions with an ancestor in the block, the totals of the
  * transaction and its ancestors, less what is already in the block. `Tracks` says how
  * good these totals are at any moment: exact, except for transactions that failed once,
  * whose totals are never too small. The first charge of an entry takes the modified fee and
  * all later ones the plain fee, so that the cached fees differ from the modified fees of what
  * remains by what prioritising added to all of them but the first (`FeesOff`).
  */
module Packages {
  import opened Mempool

  /** CTxMemPoolModifiedEntry. */
  datatype Modified = Modified(size: int, fees: int, sigOps: int)

  /** A transaction and its ancestors, as far as they are not in the block. */
  ghost function Remaining(pool: Pool, inBlock: set<nat>, d: nat): set<nat>
    requires d in pool
  {
    Family(pool, d) - inBlock
  }

  /** With a transaction, all its ancestors. */
  ghost predicate AncestorClosed(pool: Pool, s: set<nat>) {
    forall t :: t in s ==> t in pool && pool[t].ancestors <= s
  }

  ghost predicate NotBelow(pool: Pool, inBlock: set<nat>, d: nat, m: Modified)
    requires d in pool
  {
    && m.size >= Sum(SizeOf(pool), Remaining(pool, inBlock, d))
    && m.sigOps >= Sum(SigOpsOf(pool), Remaining(pool, inBlock, d))
  }

  ghost predicate Exact(pool: Pool, inBlock: set<nat>, d: nat, m: Modified)
    requires d in pool
  {
    && m.size == Sum(SizeOf(pool), Remaining(pool, inBlock, d))
    && m.sigOps == Sum(SigOpsOf(pool), Remaining(pool, inBlock, d))
    && FeesOff(pool, pool[d].ancestors * inBlock, Sum(ModifiedFeeOf(pool), Remaining(pool, inBlock, d)), m.fees)
  }

  /** With the ancestors `gone` into the block, the fees are too high by what prioritising added to all but one. */
  ghost predicate FeesOff(pool: Pool, gone: set<nat>, truth: int, fees: int) {
    if gone == {} then fees == truth
    else exists first :: first in gone && fees == truth + Sum(DeltaOf(pool), gone - {first})
  }

  /** Cached totals never fall below the truth; they are exact unless the transaction failed once; cached are
    * only transactions with something in the block, and all of these that never failed.
    */
  ghost predicate Tracks(pool: Pool, inBlock: set<nat>, failed: set<nat>, modified: map<nat, Modified>) {
    && (forall d :: d in modified ==> d in pool && d !in inBlock && pool[d].ancestors * inBlock != {})
    && (forall d :: d in modified ==> NotBelow(pool, inBlock, d, modified[d]))
    && (forall d :: d in modified && d !in failed ==> Exact(pool, inBlock, d, modified[d]))
    && (forall d :: d in pool && d !in inBlock && d !in modified && d !in failed ==> pool[d].ancestors !! inBlock)
  }

  // ----- Charging included ancestors -----

  /** The totals before anything is charged: the cached ones, or the full ones of the pool. */
  function Base(pool: Pool, modified: map<nat, Modified>, d: nat): Modified
    requires d in pool
  {
    if d in modified then modified[d]
    else Modified(pool[d].sizeWithAncestors, pool[d].modFeesWithAncestors, pool[d].sigOpsWithAncestors)
  }

  /** From `before` to `after`, each transaction d was charged the ancestors in charged[d]. */
  ghost predicate Patched(pool: Pool, before: map<nat, Modified>, after: map<nat, Modified>,
                          charged: map<nat, set<nat>>) {
    && charged.Keys == pool.Keys
    && (forall d :: d in after ==> d in pool)
    && (forall d :: d in pool ==> PatchedAt(pool, before, after, charged[d], d))
  }

  ghost predicate PatchedAt(pool: Pool, before: map<nat, Modified>, after: map<nat, Modified>, charge: set<nat>, d: nat)
    requires d in pool
  {
    && (d in after <==> d in before || charge != {})
    && (d in after ==>
          && after[d].size == Base(pool, before, d).size - Sum(SizeOf(pool), charge)
          && after[d].sigOps == Base(pool, before, d).sigOps - Sum(SigOpsOf(pool), charge)
          && FeesPatched(pool, Base(pool, before, d).fees, after[d].fees, charge, d in before))
  }

  /** The fees of an entry that was there are less the plain fees charged; those of a new one are also less what
    * prioritising added to the first charge, which is the one with the least hash.
    */
  ghost predicate FeesPatched(pool: Pool, base: int, fees: int, charge: set<nat>, cached: bool) {
    if cached || charge == {} then fees == base - Sum(FeeOf(pool), charge)
    else fees == base - Sum(FeeOf(pool), charge) - DeltaOf(pool)(LeastOf(charge))
  }

  ghost function LeastOf(s: set<nat>): (least: nat)
    requires s != {}
    ensures IsLeast(s, least)
  {
    SomeLeast(s);
    var least :| least in s && IsLeast(s, least);
    least
  }

  predicate IsLeast(s: set<nat>, least: nat) {
    least in s && forall x :: x in s ==> least <= x
  }

  lemma {:induction false} SomeLeast(s: set<nat>)
    requires s != {}
    ensures exists least :: least in s && IsLeast(s, least)
    decreases |s|
  {
    var x :| x in s;
    if s == {x} {
      assert IsLeast(s, x);
    } else {
      SomeLeast(s - {x});
      var y :| y in s - {x} && IsLeast(s - {x}, y);
      assert forall z :: z in s ==> z == x || z in s - {x};
      assert IsLeast(s, if x < y then x else y);
    }
  }

  lemma FeesStep(pool: Pool, base: int, fees: int, charge: set<nat>, cached: bool, it: nat)
    requires it in pool && (forall x :: x in charge ==> x < it) && FeesPatched(pool, base, fees, charge, cached)
    ensures var fee := if cached || charge != {} then pool[it].fee else pool[it].modifiedFee;
            FeesPatched(pool, base, fees - fee, charge + {it}, cached)
  {
    hide Sum;
    SumEmpty(FeeOf(pool));
    SumAdd(FeeOf(pool), charge, it);
    assert LeastOf(charge + {it}) == if charge == {} then it else LeastOf(charge) by { LeastFirst(charge, it); }
  }

  lemma LeastFirst(charge: set<nat>, it: nat)
    requires forall x :: x in charge ==> x < it
    ensures LeastOf(charge + {it}) == if charge == {} then it else LeastOf(charge)
  {
    var least := LeastOf(charge + {it});
    assert it in charge + {it};
    if charge != {} { assert LeastOf(charge) in charge + {it}; }
  }

  /** The cached fees of a package have lost the modified fees of what was charged exactly when prioritising added
    * nothing in all to what was charged, but for the first charge of a new entry.
    */
  lemma FeesExact(pool: Pool, base: int, fees: int, charge: set<nat>, cached: bool)
    requires FeesPatched(pool, base, fees, charge, cached)
    ensures cached ==> (fees == base - Sum(ModifiedFeeOf(pool), charge) <==> Sum(DeltaOf(pool), charge) == 0)
    ensures !cached && charge != {} ==>
              (fees == base - Sum(ModifiedFeeOf(pool), charge) <==>
               Sum(DeltaOf(pool), charge - {LeastOf(charge)}) == 0)
    ensures Plain(pool) ==> fees == base - Sum(FeeOf(pool), charge) == base - Sum(ModifiedFeeOf(pool), charge)
  {
    hide Sum;
    SumDelta(pool, charge);
    if Plain(pool) { SumZeros(DeltaOf(pool), charge); }
    if !cached && charge != {} { SumRemove(DeltaOf(pool), charge, LeastOf(charge)); }
  }

  /** Whichever of several transactions is charged first, the fees of a new entry are right: that is so exactly
    * when none of them has been prioritised.
    */
  lemma FeesExactInAnyOrder(pool: Pool, charge: set<nat>)
    requires |charge| >= 2
    ensures (forall first :: first in charge ==> Sum(DeltaOf(pool), charge - {first}) == 0) <==>
            (forall x :: x in charge ==> DeltaOf(pool)(x) == 0)
  {
    hide Sum;
    var w, total := DeltaOf(pool), Sum(DeltaOf(pool), charge);
    forall x | x in charge ensures total == w(x) + Sum(w, charge - {x}) { SumRemove(w, charge, x); }
    if forall first :: first in charge ==> Sum(w, charge - {first}) == 0 {
      SumConstant(w, charge, total);
      assert total == |charge| * total;
      assert total == 0;
    }
    if forall x :: x in charge ==> w(x) == 0 {
      forall first | first in charge ensures Sum(w, charge - {first}) == 0 { SumZeros(w, charge - {first}); }
    }
  }

  /** What is charged once the transactions of `done`, out of `added`, have been dealt with. */
  ghost function Charge(pool: Pool, added: set<nat>, done: set<nat>, d: nat): set<nat>
    requires d in pool
  {
    if d in added then {} else pool[d].ancestors * done
  }

  ghost function Charges(pool: Pool, added: set<nat>, done: set<nat>): map<nat, set<nat>> {
    map d | d in pool :: Charge(pool, added, done, d)
  }

  lemma ChargeNothing(pool: Pool, before: map<nat, Modified>, added: set<nat>)
    requires before.Keys <= pool.Keys
    ensures Patched(pool, before, before, Charges(pool, added, {}))
  {
    var none := Charges(pool, added, {});
    forall d | d in pool ensures PatchedAt(pool, before, before, none[d], d) {
      FeesStart(pool, Base(pool, before, d).fees);
    }
  }

  /** One descendant of one included transaction: insert it into the modified set, or update it there.
    * A new entry is charged the modified fee, an old one the plain fee, as in the source. */
  function ChargeOne(pool: Pool, modified: map<nat, Modified>, it: nat, d: nat): map<nat, Modified>
    requires it in pool && d in pool
  {
    var base := Base(pool, modified, d);
    var fee := if d in modified then pool[it].fee else pool[it].modifiedFee;
    modified[d := Modified(base.size - pool[it].size, base.fees - fee, base.sigOps - pool[it].sigOps)]
  }

  lemma ChargeStep(pool: Pool, before: map<nat, Modified>, after: map<nat, Modified>, charged: map<nat, set<nat>>,
                   it: nat, d: nat)
    requires Patched(pool, before, after, charged) && it in pool && d in pool
    requires forall x :: x in charged[d] ==> x < it
    ensures Patched(pool, before, ChargeOne(pool, after, it, d), charged[d := charged[d] + {it}])
  {
    hide PatchedAt;
    var after', charged' := ChargeOne(pool, after, it, d), charged[d := charged[d] + {it}];
    forall e | e in pool ensures PatchedAt(pool, before, after', charged'[e], e) {
      ChargeAt(pool, before, after, charged[e], it, d, e);
    }
  }

  lemma ChargeAt(pool: Pool, before: map<nat, Modified>, after: map<nat, Modified>, charge: set<nat>, it: nat, d: nat,
                 e: nat)
    requires it in pool && d in pool && e in pool && PatchedAt(pool, before, after, charge, e)
    requires e == d ==> forall x :: x in charge ==> x < it
    ensures PatchedAt(pool, before, ChargeOne(pool, after, it, d), if e == d then charge + {it} else charge, e)
  {
    hide Sum, FeesPatched;
    if e == d {
      SumEmpty(SizeOf(pool));
      SumEmpty(SigOpsOf(pool));
      SumAdd(SizeOf(pool), charge, it);
      SumAdd(SigOpsOf(pool), charge, it);
      FeesStart(pool, Base(pool, before, e).fees);
      FeesStep(pool, Base(pool, before, e).fees, Base(pool, after, e).fees, charge, e in before, it);
    }
  }

  lemma FeesStart(pool: Pool, base: int)
    ensures FeesPatched(pool, base, base, {}, false) && FeesPatched(pool, base, base, {}, true)
  {
    SumEmpty(FeeOf(pool));
  }

  /** UpdatePackagesForAdded: charge every descendant of an added transaction, unless it was added too. The added
    * transactions are taken in the order of their hashes.
    */
  method UpdatePackagesForAdded(pool: Pool, alreadyAdded: set<nat>, before: map<nat, Modified>)
    returns (mapModifiedTx: map<nat, Modified>)
    requires alreadyAdded <= pool.Keys && before.Keys <= pool.Keys
    ensures Patched(pool, before, mapModifiedTx, Charges(pool, alreadyAdded, alreadyAdded))
  {
    hide Patched, Charges;
    mapModifiedTx := before;
    ChargeNothing(pool, before, alreadyAdded);
    assert alreadyAdded - alreadyAdded == {};
    var todo := alreadyAdded;
    while todo != {}
      invariant todo <= alreadyAdded && forall x, y :: x in alreadyAdded - todo && y in todo ==> x < y
      invariant Patched(pool, before, mapModifiedTx, Charges(pool, alreadyAdded, alreadyAdded - todo))
      decreases |todo|
    {
      SomeLeast(todo);
      var it :| it in todo && IsLeast(todo, it);
      mapModifiedTx := UpdateDescendants(pool, alreadyAdded, alreadyAdded - todo, it, before, mapModifiedTx);
      assert alreadyAdded - todo + {it} == alreadyAdded - (todo - {it});
      todo := todo - {it};
    }
    assert alreadyAdded - todo == alreadyAdded;
  }

  /** The inner loop, over the descendants of one added transaction (which CalculateDescendants counts among them). */
  method UpdateDescendants(pool: Pool, alreadyAdded: set<nat>, ghost done: set<nat>, it: nat,
                           ghost before: map<nat, Modified>, modified: map<nat, Modified>)
    returns (mapModifiedTx: map<nat, Modified>)
    requires it in alreadyAdded && alreadyAdded <= pool.Keys && forall x :: x in done ==> x < it
    requires Patched(pool, before, modified, Charges(pool, alreadyAdded, done))
    ensures Patched(pool, before, mapModifiedTx, Charges(pool, alreadyAdded, done + {it}))
  {
    hide Patched, Sum, ChargeOne, Charges, ChargedBut;
    mapModifiedTx := modified;
    ghost var charged := Charges(pool, alreadyAdded, done);
    var descendants := (set d | d in pool && it in pool[d].ancestors) + {it};
    ChargedButAll(pool, alreadyAdded, done, it, descendants);
    while descendants != {}
      invariant forall d :: d in descendants ==> d in pool && (d == it || it in pool[d].ancestors)
      invariant Patched(pool, before, mapModifiedTx, charged)
      invariant ChargedBut(pool, alreadyAdded, done, it, descendants, charged)
      decreases |descendants|
    {
      var desc :| desc in descendants;
      ChargedButOne(pool, alreadyAdded, done, it, descendants, charged, desc);
      descendants := descendants - {desc};
      if desc in alreadyAdded {
        continue;
      }
      ChargeStep(pool, before, mapModifiedTx, charged, it, desc);
      mapModifiedTx := ChargeOne(pool, mapModifiedTx, it, desc);
      charged := charged[desc := charged[desc] + {it}];
    }
    ChargedButNone(pool, alreadyAdded, done, it, charged);
  }

  /** `it` has been charged to everything except the descendants that are left. */
  ghost predicate ChargedBut(pool: Pool, added: set<nat>, done: set<nat>, it: nat, left: set<nat>,
                             charged: map<nat, set<nat>>) {
    && charged.Keys == pool.Keys
    && forall d :: d in pool ==>
         charged[d] == Charge(pool, added, if it in pool[d].ancestors && d in left then done else done + {it}, d)
  }

  lemma ChargedButAll(pool: Pool, added: set<nat>, done: set<nat>, it: nat, left: set<nat>)
    requires forall d :: d in pool && it in pool[d].ancestors ==> d in left
    ensures ChargedBut(pool, added, done, it, left, Charges(pool, added, done))
  {
    forall d | d in pool && it !in pool[d].ancestors
      ensures Charge(pool, added, done + {it}, d) == Charge(pool, added, done, d)
    {}
  }

  lemma ChargedButOne(pool: Pool, added: set<nat>, done: set<nat>, it: nat, left: set<nat>, charged: map<nat, set<nat>>,
                      desc: nat)
    requires ChargedBut(pool, added, done, it, left, charged) && (forall x :: x in done ==> x < it) && it in added
    requires desc in left && desc in pool && (desc == it || it in pool[desc].ancestors)
    ensures desc in charged
    ensures desc in added ==> ChargedBut(pool, added, done, it, left - {desc}, charged)
    ensures desc !in added ==>
              && (forall x :: x in charged[desc] ==> x < it)
              && ChargedBut(pool, added, done, it, left - {desc}, charged[desc := charged[desc] + {it}])
  {
    if desc !in added {
      assert Charge(pool, added, done + {it}, desc) == Charge(pool, added, done, desc) + {it};
    }
  }

  lemma ChargedButNone(pool: Pool, added: set<nat>, done: set<nat>, it: nat, charged: map<nat, set<nat>>)
    requires ChargedBut(pool, added, done, it, {}, charged)
    ensures charged == Charges(pool, added, done + {it})
  {
  }

  // ----- The totals stay good -----

  /** What remains of d's family when the transactions of s join the block. */
  lemma RemainingShrinks(pool: Pool, inBlock: set<nat>, s: set<nat>, d: nat, w: nat -> int)
    requires d in pool && d !in s && s !! inBlock
    ensures Sum(w, Remaining(pool, inBlock + s, d)) ==
              Sum(w, Remaining(pool, inBlock, d)) - Sum(w, pool[d].ancestors * s)
  {
    var r, c := Remaining(pool, inBlock, d), pool[d].ancestors * s;
    assert c <= r;
    assert Remaining(pool, inBlock + s, d) == r - c;
    SumSplit(w, r, c);
  }

  lemma FullFamily(pool: Pool, inBlock: set<nat>, d: nat)
    requires Totals(pool) && d in pool && d !in inBlock
    ensures NotBelow(pool, inBlock, d, Base(pool, map[], d))
    ensures pool[d].ancestors !! inBlock ==> Exact(pool, inBlock, d, Base(pool, map[], d))
  {
    hide Sum;
    var f := Family(pool, d);
    SumSplit(SizeOf(pool), f, f * inBlock);
    SumSplit(SigOpsOf(pool), f, f * inBlock);
    SumNotNegative(SizeOf(pool), f * inBlock);
    SumNotNegative(SigOpsOf(pool), f * inBlock);
    assert f - f * inBlock == Remaining(pool, inBlock, d);
    if pool[d].ancestors !! inBlock {
      assert Remaining(pool, inBlock, d) == f;
      assert pool[d].ancestors * inBlock == {};
    }
  }

  /** The totals that charging starts from are already good for the old block. */
  lemma BaseGood(pool: Pool, inBlock: set<nat>, failed: set<nat>, modified: map<nat, Modified>, d: nat)
    requires Totals(pool) && Tracks(pool, inBlock, failed, modified) && d in pool && d !in inBlock
    ensures NotBelow(pool, inBlock, d, Base(pool, modified, d))
    ensures d !in failed ==> Exact(pool, inBlock, d, Base(pool, modified, d))
  {
    hide Totals;
    if d !in modified { FullFamily(pool, inBlock, d); }
  }

  /** After the package s joined the block and its descendants were charged, the totals are good for the new block. */
  lemma TracksUpdate(pool: Pool, inBlock: set<nat>, s: set<nat>, failed: set<nat>,
                     before: map<nat, Modified>, after: map<nat, Modified>)
    requires WellFormed(pool) && s !! inBlock
    requires AncestorClosed(pool, inBlock) && AncestorClosed(pool, inBlock + s)
    requires Tracks(pool, inBlock, failed, before)
    requires Patched(pool, before - s, after, Charges(pool, s, s))
    ensures Tracks(pool, inBlock + s, failed, after)
  {
    hide WellFormed, Sum, PatchedAt, NotBelow, Exact;
    var charged := Charges(pool, s, s);
    forall d | d in pool && d !in inBlock + s
      ensures d in after ==> NotBelow(pool, inBlock + s, d, after[d])
      ensures d in after && d !in failed ==> Exact(pool, inBlock + s, d, after[d])
      ensures d !in after && d !in failed ==> pool[d].ancestors !! inBlock + s
    {
      TracksUpdateAt(pool, inBlock, s, failed, before, after, charged[d], d);
    }
    forall d | d in after ensures d !in inBlock + s && pool[d].ancestors * (inBlock + s) != {} {
      StaysOut(pool, inBlock, s, before, after, charged[d], d);
    }
  }

  /** Nothing in the block is in the modified set, and everything in it has an ancestor in the block. */
  lemma StaysOut(pool: Pool, inBlock: set<nat>, s: set<nat>,
                 before: map<nat, Modified>, after: map<nat, Modified>, charge: set<nat>, d: nat)
    requires AncestorClosed(pool, inBlock) && s !! inBlock
    requires forall e :: e in before ==> e in pool && e !in inBlock && pool[e].ancestors * inBlock != {}
    requires d in pool && d in after && PatchedAt(pool, before - s, after, charge, d) && charge == Charge(pool, s, s, d)
    ensures d !in inBlock + s && pool[d].ancestors * (inBlock + s) != {}
  {
    var a :| a in if d in before - s then pool[d].ancestors * inBlock else charge;
    assert a in pool[d].ancestors * (inBlock + s);
  }

  /** Charging adds the charged ancestors to those gone. */
  lemma FeesOffUpdate(pool: Pool, gone: set<nat>, charge: set<nat>, truth: int, base: int, fees: int, cached: bool)
    requires gone !! charge && FeesOff(pool, gone, truth, base) && FeesPatched(pool, base, fees, charge, cached)
    requires if cached then gone != {} else gone == {} && charge != {}
    ensures FeesOff(pool, gone + charge, truth - Sum(ModifiedFeeOf(pool), charge), fees)
  {
    hide Sum;
    var w := DeltaOf(pool);
    SumDelta(pool, charge);
    if cached {
      var first :| first in gone && base == truth + Sum(w, gone - {first});
      SumUnion(w, gone - {first}, charge);
      assert gone - {first} + charge == gone + charge - {first};
      assert first in gone + charge;
    } else {
      var first := LeastOf(charge);
      SumRemove(w, charge, first);
      assert gone + charge == charge;
      assert first in gone + charge;
    }
  }

  /** Where nothing has been prioritised, the fees are right. */
  lemma FeesPlain(pool: Pool, gone: set<nat>, truth: int, fees: int)
    requires FeesOff(pool, gone, truth, fees) && forall x :: x in gone ==> DeltaOf(pool)(x) == 0
    ensures fees == truth
  {
    hide Sum;
    if gone != {} {
      var first :| first in gone && fees == truth + Sum(DeltaOf(pool), gone - {first});
      SumZeros(DeltaOf(pool), gone - {first});
    }
  }

  lemma TracksUpdateAt(pool: Pool, inBlock: set<nat>, s: set<nat>, failed: set<nat>,
                       before: map<nat, Modified>, after: map<nat, Modified>, charge: set<nat>, d: nat)
    requires WellFormed(pool) && s !! inBlock && Tracks(pool, inBlock, failed, before)
    requires d in pool && d !in inBlock && d !in s
    requires PatchedAt(pool, before - s, after, charge, d) && charge == pool[d].ancestors * s
    ensures d in after ==> NotBelow(pool, inBlock + s, d, after[d])
    ensures d in after && d !in failed ==> Exact(pool, inBlock + s, d, after[d])
    ensures d !in after && d !in failed ==> pool[d].ancestors !! inBlock + s
  {
    hide Closure, Totals, Sum, FeesOff, FeesPatched;
    BaseGood(pool, inBlock, failed, before, d);
    RemainingShrinks(pool, inBlock, s, d, SizeOf(pool));
    RemainingShrinks(pool, inBlock, s, d, SigOpsOf(pool));
    RemainingShrinks(pool, inBlock, s, d, ModifiedFeeOf(pool));
    var gone := pool[d].ancestors * inBlock;
    assert pool[d].ancestors * (inBlock + s) == gone + charge;
    if d in after && d !in failed {
      FeesOffUpdate(pool, gone, charge, Sum(ModifiedFeeOf(pool), Remaining(pool, inBlock, d)),
                    Base(pool, before, d).fees, after[d].fees, d in before);
    }
    if d !in after && d !in failed {
      assert charge == {} && d !in before && pool[d].ancestors !! inBlock;
      forall a | a in pool[d].ancestors ensures a !in inBlock + s { assert a in s ==> a in charge; }
    }
  }

  /** With an empty block there is nothing to track. */
  lemma TracksNothing(pool: Pool, failed: set<nat>)
    ensures Tracks(pool, {}, failed, map[])
  {
  }

  /** Dropping a failed entry keeps the totals good. */
  lemma TracksFailed(pool: Pool, inBlock: set<nat>, failed: set<nat>, modified: map<nat, Modified>, d: nat)
    requires Tracks(pool, inBlock, failed, modified)
    ensures Tracks(pool, inBlock, failed + {d}, modified - {d})
  {
  }

  // ----- A pool with a prioritised transaction -----

  /** A chain of three transactions with a fee of 4 each, the second one prioritised to 11. */
  const CHAIN: Pool :=
    map[1 := Entry(1, 1, 4, 4, {}, {}, 1, 1, 1, 4),
        2 := Entry(1, 1, 4, 11, {1}, {1}, 2, 2, 2, 15),
        3 := Entry(1, 1, 4, 4, {2}, {1, 2}, 3, 3, 3, 19)]

  /** With the first two in the block the third has fees of 4, and its cached fees are 11. */
  lemma ChainDrifts(after: map<nat, Modified>)
    requires Patched(CHAIN, map[], after, Charges(CHAIN, {1, 2}, {1, 2}))
    ensures WellFormed(CHAIN) && 3 in after && after[3].fees == 11
    ensures Sum(ModifiedFeeOf(CHAIN), Remaining(CHAIN, {1, 2}, 3)) == 4
  {
    hide Sum, WellFormed, Totals, Closure;
    ChainClosure();
    ChainTotals();
    assert WellFormed(CHAIN) by { BothParts(CHAIN); }
    var charge := Charges(CHAIN, {1, 2}, {1, 2})[3];
    assert charge == {1, 2};
    assert PatchedAt(CHAIN, map[], after, charge, 3);
    assert LeastOf(charge) == 1 by { assert 1 in charge; }
    SumOf(FeeOf(CHAIN), 1, 2, 3);
    SumOf(ModifiedFeeOf(CHAIN), 3, 2, 1);
    assert Remaining(CHAIN, {1, 2}, 3) == {3};
  }

  lemma BothParts(pool: Pool)
    requires Closure(pool) && Totals(pool)
    ensures WellFormed(pool)
  {
  }

  lemma ChainClosure()
    ensures Closure(CHAIN)
  {
    assert Through(CHAIN, 3, 1) by { assert 2 in CHAIN[3].parents; }
  }

  lemma ChainTotals()
    ensures Totals(CHAIN)
  {
    hide Sum, Family;
    ChainFamilies();
    SumOf(SizeOf(CHAIN), 1, 2, 3);
    SumOf(SigOpsOf(CHAIN), 1, 2, 3);
    SumOf(ModifiedFeeOf(CHAIN), 1, 2, 3);
  }

  lemma ChainFamilies()
    ensures Family(CHAIN, 1) == {1} && Family(CHAIN, 2) == {1, 2} && Family(CHAIN, 3) == {1, 2, 3}
    ensures |CHAIN[1].ancestors| == 0 && |CHAIN[2].ancestors| == 1 && |CHAIN[3].ancestors| == 2
  {
    assert |{1}| == 1 && |{1, 2}| == 2;
  }

  lemma SumOf(w: nat -> int, x: nat, y: nat, z: nat)
    requires x != y && y != z && x != z
    ensures Sum(w, {x}) == w(x) && Sum(w, {x, y}) == w(x) + w(y) && Sum(w, {x, y, z}) == w(x) + w(y) + w(z)
  {
    hide Sum;
    SumEmpty(w);
    SumAdd(w, {}, x);
    assert {} + {x} == {x} && {x} + {y} == {x, y} && {x, y} + {z} == {x, y, z};
    SumAdd(w, {x}, y);
    SumAdd(w, {x, y}, z);
  }
}
