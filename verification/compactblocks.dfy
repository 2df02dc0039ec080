/** Compact blocks (src/blockencodings.h, src/blockencodings.cpp:20-30, 50-162; BIP 152): a block as short
  * ids and prefilled transactions, and its reconstruction from a memory pool.
  */
module CompactBlocks {
  import opened Options

  type Tx(==, !new)

  datatype Status = Ok | Invalid | Failed | CheckBlockFailed

  /** A transaction with its offset since the previous prefilled one; a null transaction is no transaction. */
  datatype Prefilled = Prefilled(index: nat, tx: Option<Tx>)

  /** CBlockHeaderAndShortTxIDs, with its short-id function. */
  datatype Compact = Compact(headerIsNull: bool, shorttxids: seq<nat>, prefilledtxn: seq<Prefilled>)

  type Available = seq<Option<Tx>>

  /** Positions and offsets are kept in 16 bits. */
  const POSITIONS := 65536

  // ----- Building -----

  /** The compact form of a block: the first transaction in full, short ids for the others. */
  method MakeCompact(vtx: seq<Tx>, shortId: Tx -> nat) returns (c: Compact)
    requires |vtx| >= 1
    ensures c == CompactOf(vtx, shortId)
  {
    var shorttxids: seq<nat> := seq(|vtx| - 1, _ => 0);
    for i := 1 to |vtx|
      invariant |shorttxids| == |vtx| - 1
      invariant forall k :: 0 <= k < i - 1 ==> shorttxids[k] == shortId(vtx[k + 1])
    {
      shorttxids := shorttxids[i - 1 := shortId(vtx[i])];
    }
    c := Compact(false, shorttxids, [Prefilled(0, Some(vtx[0]))]);
  }

  ghost function CompactOf(vtx: seq<Tx>, shortId: Tx -> nat): Compact
    requires |vtx| >= 1
  {
    Compact(false, seq(|vtx| - 1, i requires 0 <= i < |vtx| - 1 => shortId(vtx[i + 1])), [Prefilled(0, Some(vtx[0]))])
  }

  // ----- Open positions -----

  /** The positions below n that hold nothing, in order. */
  ghost function OpenUpTo(a: Available, n: nat): seq<nat>
    requires n <= |a|
  {
    if n == 0 then [] else OpenUpTo(a, n - 1) + if a[n - 1].None? then [n - 1] else []
  }

  function Filled(a: Available): nat {
    if a == [] then 0 else Filled(a[..|a| - 1]) + if a[|a| - 1].Some? then 1 else 0
  }

  lemma {:induction false} FilledUpdate(a: Available, j: nat, x: Option<Tx>)
    requires j < |a|
    ensures Filled(a[j := x]) == Filled(a) + (if x.Some? then 1 else 0) - (if a[j].Some? then 1 else 0)
    decreases |a|
  {
    var n := |a| - 1;
    if j < n {
      FilledUpdate(a[..n], j, x);
      assert a[j := x][..n] == a[..n][j := x];
    } else {
      assert a[j := x][..n] == a[..n];
    }
  }

  lemma {:induction false} OpenCount(a: Available, n: nat)
    requires n <= |a|
    ensures |OpenUpTo(a, n)| + Filled(a[..n]) == n
    ensures forall i :: 0 <= i < |OpenUpTo(a, n)| ==> OpenUpTo(a, n)[i] < n && a[OpenUpTo(a, n)[i]].None?
  {
    if n > 0 {
      OpenCount(a, n - 1);
      assert a[..n][..n - 1] == a[..n - 1];
    }
  }

  /** After the i-th open position, everything before the next one is taken. */
  lemma {:induction false} NextOpen(a: Available, n: nat, i: nat)
    requires n <= |a| && i < |OpenUpTo(a, n)|
    ensures var open := OpenUpTo(a, n);
            var from := if i == 0 then 0 else open[i - 1] + 1;
            from <= open[i] && forall j :: from <= j < open[i] ==> j < |a| && a[j].Some?
  {
    OpenCount(a, n);
    if n > 0 {
      var before := OpenUpTo(a, n - 1);
      if i < |before| {
        NextOpen(a, n - 1, i);
      } else {
        AllTaken(a, n - 1);
        OpenCount(a, n - 1);
      }
    }
  }

  /** The i-th open position comes after i open ones and no more taken ones than there are. */
  lemma {:induction false} OpenOffset(a: Available, n: nat, i: nat)
    requires n <= |a| && i < |OpenUpTo(a, n)|
    ensures OpenUpTo(a, n)[i] <= i + Filled(a[..n])
  {
    if n > 0 {
      OpenCount(a, n - 1);
      assert a[..n][..n - 1] == a[..n - 1];
      if i < |OpenUpTo(a, n - 1)| { OpenOffset(a, n - 1, i); }
    }
  }

  /** An open position is found among the open ones. */
  lemma {:induction false} OpenMember(a: Available, n: nat, j: nat) returns (i: nat)
    requires j < n <= |a| && a[j].None?
    ensures i < |OpenUpTo(a, n)| && OpenUpTo(a, n)[i] == j
  {
    if j == n - 1 { i := |OpenUpTo(a, n - 1)|; } else { i := OpenMember(a, n - 1, j); }
  }

  /** After the last open position, everything is taken. */
  lemma {:induction false} AllTaken(a: Available, n: nat)
    requires n <= |a|
    ensures var open := OpenUpTo(a, n);
            forall j :: (if open == [] then 0 else open[|open| - 1] + 1) <= j < n ==> a[j].Some?
  {
    if n > 0 { AllTaken(a, n - 1); }
  }

  // ----- What a reconstruction knows -----

  /** Position j, the i-th open one, holds nothing or a pool transaction with the i-th short id. */
  ghost predicate Matches(a: Available, c: Compact, open: seq<nat>, pool: seq<Tx>, shortId: Tx -> nat) {
    && |open| == |c.shorttxids|
    && forall i :: 0 <= i < |open| ==> open[i] < |a| && MatchesAt(a[open[i]], c.shorttxids[i], pool, shortId)
  }

  ghost predicate MatchesAt(x: Option<Tx>, id: nat, pool: seq<Tx>, shortId: Tx -> nat) {
    x.Some? ==> x.value in pool && shortId(x.value) == id
  }

  /** Every short id leads to its open position. */
  ghost predicate Indexed(c: Compact, open: seq<nat>, m: map<nat, nat>) {
    && |open| == |c.shorttxids|
    && (forall i :: 0 <= i < |open| ==> c.shorttxids[i] in m && m[c.shorttxids[i]] == open[i])
    && (forall id :: id in m ==> id in c.shorttxids)
  }

  /** Every short id has an entry of its own, the low 16 bits of its open position. */
  ghost predicate Entered(c: Compact, open: seq<nat>, m: map<nat, nat>) {
    && |open| == |c.shorttxids|
    && (forall i :: 0 <= i < |open| ==> c.shorttxids[i] in m && m[c.shorttxids[i]] == open[i] % POSITIONS)
    && (forall id :: id in m ==> id in c.shorttxids)
  }

  /** The index is right exactly for blocks of at most 65536 transactions: beyond, position 65536 is always open. */
  lemma IndexExact(c: Compact, placed: Available, open: seq<nat>, m: map<nat, nat>)
    requires Placed(c, placed, |c.prefilledtxn|) && open == OpenUpTo(placed, |placed|) && Entered(c, open, m)
    ensures Indexed(c, open, m) <==> |c.shorttxids| + |c.prefilledtxn| <= POSITIONS
  {
    hide OpenUpTo, Filled;
    OpenCount(placed, |placed|);
    if |placed| > POSITIONS {
      var i := OpenMember(placed, |placed|, POSITIONS);
      assert m[c.shorttxids[i]] == 0 != open[i];
    } else {
      forall i | 0 <= i < |open| ensures m[c.shorttxids[i]] == open[i] { assert open[i] < |placed|; }
    }
  }

  // ----- Prefilled transactions -----

  /** The position of the i-th prefilled transaction, from the offsets. */
  ghost function Position(p: seq<Prefilled>, i: nat): int
    requires i < |p|
  {
    (if i == 0 then -1 else Position(p, i - 1)) + p[i].index + 1
  }

  /** Each is there, at a position that is not beyond what can be filled. */
  ghost predicate WellPrefilled(c: Compact, n: nat)
    requires n <= |c.prefilledtxn|
  {
    forall i :: 0 <= i < n ==> c.prefilledtxn[i].tx.Some? && Position(c.prefilledtxn, i) < POSITIONS
                               && Position(c.prefilledtxn, i) <= |c.shorttxids| + i
  }

  /** The first n prefilled transactions are in place and everything else is open. */
  ghost predicate Placed(c: Compact, a: Available, n: nat) {
    && |a| == |c.shorttxids| + |c.prefilledtxn| && n <= |c.prefilledtxn| && Filled(a) == n
    && (forall j :: POSITIONS <= j < |a| ==> a[j].None?)
    && forall i :: 0 <= i < n ==>
         0 <= Position(c.prefilledtxn, i) < |a| && a[Position(c.prefilledtxn, i)] == c.prefilledtxn[i].tx
  }

  lemma {:induction false} NothingFilled(a: Available)
    requires forall j :: 0 <= j < |a| ==> a[j].None?
    ensures Filled(a) == 0
  {
    if a != [] { NothingFilled(a[..|a| - 1]); }
  }

  /** Positions grow. */
  lemma {:induction false} PositionsGrow(p: seq<Prefilled>, i: nat, k: nat)
    requires i < k < |p|
    ensures Position(p, i) < Position(p, k)
    decreases k
  {
    if i < k - 1 { PositionsGrow(p, i, k - 1); }
  }

  lemma PlaceNone(c: Compact, a: Available)
    requires |a| == |c.shorttxids| + |c.prefilledtxn| && forall j :: 0 <= j < |a| ==> a[j].None?
    ensures Placed(c, a, 0) && WellPrefilled(c, 0)
  {
    NothingFilled(a);
  }

  lemma PlaceOne(c: Compact, a: Available, i: nat, last: int)
    requires i < |c.prefilledtxn| && Placed(c, a, i) && WellPrefilled(c, i + 1) && last == Position(c.prefilledtxn, i)
    requires forall j :: (if i == 0 then -1 else Position(c.prefilledtxn, i - 1)) < j < |a| ==> a[j].None?
    ensures 0 <= last < |a| && Placed(c, a[last := c.prefilledtxn[i].tx], i + 1)
  {
    hide Filled;
    NotNegative(c.prefilledtxn, i);
    FilledUpdate(a, last, c.prefilledtxn[i].tx);
    forall k | 0 <= k < i ensures Position(c.prefilledtxn, k) < last { PositionsGrow(c.prefilledtxn, k, i); }
  }

  lemma {:induction false} NotNegative(p: seq<Prefilled>, i: nat)
    requires i < |p|
    ensures Position(p, i) >= 0
  {
    if i > 0 { NotNegative(p, i - 1); }
  }

  /** The next prefilled transaction decides whether all so far are well placed; one that is not spoils the whole. */
  lemma PrefilledNext(c: Compact, i: nat)
    requires i < |c.prefilledtxn| && WellPrefilled(c, i)
    ensures var at := Position(c.prefilledtxn, i);
            var ok := c.prefilledtxn[i].tx.Some? && at < POSITIONS && at <= |c.shorttxids| + i;
            if ok then WellPrefilled(c, i + 1) else !WellPrefilled(c, |c.prefilledtxn|)
  {
  }

  lemma PlacedKept(c: Compact, placed: Available, a: Available)
    requires Placed(c, placed, |c.prefilledtxn|) && WellPrefilled(c, |c.prefilledtxn|) && |a| == |placed|
    requires forall j :: 0 <= j < |placed| && placed[j].Some? ==> a[j] == placed[j]
    ensures |a| == |c.shorttxids| + |c.prefilledtxn|
    ensures forall i :: 0 <= i < |c.prefilledtxn| ==>
              0 <= Position(c.prefilledtxn, i) < |a| && a[Position(c.prefilledtxn, i)] == c.prefilledtxn[i].tx
  {
    hide Filled;
    forall i | 0 <= i < |c.prefilledtxn|
      ensures 0 <= Position(c.prefilledtxn, i) < |a| && a[Position(c.prefilledtxn, i)] == c.prefilledtxn[i].tx
    {
      assert c.prefilledtxn[i].tx.Some?;
    }
  }

  /** With 65536 prefilled transactions every position a 16-bit offset can reach is taken. */
  lemma NoneOpen(c: Compact, a: Available, offset: nat)
    requires Placed(c, a, |c.prefilledtxn|) && WellPrefilled(c, |c.prefilledtxn|)
    requires |c.prefilledtxn| >= POSITIONS && offset < POSITIONS
    ensures offset < |a| && a[offset].Some?
  {
    hide Filled;
    var p := c.prefilledtxn;
    Apart(p, 0, offset);
    NotNegative(p, 0);
    Apart(p, offset, POSITIONS - 1);
    assert p[POSITIONS - 1].tx.Some? && p[offset].tx.Some?;
    assert Position(p, offset) == offset;
  }

  /** Such blocks exist: 65536 prefilled transactions with offset 0, and one short id. */
  lemma NoneOpenInput(tx: Tx, id: nat, c: Compact, a: Available)
    requires c == Compact(false, [id], seq(POSITIONS, _ => Prefilled(0, Some(tx))))
    requires a == seq(POSITIONS, _ => Some(tx)) + [None]
    ensures WellPrefilled(c, |c.prefilledtxn|) && Placed(c, a, |c.prefilledtxn|)
    ensures |c.prefilledtxn| >= POSITIONS && c.shorttxids != []
  {
    hide Filled;
    forall i | 0 <= i < POSITIONS ensures Position(c.prefilledtxn, i) == i { Adjacent(c.prefilledtxn, i); }
    assert a[..POSITIONS] == seq(POSITIONS, _ => Some(tx));
    AllFilled(a[..POSITIONS]);
    FilledLast(a);
  }

  lemma {:induction false} Adjacent(p: seq<Prefilled>, i: nat)
    requires i < |p| && forall j :: 0 <= j < |p| ==> p[j].index == 0
    ensures Position(p, i) == i
  {
    if i > 0 { Adjacent(p, i - 1); }
  }

  lemma {:induction false} AllFilled(a: Available)
    requires forall j :: 0 <= j < |a| ==> a[j].Some?
    ensures Filled(a) == |a|
    decreases |a|
  {
    if a != [] { AllFilled(a[..|a| - 1]); }
  }

  lemma FilledLast(a: Available)
    requires a != []
    ensures Filled(a) == Filled(a[..|a| - 1]) + if a[|a| - 1].Some? then 1 else 0
  {
  }

  lemma {:induction false} Apart(p: seq<Prefilled>, i: nat, k: nat)
    requires i <= k < |p|
    ensures Position(p, k) >= Position(p, i) + k - i
    decreases k
  {
    if i < k { Apart(p, i, k - 1); }
  }

  class PartiallyDownloadedBlock {
    const pool: seq<Tx>
    var headerIsNull: bool
    var txnAvailable: Available
    var prefilledCount: nat
    var mempoolCount: nat

    constructor (pool: seq<Tx>)
      ensures this.pool == pool && headerIsNull && txnAvailable == [] && mempoolCount == 0
    {
      this.pool := pool;
      headerIsNull, txnAvailable, prefilledCount, mempoolCount := true, [], 0, 0;
    }

    /** InitData. `maxCount` is the most transactions a block can hold; `crowded` stands for the test on hash buckets.
      */
    method InitData(c: Compact, shortId: Tx -> nat, maxCount: nat, crowded: nat -> bool)
      returns (status: Status, ghost open: seq<nat>, ghost seen: nat)
      requires headerIsNull && txnAvailable == [] && mempoolCount == 0
      requires |c.prefilledtxn| >= POSITIONS && WellPrefilled(c, |c.prefilledtxn|) ==> c.shorttxids == []
      modifies this
      ensures status == Invalid <==>
                (|| c.headerIsNull || !WellPrefilled(c, |c.prefilledtxn|)
                 || |c.shorttxids| + |c.prefilledtxn| == 0 || |c.shorttxids| + |c.prefilledtxn| > maxCount)
      ensures status == Ok ==> !headerIsNull && prefilledCount == |c.prefilledtxn|
      ensures status == Ok ==> |txnAvailable| == |c.shorttxids| + |c.prefilledtxn|
      ensures status == Ok && |c.shorttxids| + |c.prefilledtxn| <= POSITIONS ==>
                && (forall i :: 0 <= i < |c.prefilledtxn| ==>
                      && 0 <= Position(c.prefilledtxn, i) < |txnAvailable|
                      && txnAvailable[Position(c.prefilledtxn, i)] == c.prefilledtxn[i].tx)
                && Matches(txnAvailable, c, open, pool, shortId)
                && Searched(c, open, pool, shortId, txnAvailable, seen)
                && Filled(txnAvailable) == prefilledCount + mempoolCount
      ensures status == Ok ==> seen <= |pool| && (seen < |pool| ==> mempoolCount == |c.shorttxids|)
      ensures status == Ok ==> exists a :: Placed(c, a, |c.prefilledtxn|) && open == OpenUpTo(a, |a|)
      ensures status != CheckBlockFailed
      ensures status == Failed <==>
                && status != Invalid
                && (!Distinct(c.shorttxids) || exists i: nat :: i < |c.shorttxids| && crowded(i))
    {
      hide Distinct, WellPrefilled, Placed, Indexed, Entered, Matches, OpenUpTo, Filled, Searched;
      open, seen := [], 0;
      if c.headerIsNull || (c.shorttxids == [] && c.prefilledtxn == []) {
        return Invalid, open, seen;
      }
      if |c.shorttxids| + |c.prefilledtxn| > maxCount {
        return Invalid, open, seen;
      }
      headerIsNull := c.headerIsNull;
      var ok := PlacePrefilled(c);
      if !ok {
        return Invalid, open, seen;
      }
      prefilledCount := |c.prefilledtxn|;
      ghost var placed := txnAvailable;
      open := OpenUpTo(placed, |placed|);
      var full, shorttxids := IndexShortIds(c, crowded);
      if full {
        return Failed, open, seen;
      }
      if |shorttxids| != |c.shorttxids| {
        return Failed, open, seen;
      }
      seen := ScanPool(c, shortId, shorttxids, placed, open);
      if |placed| <= POSITIONS { PlacedKept(c, placed, txnAvailable); }
      status := Ok;
    }

    /** Put the prefilled transactions in their places. */
    method PlacePrefilled(c: Compact) returns (ok: bool)
      requires txnAvailable == []
      modifies this`txnAvailable
      ensures ok <==> WellPrefilled(c, |c.prefilledtxn|)
      ensures ok ==> Placed(c, txnAvailable, |c.prefilledtxn|)
      ensures |txnAvailable| == |c.shorttxids| + |c.prefilledtxn|
    {
      hide Placed, WellPrefilled;
      txnAvailable := seq(|c.shorttxids| + |c.prefilledtxn|, _ => None);
      PlaceNone(c, txnAvailable);
      var last: int := -1;
      for i := 0 to |c.prefilledtxn|
        invariant last == if i == 0 then -1 else Position(c.prefilledtxn, i - 1)
        invariant WellPrefilled(c, i) && Placed(c, txnAvailable, i)
        invariant |txnAvailable| == |c.shorttxids| + |c.prefilledtxn|
        invariant forall j :: last < j < |txnAvailable| ==> txnAvailable[j].None?
      {
        PrefilledNext(c, i);
        if c.prefilledtxn[i].tx.None? {
          return false;
        }
        last := last + c.prefilledtxn[i].index + 1;
        if last >= POSITIONS {
          return false;
        }
        if last > |c.shorttxids| + i {
          return false;
        }
        PlaceOne(c, txnAvailable, i, last);
        txnAvailable := txnAvailable[last := c.prefilledtxn[i].tx];
      }
      return true;
    }

    /** Map every short id to the next open position; offset and position are 16-bit numbers. */
    method IndexShortIds(c: Compact, crowded: nat -> bool) returns (full: bool, shorttxids: map<nat, nat>)
      requires Placed(c, txnAvailable, |c.prefilledtxn|) && (|c.prefilledtxn| >= POSITIONS ==> c.shorttxids == [])
      ensures |OpenUpTo(txnAvailable, |txnAvailable|)| == |c.shorttxids|
      ensures !full && |shorttxids| == |c.shorttxids| ==>
                Entered(c, OpenUpTo(txnAvailable, |txnAvailable|), shorttxids)
      ensures full <==> exists i: nat :: i < |c.shorttxids| && crowded(i)
      ensures !full ==> (|shorttxids| == |c.shorttxids| <==> Distinct(c.shorttxids))
    {
      hide OpenUpTo, Filled, EnteredUpTo, Distinct;
      var n := |txnAvailable|;
      ghost var open := OpenUpTo(txnAvailable, n);
      OpenCount(txnAvailable, n);
      assert txnAvailable[..n] == txnAvailable;
      shorttxids := map[];
      var indexOffset := 0;
      EnterNone(c, open);
      for i := 0 to |c.shorttxids|
        invariant 0 <= indexOffset < POSITIONS && i + indexOffset == if i == 0 then 0 else open[i - 1] + 1
        invariant EnteredUpTo(c, open, shorttxids, i)
        invariant forall j: nat :: j < i ==> !crowded(j)
      {
        indexOffset := SkipTaken(i, indexOffset, open);
        EnterOne(c, open, shorttxids, i);
        shorttxids := shorttxids[c.shorttxids[i] := (i + indexOffset) % POSITIONS];
        if crowded(i) {
          return true, shorttxids;
        }
      }
      full := false;
      EnterAll(c, open, shorttxids);
    }

    /** Advance the offset to the next open position. */
    method SkipTaken(i: nat, offset: nat, ghost open: seq<nat>) returns (indexOffset: nat)
      requires open == OpenUpTo(txnAvailable, |txnAvailable|) && Filled(txnAvailable) < POSITIONS && i < |open|
      requires i + offset == if i == 0 then 0 else open[i - 1] + 1
      ensures indexOffset < POSITIONS && i + indexOffset == open[i] < |txnAvailable|
    {
      hide OpenUpTo, Filled;
      OpenCount(txnAvailable, |txnAvailable|);
      NextOpen(txnAvailable, |txnAvailable|, i);
      OpenOffset(txnAvailable, |txnAvailable|, i);
      assert txnAvailable[..|txnAvailable|] == txnAvailable;
      indexOffset := offset;
      while txnAvailable[i + indexOffset].Some?
        invariant 0 <= offset <= indexOffset < POSITIONS && i + indexOffset <= open[i]
        decreases open[i] - i - indexOffset
      {
        indexOffset := (indexOffset + 1) % POSITIONS;
      }
    }

    /** Look for the short ids in the memory pool; two matches for one id leave it unknown. */
    method ScanPool(c: Compact, shortId: Tx -> nat, shorttxids: map<nat, nat>, ghost placed: Available,
                    ghost open: seq<nat>)
      returns (ghost seen: nat)
      requires txnAvailable == placed && Placed(c, placed, |c.prefilledtxn|) && open == OpenUpTo(placed, |placed|)
      requires Entered(c, open, shorttxids) && mempoolCount == 0 && |shorttxids| == |c.shorttxids|
      modifies this`txnAvailable, this`mempoolCount
      ensures |txnAvailable| == |placed|
      ensures |placed| <= POSITIONS ==> Scanned(c, open, pool, shortId, placed, txnAvailable, mempoolCount)
      ensures |placed| <= POSITIONS ==> Searched(c, open, pool, shortId, txnAvailable, seen)
      ensures seen <= |pool| && (seen < |pool| ==> mempoolCount == |c.shorttxids|)
    {
      hide Filled, OpenUpTo, Placed, Entered, Indexed, Scanned, Claimed, Searched, Noticed;
      OpenCount(placed, |placed|);
      IndexExact(c, placed, open, shorttxids);
      assert |placed| == |c.shorttxids| + |c.prefilledtxn| by { PlacedSize(c, placed); }
      var haveTxn := seq(|txnAvailable|, _ => false);
      NoneClaimed(txnAvailable, haveTxn);
      ScanNone(c, open, pool, shortId, placed);
      SearchNone(c, open, pool, shortId, placed, haveTxn);
      seen := 0;
      for i := 0 to |pool|
        invariant seen == i
        invariant |placed| <= POSITIONS ==> Searched(c, open, pool, shortId, txnAvailable, i)
        invariant |placed| <= POSITIONS ==> Noticed(c, open, pool, shortId, haveTxn, i)
        invariant |haveTxn| == |txnAvailable| == |placed| && mempoolCount == Claimed(txnAvailable, haveTxn)
        invariant |placed| <= POSITIONS ==> Scanned(c, open, pool, shortId, placed, txnAvailable, mempoolCount)
        invariant |placed| <= POSITIONS ==>
                  forall j :: 0 <= j < |placed| && placed[j].None? && txnAvailable[j].Some? ==> haveTxn[j]
      {
        var id := shortId(pool[i]);
        if |placed| <= POSITIONS {
          SearchOne(c, open, shorttxids, pool, shortId, placed, txnAvailable, haveTxn, i);
        }
        seen := i + 1;
        if id in shorttxids {
          var at := shorttxids[id];
          EntryInRange(c, placed, open, shorttxids, id);
          if |placed| <= POSITIONS {
            ScanOne(c, open, shorttxids, pool, shortId, placed, txnAvailable, mempoolCount, i);
          }
          assert haveTxn[at] ==> haveTxn[at := true] == haveTxn;
          assert txnAvailable[at].None? ==> txnAvailable[at := None] == txnAvailable;
          if !haveTxn[at] {
            ClaimedUpdate(txnAvailable, haveTxn, at, Some(pool[i]), true);
            txnAvailable := txnAvailable[at := Some(pool[i])];
            haveTxn := haveTxn[at := true];
            mempoolCount := mempoolCount + 1;
          } else if txnAvailable[at].Some? {
            ClaimedUpdate(txnAvailable, haveTxn, at, None, true);
            txnAvailable := txnAvailable[at := None];
            mempoolCount := mempoolCount - 1;
          }
        }
        if mempoolCount == |shorttxids| {
          break;
        }
      }
    }

    /** FillBlock: put the missing transactions into the gaps, if they are exactly as many. */
    method FillBlock(vtxMissing: seq<Tx>, check: seq<Tx> -> Status) returns (status: Status, vtx: seq<Tx>)
      requires !headerIsNull
      ensures |vtxMissing| != |OpenUpTo(txnAvailable, |txnAvailable|)| ==> status == Invalid
      ensures |vtxMissing| == |OpenUpTo(txnAvailable, |txnAvailable|)| ==>
                vtx == Completed(txnAvailable, vtxMissing, |txnAvailable|) && status == check(vtx)
    {
      vtx := [];
      var offset := 0;
      for i := 0 to |txnAvailable|
        invariant offset == |OpenUpTo(txnAvailable, i)| <= |vtxMissing|
        invariant vtx == Completed(txnAvailable, vtxMissing, i)
      {
        if txnAvailable[i].None? {
          if |vtxMissing| <= offset {
            OpenGrows(txnAvailable, i + 1, |txnAvailable|);
            return Invalid, vtx;
          }
          vtx := vtx + [vtxMissing[offset]];
          offset := offset + 1;
        } else {
          vtx := vtx + [txnAvailable[i].value];
        }
      }
      if |vtxMissing| != offset {
        return Invalid, vtx;
      }
      status := check(vtx);
    }
  }

  /** The first n short ids have been entered, each with its open position unless two are the same. */
  ghost predicate EnteredUpTo(c: Compact, open: seq<nat>, m: map<nat, nat>, n: nat) {
    && n <= |c.shorttxids| == |open| && |m| <= n
    && (|m| == n ==> forall k :: 0 <= k < n ==> c.shorttxids[k] in m && m[c.shorttxids[k]] == open[k] % POSITIONS)
    && (|m| == n <==> Distinct(c.shorttxids[..n]))
    && (forall id :: id in m <==> id in c.shorttxids[..n])
  }

  /** No number stands twice. */
  ghost predicate Distinct(s: seq<nat>) {
    forall i, k :: 0 <= i < k < |s| ==> s[i] != s[k]
  }

  lemma EnterNone(c: Compact, open: seq<nat>)
    requires |open| == |c.shorttxids|
    ensures EnteredUpTo(c, open, map[], 0)
  {
  }

  lemma EnterOne(c: Compact, open: seq<nat>, m: map<nat, nat>, n: nat)
    requires EnteredUpTo(c, open, m, n) && n < |c.shorttxids|
    ensures EnteredUpTo(c, open, m[c.shorttxids[n] := open[n] % POSITIONS], n + 1)
  {
    MapGrows(m, c.shorttxids[n], open[n] % POSITIONS);
    DistinctNext(c.shorttxids, n);
    assert c.shorttxids[..n + 1] == c.shorttxids[..n] + [c.shorttxids[n]];
  }

  lemma DistinctNext(s: seq<nat>, n: nat)
    requires n < |s|
    ensures Distinct(s[..n + 1]) <==> Distinct(s[..n]) && s[n] !in s[..n]
  {
    var t := s[..n + 1];
    assert t[..n] == s[..n] && t[n] == s[n];
  }

  lemma EnterAll(c: Compact, open: seq<nat>, m: map<nat, nat>)
    requires EnteredUpTo(c, open, m, |c.shorttxids|)
    ensures |m| == |c.shorttxids| ==> Entered(c, open, m)
    ensures |m| == |c.shorttxids| <==> Distinct(c.shorttxids)
  {
    assert c.shorttxids[..|c.shorttxids|] == c.shorttxids;
  }

  lemma MapGrows(m: map<nat, nat>, k: nat, v: nat)
    ensures |m[k := v]| == |m| + if k in m then 0 else 1
  {
    var m' := m[k := v];
    if k in m { assert m'.Keys == m.Keys; } else { assert m'.Keys == m.Keys + {k}; }
  }

  lemma LeadsToOpen(c: Compact, open: seq<nat>, m: map<nat, nat>, id: nat)
    requires Indexed(c, open, m) && id in m
    ensures exists i :: 0 <= i < |open| && c.shorttxids[i] == id && open[i] == m[id]
  {
    var i :| 0 <= i < |c.shorttxids| && c.shorttxids[i] == id;
    assert open[i] == m[id];
  }

  lemma {:induction false} OpenIncreasing(a: Available, n: nat)
    requires n <= |a|
    ensures forall i, k :: 0 <= i < k < |OpenUpTo(a, n)| ==> OpenUpTo(a, n)[i] < OpenUpTo(a, n)[k]
  {
    if n > 0 {
      OpenIncreasing(a, n - 1);
      OpenCount(a, n - 1);
    }
  }

  lemma {:induction false} OpenGrows(a: Available, m: nat, n: nat)
    requires m <= n <= |a|
    ensures |OpenUpTo(a, m)| <= |OpenUpTo(a, n)|
    decreases n
  {
    if m < n { OpenGrows(a, m, n - 1); }
  }

  // ----- Matching against the pool -----

  /** How many positions have been matched and still hold their match. */
  function Claimed(a: Available, have: seq<bool>): nat
    requires |a| == |have|
  {
    if a == [] then 0
    else Claimed(a[..|a| - 1], have[..|a| - 1]) + if have[|a| - 1] && a[|a| - 1].Some? then 1 else 0
  }

  lemma {:induction false} NoneClaimed(a: Available, have: seq<bool>)
    requires |a| == |have| && forall j :: 0 <= j < |have| ==> !have[j]
    ensures Claimed(a, have) == 0
    decreases |a|
  {
    if a != [] { NoneClaimed(a[..|a| - 1], have[..|a| - 1]); }
  }

  lemma {:induction false} ClaimedUpdate(a: Available, have: seq<bool>, j: nat, x: Option<Tx>, h: bool)
    requires j < |a| == |have|
    ensures Claimed(a[j := x], have[j := h]) ==
              Claimed(a, have) + (if h && x.Some? then 1 else 0) - (if have[j] && a[j].Some? then 1 else 0)
    decreases |a|
  {
    var n := |a| - 1;
    if j < n {
      ClaimedUpdate(a[..n], have[..n], j, x, h);
      assert a[j := x][..n] == a[..n][j := x] && have[j := h][..n] == have[..n][j := h];
    } else {
      assert a[j := x][..n] == a[..n] && have[j := h][..n] == have[..n];
    }
  }

  /** Open positions match, prefilled ones are as they were, and the counter tells how many were found. */
  ghost predicate Scanned(c: Compact, open: seq<nat>, pool: seq<Tx>, shortId: Tx -> nat, placed: Available,
                          a: Available, count: nat)
  {
    && |a| == |placed| && Matches(a, c, open, pool, shortId) && Filled(a) == |c.prefilledtxn| + count
    && forall j :: 0 <= j < |placed| && placed[j].Some? ==> a[j] == placed[j]
  }

  // ----- What the scan finds -----

  /** How many of the first n pool transactions have this short id. */
  ghost function Hits(pool: seq<Tx>, shortId: Tx -> nat, id: nat, n: nat): nat
    requires n <= |pool|
  {
    if n == 0 then 0 else Hits(pool, shortId, id, n - 1) + if shortId(pool[n - 1]) == id then 1 else 0
  }

  /** k is the only one of the first n pool transactions with this short id. */
  ghost predicate OnlyHit(pool: seq<Tx>, shortId: Tx -> nat, id: nat, n: nat, k: nat)
    requires n <= |pool|
  {
    k < n && shortId(pool[k]) == id && forall l :: 0 <= l < n && l != k ==> shortId(pool[l]) != id
  }

  /** What a short id is found to stand for among the first n: the only one that has it, if there is only one. */
  ghost function FoundFor(pool: seq<Tx>, shortId: Tx -> nat, id: nat, n: nat): Option<Tx>
    requires n <= |pool|
  {
    if n == 0 then None
    else if shortId(pool[n - 1]) != id then FoundFor(pool, shortId, id, n - 1)
    else if Hits(pool, shortId, id, n - 1) == 0 then Some(pool[n - 1])
    else None
  }

  lemma {:induction false} HitsExact(pool: seq<Tx>, shortId: Tx -> nat, id: nat, n: nat)
    requires n <= |pool|
    ensures Hits(pool, shortId, id, n) == 0 <==> forall l :: 0 <= l < n ==> shortId(pool[l]) != id
  {
    if n > 0 { HitsExact(pool, shortId, id, n - 1); }
  }

  lemma {:induction false} FoundExact(pool: seq<Tx>, shortId: Tx -> nat, id: nat, n: nat)
    requires n <= |pool|
    ensures forall k: nat :: OnlyHit(pool, shortId, id, n, k) ==> FoundFor(pool, shortId, id, n) == Some(pool[k])
    ensures FoundFor(pool, shortId, id, n).Some? ==> exists k: nat :: OnlyHit(pool, shortId, id, n, k)
  {
    if n > 0 {
      FoundExact(pool, shortId, id, n - 1);
      HitsExact(pool, shortId, id, n - 1);
      if shortId(pool[n - 1]) == id {
        if Hits(pool, shortId, id, n - 1) == 0 { assert OnlyHit(pool, shortId, id, n, n - 1); }
      } else {
        forall k: nat ensures OnlyHit(pool, shortId, id, n, k) <==> OnlyHit(pool, shortId, id, n - 1, k) {}
        if FoundFor(pool, shortId, id, n - 1).Some? {
          var k: nat :| OnlyHit(pool, shortId, id, n - 1, k);
          assert OnlyHit(pool, shortId, id, n, k);
        }
      }
    }
  }

  /** Every open position holds what its short id is found to stand for among the first n. */
  ghost predicate Searched(c: Compact, open: seq<nat>, pool: seq<Tx>, shortId: Tx -> nat, a: Available, n: nat) {
    && n <= |pool| && |open| == |c.shorttxids|
    && forall i :: 0 <= i < |open| ==> open[i] < |a| && a[open[i]] == FoundFor(pool, shortId, c.shorttxids[i], n)
  }

  /** A position is marked when its short id has been met. */
  ghost predicate Noticed(c: Compact, open: seq<nat>, pool: seq<Tx>, shortId: Tx -> nat, have: seq<bool>, n: nat) {
    && n <= |pool| && |open| == |c.shorttxids|
    && forall i :: 0 <= i < |open| ==>
         open[i] < |have| && (have[open[i]] <==> Hits(pool, shortId, c.shorttxids[i], n) > 0)
  }

  lemma SearchNone(c: Compact, open: seq<nat>, pool: seq<Tx>, shortId: Tx -> nat, placed: Available, have: seq<bool>)
    requires Placed(c, placed, |c.prefilledtxn|) && open == OpenUpTo(placed, |placed|)
    requires |have| == |placed| && forall j :: 0 <= j < |have| ==> !have[j]
    ensures Searched(c, open, pool, shortId, placed, 0) && Noticed(c, open, pool, shortId, have, 0)
  {
    hide OpenUpTo, Filled;
    OpenCount(placed, |placed|);
    assert placed[..|placed|] == placed;
  }

  /** The next pool transaction: nothing changes, or its position is filled, cleared, or stays clear. */
  lemma SearchOne(c: Compact, open: seq<nat>, m: map<nat, nat>, pool: seq<Tx>, shortId: Tx -> nat, placed: Available,
                  a: Available, have: seq<bool>, n: nat)
    requires n < |pool| && Indexed(c, open, m) && open == OpenUpTo(placed, |placed|) && |a| == |have| == |placed|
    requires Searched(c, open, pool, shortId, a, n) && Noticed(c, open, pool, shortId, have, n)
    ensures var id := shortId(pool[n]);
            if id !in m
            then Searched(c, open, pool, shortId, a, n + 1) && Noticed(c, open, pool, shortId, have, n + 1)
            else
              && m[id] < |a|
              && Searched(c, open, pool, shortId, a[m[id] := if have[m[id]] then None else Some(pool[n])], n + 1)
              && Noticed(c, open, pool, shortId, have[m[id] := true], n + 1)
  {
    hide OpenUpTo, Hits, FoundFor;
    OpenCount(placed, |placed|);
    OpenIncreasing(placed, |placed|);
    var id := shortId(pool[n]);
    forall i | 0 <= i < |open| ensures
      && (id == c.shorttxids[i] <==> id in m && m[id] == open[i])
      && Hits(pool, shortId, c.shorttxids[i], n + 1) ==
           Hits(pool, shortId, c.shorttxids[i], n) + (if id == c.shorttxids[i] then 1 else 0)
      && FoundFor(pool, shortId, c.shorttxids[i], n + 1) ==
           if id != c.shorttxids[i] then FoundFor(pool, shortId, c.shorttxids[i], n)
           else if Hits(pool, shortId, c.shorttxids[i], n) == 0 then Some(pool[n]) else None
    {
      OwnPosition(c, open, m, id, i);
      FoundNext(pool, shortId, c.shorttxids[i], n);
    }
    if id in m { LeadsToOpen(c, open, m, id); }
  }

  lemma OwnPosition(c: Compact, open: seq<nat>, m: map<nat, nat>, id: nat, i: nat)
    requires Indexed(c, open, m) && i < |open| && forall x, y :: 0 <= x < y < |open| ==> open[x] < open[y]
    ensures id == c.shorttxids[i] <==> id in m && m[id] == open[i]
  {
    if id in m { LeadsToOpen(c, open, m, id); }
  }

  lemma FoundNext(pool: seq<Tx>, shortId: Tx -> nat, id: nat, n: nat)
    requires n < |pool|
    ensures Hits(pool, shortId, id, n + 1) == Hits(pool, shortId, id, n) + if shortId(pool[n]) == id then 1 else 0
    ensures FoundFor(pool, shortId, id, n + 1) ==
              if shortId(pool[n]) != id then FoundFor(pool, shortId, id, n)
              else if Hits(pool, shortId, id, n) == 0 then Some(pool[n]) else None
  {
  }

  lemma PlacedSize(c: Compact, a: Available)
    requires Placed(c, a, |c.prefilledtxn|)
    ensures |a| == |c.shorttxids| + |c.prefilledtxn| && Filled(a) == |c.prefilledtxn|
  {
  }

  lemma ScanNone(c: Compact, open: seq<nat>, pool: seq<Tx>, shortId: Tx -> nat, placed: Available)
    requires Placed(c, placed, |c.prefilledtxn|) && open == OpenUpTo(placed, |placed|)
    ensures Scanned(c, open, pool, shortId, placed, placed, 0)
  {
    hide OpenUpTo, Filled;
    OpenCount(placed, |placed|);
    assert placed[..|placed|] == placed;
  }

  /** An entry is in range, whether or not the position fits into it. */
  lemma EntryInRange(c: Compact, placed: Available, open: seq<nat>, m: map<nat, nat>, id: nat)
    requires Entered(c, open, m) && open == OpenUpTo(placed, |placed|) && id in m
    ensures m[id] < |placed|
  {
    hide OpenUpTo;
    OpenCount(placed, |placed|);
    var i :| 0 <= i < |c.shorttxids| && c.shorttxids[i] == id;
    assert open[i] < |placed|;
  }

  /** A pool transaction with a short id of the block may be written to that id's position, or be cleared there. */
  lemma ScanOne(c: Compact, open: seq<nat>, m: map<nat, nat>, pool: seq<Tx>, shortId: Tx -> nat, placed: Available,
                a: Available, count: nat, i: nat)
    requires i < |pool| && shortId(pool[i]) in m && Indexed(c, open, m) && open == OpenUpTo(placed, |placed|)
    requires Scanned(c, open, pool, shortId, placed, a, count)
    ensures var at := m[shortId(pool[i])];
            && at < |a| && placed[at].None?
            && (a[at].None? ==> Scanned(c, open, pool, shortId, placed, a[at := Some(pool[i])], count + 1))
            && (a[at].Some? && count > 0 ==> Scanned(c, open, pool, shortId, placed, a[at := None], count - 1))
  {
    hide OpenUpTo, Filled, Matches, Indexed;
    var at := m[shortId(pool[i])];
    OpenCount(placed, |placed|);
    OpenIncreasing(placed, |placed|);
    LeadsToOpen(c, open, m, shortId(pool[i]));
    MatchKept(a, c, open, pool, shortId, i, at);
    FilledUpdate(a, at, Some(pool[i]));
    FilledUpdate(a, at, None);
  }

  /** Writing a match to its position, or clearing it, keeps all positions right. */
  lemma MatchKept(a: Available, c: Compact, open: seq<nat>, pool: seq<Tx>, shortId: Tx -> nat, i: nat, at: nat)
    requires Matches(a, c, open, pool, shortId) && i < |pool|
    requires forall x, y :: 0 <= x < y < |open| ==> open[x] < open[y]
    requires exists k :: 0 <= k < |open| && c.shorttxids[k] == shortId(pool[i]) && open[k] == at
    ensures at < |a| && Matches(a[at := Some(pool[i])], c, open, pool, shortId)
    ensures Matches(a[at := None], c, open, pool, shortId)
  {
    var k :| 0 <= k < |open| && c.shorttxids[k] == shortId(pool[i]) && open[k] == at;
    var b, d := a[at := Some(pool[i])], a[at := None];
    forall j | 0 <= j < |open|
      ensures MatchesAt(b[open[j]], c.shorttxids[j], pool, shortId)
      ensures MatchesAt(d[open[j]], c.shorttxids[j], pool, shortId)
    {
      if j != k { assert open[j] != at; }
      assert MatchesAt(a[open[j]], c.shorttxids[j], pool, shortId);
    }
  }

  // ----- Completing the block -----

  ghost function Completed(a: Available, missing: seq<Tx>, n: nat): seq<Tx>
    requires n <= |a| && |OpenUpTo(a, n)| <= |missing|
  {
    if n == 0 then []
    else Completed(a, missing, n - 1) + [if a[n - 1].None? then missing[|OpenUpTo(a, n - 1)|] else a[n - 1].value]
  }

  /** What is known is right. */
  ghost predicate Agrees(a: Available, vtx: seq<Tx>) {
    |a| == |vtx| && forall j :: 0 <= j < |a| ==> a[j].None? || a[j].value == vtx[j]
  }

  /** The transactions at the open positions, in order. */
  ghost function MissingFrom(a: Available, vtx: seq<Tx>, n: nat): seq<Tx>
    requires n <= |a| == |vtx|
  {
    OpenCount(a, n);
    seq(|OpenUpTo(a, n)|, i requires 0 <= i < |OpenUpTo(a, n)| => vtx[OpenUpTo(a, n)[i]])
  }

  /** Given them, the block is complete. */
  lemma {:induction false} CompletedRight(a: Available, vtx: seq<Tx>, missing: seq<Tx>, n: nat)
    requires Agrees(a, vtx) && n <= |a| && MissingFrom(a, vtx, |a|) == missing
    ensures |OpenUpTo(a, n)| <= |missing| && Completed(a, missing, n) == vtx[..n]
  {
    OpenGrows(a, n, |a|);
    if n > 0 {
      CompletedRight(a, vtx, missing, n - 1);
      if a[n - 1].None? {
        OpenPrefix(a, n, |a|);
        assert OpenUpTo(a, n)[|OpenUpTo(a, n - 1)|] == n - 1;
      }
      assert vtx[..n] == vtx[..n - 1] + [vtx[n - 1]];
    }
  }

  lemma {:induction false} OpenPrefix(a: Available, m: nat, n: nat)
    requires m <= n <= |a|
    ensures OpenUpTo(a, m) <= OpenUpTo(a, n)
    decreases n
  {
    if m < n { OpenPrefix(a, m, n - 1); }
  }

  // ----- A block and its compact form -----

  /** A pool transaction with the short id of one of the block's is that transaction. */
  ghost predicate OnlyOwn(vtx: seq<Tx>, pool: seq<Tx>, shortId: Tx -> nat) {
    forall i, j :: 0 <= i < |pool| && 1 <= j < |vtx| && shortId(pool[i]) == shortId(vtx[j]) ==> pool[i] == vtx[j]
  }

  /** With only the first position taken, the open ones are all the others. */
  lemma {:induction false} AllButFirst(a: Available, n: nat)
    requires 1 <= n <= |a| && a[0].Some? && Filled(a[..n]) == 1
    ensures OpenUpTo(a, n) == seq(n - 1, i requires 0 <= i < n - 1 => i + 1)
  {
    if n > 1 {
      assert a[..n][..n - 1] == a[..n - 1];
      FirstCounts(a[..n - 1]);
      AllButFirst(a, n - 1);
    } else {
      assert OpenUpTo(a, 0) == [];
    }
  }

  lemma {:induction false} FirstCounts(a: Available)
    requires a != [] && a[0].Some?
    ensures Filled(a) >= 1
    decreases |a|
  {
    if |a| > 1 { FirstCounts(a[..|a| - 1]); }
  }

  /** What the reconstruction of a block's own compact form knows is right. */
  lemma KnownRight(vtx: seq<Tx>, shortId: Tx -> nat, pool: seq<Tx>, a: Available, placed: Available, open: seq<nat>)
    requires 1 <= |vtx| == |a| && OnlyOwn(vtx, pool, shortId)
    requires Placed(CompactOf(vtx, shortId), placed, 1) && open == OpenUpTo(placed, |placed|)
    requires Matches(a, CompactOf(vtx, shortId), open, pool, shortId) && a[0] == Some(vtx[0])
    ensures Agrees(a, vtx)
  {
    var c := CompactOf(vtx, shortId);
    assert Position(c.prefilledtxn, 0) == 0;
    assert placed[..|placed|] == placed;
    AllButFirst(placed, |placed|);
    forall j | 0 <= j < |a| ensures a[j].None? || a[j].value == vtx[j] {
      if j > 0 {
        assert open[j - 1] == j;
        assert MatchesAt(a[open[j - 1]], c.shorttxids[j - 1], pool, shortId);
      }
    }
  }

  /** The transactions the receiver asks for. */
  method Request(a: Available, vtx: seq<Tx>) returns (missing: seq<Tx>)
    requires |a| == |vtx|
    ensures missing == MissingFrom(a, vtx, |a|)
  {
    missing := [];
    OpenCount(a, |a|);
    for i := 0 to |a|
      invariant missing == MissingFrom(a, vtx, i)
    {
      OpenCount(a, i);
      OpenCount(a, i + 1);
      if a[i].None? {
        missing := missing + [vtx[i]];
      }
    }
  }

  /** Compact form, reconstruction from the pool, and the missing transactions: the block is rebuilt exactly. */
  method Relay(vtx: seq<Tx>, shortId: Tx -> nat, pool: seq<Tx>, maxCount: nat, crowded: nat -> bool,
               check: seq<Tx> -> Status)
    returns (init: Status, fill: Status, rebuilt: seq<Tx>)
    requires |vtx| >= 1 && OnlyOwn(vtx, pool, shortId)
    ensures init == Ok && |vtx| <= POSITIONS ==> rebuilt == vtx && fill == check(vtx)
    ensures init == Invalid <==> |vtx| > maxCount
    ensures init == Ok <==> && |vtx| <= maxCount
                            && (forall i, k :: 1 <= i < k < |vtx| ==> shortId(vtx[i]) != shortId(vtx[k]))
                            && (forall i: nat :: i < |vtx| - 1 ==> !crowded(i))
  {
    hide OnlyOwn, Matches, Placed, OpenUpTo, Filled;
    fill, rebuilt := Failed, [];
    var c := MakeCompact(vtx, shortId);
    OneTransaction(vtx, shortId);
    assert |c.shorttxids| == |vtx| - 1 && forall i: nat :: i < |vtx| - 1 ==> c.shorttxids[i] == shortId(vtx[i + 1]);
    assert forall i: nat :: 1 <= i < |vtx| ==> shortId(vtx[i]) == c.shorttxids[i - 1];
    var block := new PartiallyDownloadedBlock(pool);
    ghost var open;
    ghost var seen;
    init, open, seen := block.InitData(c, shortId, maxCount, crowded);
    if init != Ok {
      return;
    }
    var missing := Request(block.txnAvailable, vtx);
    if |vtx| <= POSITIONS {
      ghost var placed :| Placed(c, placed, |c.prefilledtxn|) && open == OpenUpTo(placed, |placed|);
      assert Position(c.prefilledtxn, 0) == 0;
      KnownRight(vtx, shortId, pool, block.txnAvailable, placed, open);
      CompletedRight(block.txnAvailable, vtx, missing, |vtx|);
      assert vtx[..|vtx|] == vtx;
    }
    fill, rebuilt := block.FillBlock(missing, check);
  }

  lemma OneTransaction(vtx: seq<Tx>, shortId: Tx -> nat)
    requires |vtx| >= 1
    ensures WellPrefilled(CompactOf(vtx, shortId), 1)
  {
    assert Position(CompactOf(vtx, shortId).prefilledtxn, 0) == 0;
  }
}
