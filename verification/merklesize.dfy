/** The size of a partial Merkle tree on the wire, and the guarantee that src/merkleblock.h:31-49 makes about it. */
module MerkleSize {
  import opened Merkle
  import opened Numbers

  /** GetSizeOfCompactSize (src/serialize.h:241-247). */
  function CompactSize(x: nat): nat {
    if x < 253 then 1 else if x <= 0xFFFF then 3 else if x <= 0xFFFF_FFFF then 5 else 9
  }

  function FlagBytes(bits: nat): nat { (bits + 7) / 8 }

  /** The number of transactions, the hashes with their number, and the bytes of flags with theirs. */
  function EncodedSize(hashes: nat, bits: nat): nat {
    4 + CompactSize(hashes) + 32 * hashes + CompactSize(FlagBytes(bits)) + FlagBytes(bits)
  }

  /** 10 and 32.25 bytes for each hash, rounded up. */
  function Guaranteed(hashes: nat): nat { 10 + (129 * hashes + 3) / 4 }

  /** With a number of nodes that have a single child, the guarantee is kept exactly when they still fit into the byte
    * that the other flags fill last, or into the bytes that short lengths leave over.
    */
  lemma SizeExact(hashes: nat, singles: nat, bits: nat)
    requires hashes >= 1 && bits == 2 * hashes - 1 + singles
    ensures EncodedSize(hashes, bits) <= Guaranteed(hashes) <==>
              (2 * hashes + 6) % 8 + singles < 8 * (7 - CompactSize(hashes) - CompactSize(FlagBytes(bits)))
    ensures singles <= 1 && hashes <= 0xFFFF ==> EncodedSize(hashes, bits) <= Guaranteed(hashes)
  {
    hide CompactSize;
    var q, r := (2 * hashes + 6) / 8, (2 * hashes + 6) % 8;
    assert (129 * hashes + 3) / 4 == 32 * hashes + q;
    assert FlagBytes(bits) == q + (r + singles) / 8;
    if hashes <= 0xFFFF { SmallLengths(hashes, q); }
  }

  lemma SmallLengths(hashes: nat, q: nat)
    requires hashes <= 0xFFFF && q <= hashes
    ensures CompactSize(hashes) <= 3 && CompactSize(q) <= 3
  {
  }

  /** The size of the tree for a list of transactions: the guarantee depends on the heights where the last node has a
    * single child.
    */
  lemma TreeSize(m: Hasher, txids: seq<Hash>, match_: seq<bool>, h: nat)
    requires |txids| == |match_| && Width(|txids|, h) == 1
    ensures var hashes, bits := |BuiltHashes(m, txids, match_, h, 0)|, |BuiltBits(match_, h, 0)|;
            && bits == 2 * hashes - 1 + SinglesUpTo(match_, h)
            && (EncodedSize(hashes, bits) <= Guaranteed(hashes) <==>
                  (2 * hashes + 6) % 8 + SinglesUpTo(match_, h)
                  < 8 * (7 - CompactSize(hashes) - CompactSize(FlagBytes(bits))))
  {
    hide Width, BuiltBits, BuiltHashes, CompactSize, FlagBytes, EncodedSize, Guaranteed;
    BitCount(m, txids, match_, h, 0);
    SinglesExact(match_, h, 0);
    BuiltSizes(m, txids, match_, h, 0);
    SizeExact(|BuiltHashes(m, txids, match_, h, 0)|, SinglesUpTo(match_, h), |BuiltBits(match_, h, 0)|);
  }

  // ----- A tree that is larger -----

  /** The hashes for a full tree of height h whose first k transactions are matched. */
  function PrefixHashes(k: nat, h: nat): nat {
    if k == 0 || h == 0 then 1
    else if k <= Pow2(h - 1) then PrefixHashes(k, h - 1) + 1
    else PrefixHashes(Pow2(h - 1), h - 1) + PrefixHashes(k - Pow2(h - 1), h - 1)
  }

  lemma {:induction false} PrefixFull(h: nat)
    ensures PrefixHashes(Pow2(h), h) == Pow2(h)
  {
    hide Pow2;
    if h > 0 {
      Pow2Step(h - 1);
      PrefixFull(h - 1);
    } else {
      Pow2Zero();
    }
  }

  ghost predicate FirstMatched(match_: seq<bool>, h: nat, pos: nat, k: nat) {
    && Start(h, pos + 1) <= |match_|
    && forall p :: Start(h, pos) <= p < Start(h, pos + 1) ==> (match_[p] <==> p < Start(h, pos) + k)
  }

  lemma {:induction false} PrefixBuilt(m: Hasher, txids: seq<Hash>, match_: seq<bool>, h: nat, pos: nat, k: nat)
    requires |txids| == |match_| && pos < Width(|txids|, h) && k <= Pow2(h) && FirstMatched(match_, h, pos, k)
    ensures |BuiltHashes(m, txids, match_, h, pos)| == PrefixHashes(k, h)
    decreases h
  {
    hide Width, Pow2, BuiltHashes, BuiltBits;
    var n := |txids|;
    if h == 0 {
      BuiltStop(m, txids, match_, h, pos);
    } else {
      var half := Pow2(h - 1);
      Pow2Step(h - 1);
      Halves(h, pos);
      WholeRange(n, h, pos, k);
      if k == 0 {
        assert !AnyMatch(match_, Start(h, pos), End(n, h, pos));
        BuiltStop(m, txids, match_, h, pos);
      } else {
        assert match_[Start(h, pos)];
        assert AnyMatch(match_, Start(h, pos), End(n, h, pos));
        BuiltInner(m, txids, match_, h, pos);
        NodeExists(n, h - 1, 2 * pos + 1);
        PrefixBuilt(m, txids, match_, h - 1, 2 * pos, Min(k, half));
        PrefixBuilt(m, txids, match_, h - 1, 2 * pos + 1, Max(0, k - half));
      }
    }
  }

  lemma Halves(h: nat, pos: nat)
    requires h > 0
    ensures Start(h - 1, 2 * pos) == Start(h, pos)
    ensures Start(h - 1, 2 * pos + 1) == Start(h, pos) + Pow2(h - 1)
    ensures Start(h, pos + 1) == Start(h - 1, 2 * pos + 2) == Start(h, pos) + 2 * Pow2(h - 1)
  {
    hide Pow2;
    Children(h, pos);
    var d := Pow2(h - 1);
    Pow2Step(h - 1);
    Spread(2 * pos, 1, 0, d);
    Spread(2 * pos, 2, 0, d);
  }

  lemma WholeRange(n: nat, h: nat, pos: nat, k: nat)
    requires Start(h, pos + 1) <= n && k <= Pow2(h)
    ensures End(n, h, pos) == Start(h, pos + 1) == Start(h, pos) + Pow2(h)
  {
    hide Pow2;
    Spread(pos, 1, 0, Pow2(h));
  }

  /** A node with nothing below it but the last transaction: a chain down to it, and one hash. */
  lemma {:induction false} LonelyBuilt(m: Hasher, txids: seq<Hash>, match_: seq<bool>, h: nat, pos: nat)
    requires |txids| == |match_| && pos < Width(|txids|, h) && Start(h, pos) + 1 == |txids| && match_[|txids| - 1]
    ensures |BuiltHashes(m, txids, match_, h, pos)| == 1 && Singles(match_, h, pos) == h
    decreases h
  {
    hide Width, Pow2, BuiltHashes, BuiltBits, Start, AnyMatch;
    var n := |txids|;
    if h == 0 {
      BuiltStop(m, txids, match_, h, pos);
    } else {
      Children(h, pos);
      RangeSplit(n, h, pos);
      NodeExists(n, h - 1, 2 * pos + 1);
      LastMatched(match_, Start(h, pos), End(n, h, pos));
      BuiltInner(m, txids, match_, h, pos);
      LonelyBuilt(m, txids, match_, h - 1, 2 * pos);
    }
  }

  lemma LastMatched(match_: seq<bool>, lo: nat, hi: nat)
    requires lo < hi == |match_| && match_[hi - 1]
    ensures AnyMatch(match_, lo, hi)
  {
  }

  /** 16385 transactions with the first 993 and the last matched. */
  const TRANSACTIONS: nat := 16385

  const MATCHED: seq<bool> := seq(TRANSACTIONS, i => i < 993 || i == TRANSACTIONS - 1)

  lemma LargePowers()
    ensures Pow2(5) == 32 && Pow2(6) == 64 && Pow2(7) == 128 && Pow2(8) == 256 && Pow2(9) == 512 && Pow2(10) == 1024
    ensures Pow2(11) == 2048 && Pow2(12) == 4096 && Pow2(13) == 8192 && Pow2(14) == 16384 && Pow2(15) == 32768
  {
    assert Pow2(5) == 32;
    Pow2Step(5);
    Pow2Step(6);
    Pow2Step(7);
    Pow2Step(8);
    Pow2Step(9);
    Pow2Step(10);
    Pow2Step(11);
    Pow2Step(12);
    Pow2Step(13);
    Pow2Step(14);
  }

  lemma ManyHashes()
    ensures PrefixHashes(993, 14) == 1002
  {
    hide Pow2;
    LargePowers();
    PrefixFull(9);
    PrefixFull(8);
    PrefixFull(7);
    PrefixFull(6);
    PrefixFull(5);
    FewHashes();
    assert PrefixHashes(33, 6) == 38;
    assert PrefixHashes(97, 7) == 102;
    assert PrefixHashes(225, 8) == 230;
    assert PrefixHashes(481, 9) == 486;
    assert PrefixHashes(993, 10) == 998;
    assert PrefixHashes(993, 11) == 999;
    assert PrefixHashes(993, 12) == 1000;
    assert PrefixHashes(993, 13) == 1001;
  }

  lemma FewHashes()
    ensures PrefixHashes(1, 5) == 6
  {
    assert PrefixHashes(1, 1) == 2;
    assert PrefixHashes(1, 2) == 3;
    assert PrefixHashes(1, 3) == 4;
    assert PrefixHashes(1, 4) == 5;
  }

  /** Its tree has 1003 hashes and 2019 flags, which is two bytes more than guaranteed. */
  lemma LargerThanGuaranteed(m: Hasher, txids: seq<Hash>)
    requires |txids| == TRANSACTIONS
    ensures Width(TRANSACTIONS, 15) == 1
    ensures |BuiltHashes(m, txids, MATCHED, 15, 0)| == 1003 && |BuiltBits(MATCHED, 15, 0)| == 2019
    ensures EncodedSize(1003, 2019) == 32359 && Guaranteed(1003) == 32357
  {
    hide Width, Pow2, BuiltHashes, BuiltBits, AnyMatch, PrefixHashes, Start, Singles;
    LargeShape();
    var n := TRANSACTIONS;
    assert MATCHED[0] && MATCHED[n - 1];
    SomeIn(MATCHED, Start(15, 0), End(n, 15, 0), 0);
    BuiltInner(m, txids, MATCHED, 15, 0);
    PrefixBuilt(m, txids, MATCHED, 14, 0, 993);
    ManyHashes();
    LonelyBuilt(m, txids, MATCHED, 14, 1);
    BitCount(m, txids, MATCHED, 15, 0);
    SinglesExact(MATCHED, 14, 0);
    SinglesInner(MATCHED, 15, 0);
  }

  lemma SomeIn(match_: seq<bool>, lo: nat, hi: nat, p: nat)
    requires lo <= p < hi && p < |match_| && match_[p]
    ensures AnyMatch(match_, lo, hi)
  {
  }

  lemma SinglesInner(match_: seq<bool>, h: nat, pos: nat)
    requires h > 0 && 2 * pos + 1 < Width(|match_|, h - 1) && AnyMatch(match_, Start(h, pos), End(|match_|, h, pos))
    ensures Singles(match_, h, pos) == Singles(match_, h - 1, 2 * pos) + Singles(match_, h - 1, 2 * pos + 1)
  {
  }

  lemma LargeShape()
    ensures Width(TRANSACTIONS, 14) == 2 && Width(TRANSACTIONS, 15) == 1
    ensures Start(15, 0) == Start(14, 0) == 0 && Start(14, 1) == 16384 && Start(15, 1) == 32768
    ensures Pow2(14) == 16384 && FirstMatched(MATCHED, 14, 0, 993)
  {
    hide Pow2;
    LargePowers();
  }
}
