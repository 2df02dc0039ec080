/** Partial Merkle trees as values (src/merkleblock.h, src/merkleblock.cpp; BIP 37, section
  * "Partial Merkle branch format").
  *
  * `Calc` is the Merkle tree over all transactions, `BuiltBits` and `BuiltHashes` what the
  * builder writes for a node, `Extract` what the reader makes of any bits and hashes.
  */
module Merkle {
  import opened Numbers

  type Hash(==, !new)

  /** Hashing of two hashes, and the hash that stands for failure. */
  datatype Hasher = Hasher(combine: (Hash, Hash) -> Hash, none: Hash)

  ghost predicate Injective(m: Hasher) {
    forall a, b, c, d :: m.combine(a, b) == m.combine(c, d) ==> a == c && b == d
  }

  const MAX_BLOCK_SIZE: nat := 1000000
  const MAX_TRANSACTIONS: nat := MAX_BLOCK_SIZE / 60

  // ----- The shape of the tree -----

  /** CalcTreeWidth. */
  function Width(n: nat, h: nat): nat {
    (n + Pow2(h) - 1) / Pow2(h)
  }

  /** The first transaction below a node. */
  function Start(h: nat, pos: nat): nat {
    pos * Pow2(h)
  }

  /** Where the transactions below a node end. */
  function End(n: nat, h: nat, pos: nat): nat {
    if Start(h, pos + 1) < n then Start(h, pos + 1) else n
  }

  lemma Ceiling(n: nat, d: nat, q: nat)
    requires d > 0
    ensures q < (n + d - 1) / d <==> q * d < n
  {
    var w := (n + d - 1) / d;
    var r := (n + d - 1) % d;
    assert n + d - 1 == w * d + r;
    if q < w {
      assert q * d <= (w - 1) * d;
      assert (w - 1) * d == w * d - d;
    } else {
      assert q * d >= w * d;
    }
  }

  /** A node exists exactly when there is a transaction below it. */
  lemma NodeExists(n: nat, h: nat, pos: nat)
    ensures pos < Width(n, h) <==> Start(h, pos) < n
  {
    Ceiling(n, Pow2(h), pos);
  }

  lemma Children(h: nat, pos: nat)
    requires h > 0
    ensures Start(h - 1, 2 * pos) == Start(h, pos)
    ensures Start(h, pos) < Start(h - 1, 2 * pos + 1) < Start(h, pos + 1) == Start(h - 1, 2 * pos + 2)
  {
    var d := Pow2(h - 1);
    assert Start(h, pos) == pos * (2 * d) == (2 * pos) * d;
    assert Start(h - 1, 2 * pos + 1) == (2 * pos) * d + d;
    assert Start(h, pos + 1) == (pos + 1) * (2 * d) == (2 * pos) * d + d + d;
    assert Start(h - 1, 2 * pos + 2) == (2 * pos) * d + d + d;
  }

  /** The transactions below a node are those below its children. */
  lemma RangeSplit(n: nat, h: nat, pos: nat)
    requires h > 0 && pos < Width(n, h)
    ensures 2 * pos < Width(n, h - 1) && Start(h, pos) < End(n, h, pos) <= n
    ensures Start(h - 1, 2 * pos) == Start(h, pos)
    ensures 2 * pos + 1 < Width(n, h - 1) ==>
              End(n, h - 1, 2 * pos) == Start(h - 1, 2 * pos + 1) && End(n, h - 1, 2 * pos + 1) == End(n, h, pos)
    ensures 2 * pos + 1 >= Width(n, h - 1) ==> End(n, h - 1, 2 * pos) == End(n, h, pos)
  {
    hide Start, Width;
    Children(h, pos);
    NodeExists(n, h, pos);
    NodeExists(n, h - 1, 2 * pos);
    NodeExists(n, h - 1, 2 * pos + 1);
    assert 2 * pos + 1 + 1 == 2 * pos + 2;
  }

  lemma LeafRange(n: nat, pos: nat)
    requires pos < Width(n, 0)
    ensures pos < n && Start(0, pos) == pos && End(n, 0, pos) == pos + 1
  {
  }

  // ----- The whole tree -----

  /** CalcHash. */
  function Calc(m: Hasher, txids: seq<Hash>, h: nat, pos: nat): Hash
    requires pos < Width(|txids|, h)
    decreases h
  {
    if h == 0 then LeafRange(|txids|, pos); txids[pos]
    else
      RangeSplit(|txids|, h, pos);
      var left := Calc(m, txids, h - 1, 2 * pos);
      var right := if 2 * pos + 1 < Width(|txids|, h - 1) then Calc(m, txids, h - 1, 2 * pos + 1) else left;
      m.combine(left, right)
  }

  ghost predicate Distinct(txids: seq<Hash>) {
    forall i, j :: 0 <= i < j < |txids| ==> txids[i] != txids[j]
  }

  /** With distinct transactions and an injective hash, nodes of one level differ. */
  lemma {:induction false} NodesDiffer(m: Hasher, txids: seq<Hash>, h: nat, p: nat, q: nat)
    requires Injective(m) && Distinct(txids) && p < Width(|txids|, h) && q < Width(|txids|, h) && p != q
    ensures Calc(m, txids, h, p) != Calc(m, txids, h, q)
    decreases h
  {
    if h == 0 {
      LeafRange(|txids|, p);
      LeafRange(|txids|, q);
    } else {
      RangeSplit(|txids|, h, p);
      RangeSplit(|txids|, h, q);
      NodesDiffer(m, txids, h - 1, 2 * p, 2 * q);
    }
  }

  // ----- Building -----

  ghost predicate AnyMatch(match_: seq<bool>, lo: nat, hi: nat) {
    exists p :: lo <= p < hi && p < |match_| && match_[p]
  }

  ghost function BuiltBits(match_: seq<bool>, h: nat, pos: nat): seq<bool>
    decreases h
  {
    if h == 0 || !AnyMatch(match_, Start(h, pos), End(|match_|, h, pos))
    then [AnyMatch(match_, Start(h, pos), End(|match_|, h, pos))]
    else [true] + BuiltBits(match_, h - 1, 2 * pos) +
         if 2 * pos + 1 < Width(|match_|, h - 1) then BuiltBits(match_, h - 1, 2 * pos + 1) else []
  }

  ghost function BuiltHashes(m: Hasher, txids: seq<Hash>, match_: seq<bool>, h: nat, pos: nat): seq<Hash>
    requires |txids| == |match_| && pos < Width(|txids|, h)
    decreases h
  {
    if h == 0 || !AnyMatch(match_, Start(h, pos), End(|match_|, h, pos)) then [Calc(m, txids, h, pos)]
    else RangeSplit(|txids|, h, pos);
         BuiltHashes(m, txids, match_, h - 1, 2 * pos) +
         if 2 * pos + 1 < Width(|match_|, h - 1) then BuiltHashes(m, txids, match_, h - 1, 2 * pos + 1) else []
  }

  /** No more hashes than transactions, and no more hashes than bits. */
  lemma {:induction false} BuiltSizes(m: Hasher, txids: seq<Hash>, match_: seq<bool>, h: nat, pos: nat)
    requires |txids| == |match_| && pos < Width(|txids|, h)
    ensures 1 <= |BuiltHashes(m, txids, match_, h, pos)| <= |BuiltBits(match_, h, pos)|
    ensures |BuiltHashes(m, txids, match_, h, pos)| <= End(|txids|, h, pos) - Start(h, pos)
    decreases h
  {
    hide Start, End, Width, AnyMatch;
    if h == 0 {
      LeafRange(|txids|, pos);
    } else {
      RangeSplit(|txids|, h, pos);
      BuiltSizes(m, txids, match_, h - 1, 2 * pos);
      if 2 * pos + 1 < Width(|txids|, h - 1) { BuiltSizes(m, txids, match_, h - 1, 2 * pos + 1); }
    }
  }

  /** Nodes that the builder descends through and that have only one child. */
  ghost function Singles(match_: seq<bool>, h: nat, pos: nat): nat
    decreases h
  {
    if h == 0 || !AnyMatch(match_, Start(h, pos), End(|match_|, h, pos)) then 0
    else if 2 * pos + 1 < Width(|match_|, h - 1)
    then Singles(match_, h - 1, 2 * pos) + Singles(match_, h - 1, 2 * pos + 1)
    else 1 + Singles(match_, h - 1, 2 * pos)
  }

  /** The number of bits: twice the number of hashes less one, as for a binary tree, and one more for each node with a
    * single child.
    */
  lemma {:induction false} BitCount(m: Hasher, txids: seq<Hash>, match_: seq<bool>, h: nat, pos: nat)
    requires |txids| == |match_| && pos < Width(|txids|, h)
    ensures |BuiltBits(match_, h, pos)| == 2 * |BuiltHashes(m, txids, match_, h, pos)| - 1 + Singles(match_, h, pos)
    decreases h
  {
    hide Start, End, Width, AnyMatch;
    if h > 0 {
      RangeSplit(|txids|, h, pos);
      BitCount(m, txids, match_, h - 1, 2 * pos);
      if 2 * pos + 1 < Width(|txids|, h - 1) { BitCount(m, txids, match_, h - 1, 2 * pos + 1); }
    }
  }

  /** At height g the last node has a single child and is descended through: the level below has an odd width, and a
    * transaction from the first one below that node on is matched.
    */
  ghost predicate SingleAt(match_: seq<bool>, g: nat) {
    && g > 0 && Width(|match_|, g - 1) % 2 == 1
    && AnyMatch(match_, Start(g, Width(|match_|, g) - 1), |match_|)
  }

  ghost function SinglesUpTo(match_: seq<bool>, h: nat): nat {
    if h == 0 then 0 else SinglesUpTo(match_, h - 1) + if SingleAt(match_, h) then 1 else 0
  }

  lemma WidthPositive(n: nat, h: nat)
    requires n > 0
    ensures Width(n, h) > 0
  {
    NodeExists(n, h, 0);
  }

  /** The last node of a level, and the children of a node. */
  lemma LastNode(n: nat, h: nat, pos: nat)
    requires h > 0 && pos < Width(n, h)
    ensures if pos + 1 == Width(n, h) then 2 * pos < Width(n, h - 1) <= 2 * pos + 2 else 2 * pos + 2 < Width(n, h - 1)
    ensures pos + 1 == Width(n, h) ==> End(n, h, pos) == n
  {
    hide Start, Width;
    Children(h, pos);
    RangeSplit(n, h, pos);
    NodeExists(n, h, pos + 1);
    NodeExists(n, h - 1, 2 * pos + 2);
  }

  /** The last nodes of lower levels are below those of higher ones. */
  lemma LastBelow(n: nat, h: nat)
    requires h > 0 && n > 0
    ensures Width(n, h - 1) > 0 && Width(n, h) > 0
    ensures Start(h - 1, Width(n, h - 1) - 1) >= Start(h, Width(n, h) - 1)
  {
    hide Width;
    WidthPositive(n, h - 1);
    WidthPositive(n, h);
    var pos, last := Width(n, h) - 1, Width(n, h - 1) - 1;
    LastNode(n, h, pos);
    Children(h, pos);
    Times(2 * pos, last, Pow2(h - 1));
  }

  lemma {:induction false} NoSingles(match_: seq<bool>, h: nat, lo: nat)
    requires |match_| > 0 && Width(|match_|, h) > 0 && lo <= Start(h, Width(|match_|, h) - 1)
    requires !AnyMatch(match_, lo, |match_|)
    ensures SinglesUpTo(match_, h) == 0
  {
    hide Start, Width;
    if h > 0 {
      LastBelow(|match_|, h);
      NoSingles(match_, h - 1, lo);
    }
  }

  /** Only last nodes have a single child, and the count is one for each height where the last node has one. */
  lemma {:induction false} SinglesExact(match_: seq<bool>, h: nat, pos: nat)
    requires pos < Width(|match_|, h)
    ensures Singles(match_, h, pos) == if pos + 1 < Width(|match_|, h) then 0 else SinglesUpTo(match_, h)
    decreases h
  {
    hide Start, End, Width, AnyMatch, SingleAt;
    if h > 0 {
      var n := |match_|;
      LastNode(n, h, pos);
      RangeSplit(n, h, pos);
      SinglesExact(match_, h - 1, 2 * pos);
      if 2 * pos + 1 < Width(n, h - 1) { SinglesExact(match_, h - 1, 2 * pos + 1); }
      if pos + 1 == Width(n, h) {
        SingleHere(match_, h, pos);
        if !AnyMatch(match_, Start(h, pos), n) { NoSingles(match_, h, Start(h, pos)); }
      }
    }
  }

  lemma SingleHere(match_: seq<bool>, h: nat, pos: nat)
    requires h > 0 && pos + 1 == Width(|match_|, h)
    ensures |match_| > 0
    ensures SingleAt(match_, h) <==>
              2 * pos + 1 >= Width(|match_|, h - 1) && AnyMatch(match_, Start(h, pos), |match_|)
  {
    hide Start, AnyMatch;
    NodeExists(|match_|, h, pos);
    hide Width;
    LastNode(|match_|, h, pos);
  }

  /** There are no more than the tree is high, and none exactly when no height has one. */
  lemma {:induction false} SinglesBound(match_: seq<bool>, h: nat)
    ensures SinglesUpTo(match_, h) <= h
    ensures SinglesUpTo(match_, h) == 0 <==> forall g :: 1 <= g <= h ==> !SingleAt(match_, g)
  {
    hide SingleAt;
    if h > 0 { SinglesBound(match_, h - 1); }
  }

  /** Three transactions of which the last is matched: two hashes, but four bits. */
  lemma FourBits(m: Hasher, txids: seq<Hash>, match_: seq<bool>)
    requires |txids| == 3 && match_ == [false, false, true]
    ensures Width(3, 2) == 1 && |BuiltHashes(m, txids, match_, 2, 0)| == 2 && |BuiltBits(match_, 2, 0)| == 4
  {
    hide Width, Start, End, Calc, AnyMatch, BuiltBits, BuiltHashes, Pow2;
    ThreeWide();
    ThreeMatches(match_);
    BuiltInner(m, txids, match_, 2, 0);
    BuiltStop(m, txids, match_, 1, 0);
    BuiltInner(m, txids, match_, 1, 1);
    BuiltStop(m, txids, match_, 0, 2);
  }

  lemma ThreeWide()
    ensures Width(3, 0) == 3 && Width(3, 1) == 2 && Width(3, 2) == 1
    ensures Start(2, 0) == Start(1, 0) == 0 && Start(1, 1) == 2
    ensures End(3, 2, 0) == End(3, 1, 1) == 3 && End(3, 1, 0) == 2
  {
    assert Pow2(0) == 1 && Pow2(1) == 2 && Pow2(2) == 4;
  }

  lemma ThreeMatches(match_: seq<bool>)
    requires match_ == [false, false, true]
    ensures AnyMatch(match_, 0, 3) && AnyMatch(match_, 2, 3) && !AnyMatch(match_, 0, 2)
  {
    assert match_[2];
  }

  /** What the builder appends for a node, one step at a time. */
  lemma BuiltStop(m: Hasher, txids: seq<Hash>, match_: seq<bool>, h: nat, pos: nat)
    requires |txids| == |match_| && pos < Width(|txids|, h)
    requires h == 0 || !AnyMatch(match_, Start(h, pos), End(|match_|, h, pos))
    ensures BuiltBits(match_, h, pos) == [AnyMatch(match_, Start(h, pos), End(|match_|, h, pos))]
    ensures BuiltHashes(m, txids, match_, h, pos) == [Calc(m, txids, h, pos)]
  {
  }

  lemma BuiltInner(m: Hasher, txids: seq<Hash>, match_: seq<bool>, h: nat, pos: nat)
    requires |txids| == |match_| && pos < Width(|txids|, h)
    requires h > 0 && AnyMatch(match_, Start(h, pos), End(|match_|, h, pos))
    ensures 2 * pos < Width(|txids|, h - 1)
    ensures BuiltBits(match_, h, pos) == [true] + BuiltBits(match_, h - 1, 2 * pos) +
              if 2 * pos + 1 < Width(|match_|, h - 1) then BuiltBits(match_, h - 1, 2 * pos + 1) else []
    ensures BuiltHashes(m, txids, match_, h, pos) == BuiltHashes(m, txids, match_, h - 1, 2 * pos) +
              if 2 * pos + 1 < Width(|match_|, h - 1) then BuiltHashes(m, txids, match_, h - 1, 2 * pos + 1) else []
  {
    RangeSplit(|txids|, h, pos);
  }

  // ----- Extracting -----

  /** What is sent. */
  datatype Tree = Tree(n: nat, bits: seq<bool>, hashes: seq<Hash>, bad: bool)

  /** The hash found for a node, how many bits and hashes are used then, the matches below it, and whether something
    * was wrong.
    */
  datatype Node = Node(hash: Hash, bitsUsed: nat, hashUsed: nat, matches: seq<(nat, Hash)>, bad: bool)

  /** TraverseAndExtract. */
  function Extract(m: Hasher, t: Tree, h: nat, pos: nat, b: nat, k: nat): Node
    decreases h
  {
    if b >= |t.bits| then Node(m.none, b, k, [], true)
    else if h == 0 || !t.bits[b] then
      if k >= |t.hashes| then Node(m.none, b + 1, k, [], true)
      else Node(t.hashes[k], b + 1, k + 1, if h == 0 && t.bits[b] then [(pos, t.hashes[k])] else [], false)
    else
      var l := Extract(m, t, h - 1, 2 * pos, b + 1, k);
      if 2 * pos + 1 < Width(t.n, h - 1) then
        var r := Extract(m, t, h - 1, 2 * pos + 1, l.bitsUsed, l.hashUsed);
        Node(m.combine(l.hash, r.hash), r.bitsUsed, r.hashUsed, l.matches + r.matches,
             l.bad || r.bad || r.hash == l.hash)
      else Node(m.combine(l.hash, l.hash), l.bitsUsed, l.hashUsed, l.matches, l.bad)
  }

  /** The matched transactions from lo on and before hi, with their indices. */
  ghost function Matched(txids: seq<Hash>, match_: seq<bool>, lo: nat, hi: nat): seq<(nat, Hash)>
    requires |txids| == |match_| && hi <= |txids|
    decreases hi - lo
  {
    if lo >= hi then []
    else (if match_[lo] then [(lo, txids[lo])] else []) + Matched(txids, match_, lo + 1, hi)
  }

  lemma {:induction false} MatchedSplit(txids: seq<Hash>, match_: seq<bool>, lo: nat, mid: nat, hi: nat)
    requires |txids| == |match_| && lo <= mid <= hi <= |txids|
    ensures Matched(txids, match_, lo, hi) == Matched(txids, match_, lo, mid) + Matched(txids, match_, mid, hi)
    decreases mid - lo
  {
    if lo < mid { MatchedSplit(txids, match_, lo + 1, mid, hi); }
  }

  lemma {:induction false} NoneMatched(txids: seq<Hash>, match_: seq<bool>, lo: nat, hi: nat)
    requires |txids| == |match_| && hi <= |txids| && !AnyMatch(match_, lo, hi)
    ensures Matched(txids, match_, lo, hi) == []
    decreases hi - lo
  {
    if lo < hi {
      assert !match_[lo];
      NoneMatched(txids, match_, lo + 1, hi);
    }
  }

  /** At most one hash, and one more for each level above each match. */
  lemma {:induction false} HashCount(m: Hasher, txids: seq<Hash>, match_: seq<bool>, h: nat, pos: nat)
    requires |txids| == |match_| && pos < Width(|txids|, h)
    ensures End(|txids|, h, pos) <= |txids|
    ensures |BuiltHashes(m, txids, match_, h, pos)| <=
              1 + |Matched(txids, match_, Start(h, pos), End(|txids|, h, pos))| * h
    decreases h
  {
    hide Start, Width, AnyMatch, Matched;
    if h > 0 && AnyMatch(match_, Start(h, pos), End(|match_|, h, pos)) {
      RangeSplit(|txids|, h, pos);
      var matched := |Matched(txids, match_, Start(h, pos), End(|txids|, h, pos))|;
      SomeMatched(txids, match_, Start(h, pos), End(|txids|, h, pos));
      HashCount(m, txids, match_, h - 1, 2 * pos);
      if 2 * pos + 1 < Width(|txids|, h - 1) {
        HashCount(m, txids, match_, h - 1, 2 * pos + 1);
        RightRange(|txids|, h, pos);
        MatchedSplit(txids, match_, Start(h, pos), Start(h - 1, 2 * pos + 1), End(|txids|, h, pos));
        var l := |Matched(txids, match_, Start(h - 1, 2 * pos), End(|txids|, h - 1, 2 * pos))|;
        var r := |Matched(txids, match_, Start(h - 1, 2 * pos + 1), End(|txids|, h - 1, 2 * pos + 1))|;
        assert matched * h == l * (h - 1) + r * (h - 1) + matched by { Distribute(l, r, h - 1); }
      } else {
        assert matched * h == matched * (h - 1) + matched;
      }
    }
  }

  lemma Distribute(a: nat, b: nat, c: nat)
    ensures (a + b) * (c + 1) == a * c + b * c + (a + b)
  {
  }

  lemma {:induction false} SomeMatched(txids: seq<Hash>, match_: seq<bool>, lo: nat, hi: nat)
    requires |txids| == |match_| && hi <= |txids| && AnyMatch(match_, lo, hi)
    ensures |Matched(txids, match_, lo, hi)| >= 1
    decreases hi - lo
  {
    var p :| lo <= p < hi && match_[p];
    if p > lo {
      assert AnyMatch(match_, lo + 1, hi);
      SomeMatched(txids, match_, lo + 1, hi);
    }
  }

  /** The bits of t from b on begin with `bits`, and its hashes from k on with `hashes`. */
  ghost predicate Holds(t: Tree, b: nat, k: nat, bits: seq<bool>, hashes: seq<Hash>) {
    && b + |bits| <= |t.bits| && t.bits[b..b + |bits|] == bits
    && k + |hashes| <= |t.hashes| && t.hashes[k..k + |hashes|] == hashes
  }

  lemma HoldsSplit(t: Tree, b: nat, k: nat, bits: seq<bool>, hashes: seq<Hash>, bits': seq<bool>, hashes': seq<Hash>)
    requires Holds(t, b, k, bits + bits', hashes + hashes')
    ensures Holds(t, b, k, bits, hashes) && Holds(t, b + |bits|, k + |hashes|, bits', hashes')
  {
    var all, both := t.bits[b..b + |bits + bits'|], t.hashes[k..k + |hashes + hashes'|];
    assert bits == all[..|bits|] && bits' == all[|bits|..];
    assert hashes == both[..|hashes|] && hashes' == both[|hashes|..];
  }

  /** Reading the node descends to one with two equal children. */
  ghost predicate MeetsTwins(m: Hasher, txids: seq<Hash>, match_: seq<bool>, h: nat, pos: nat)
    requires |txids| == |match_| && pos < Width(|txids|, h)
    decreases h
  {
    h > 0 && AnyMatch(match_, Start(h, pos), End(|match_|, h, pos)) &&
    (RangeSplit(|txids|, h, pos);
     || MeetsTwins(m, txids, match_, h - 1, 2 * pos)
     || (2 * pos + 1 < Width(|txids|, h - 1) &&
         (|| MeetsTwins(m, txids, match_, h - 1, 2 * pos + 1)
          || Calc(m, txids, h - 1, 2 * pos + 1) == Calc(m, txids, h - 1, 2 * pos))))
  }

  /** With distinct transactions and an injective hash there are none. */
  lemma {:induction false} NoTwins(m: Hasher, txids: seq<Hash>, match_: seq<bool>, h: nat, pos: nat)
    requires Injective(m) && Distinct(txids) && |txids| == |match_| && pos < Width(|txids|, h)
    ensures !MeetsTwins(m, txids, match_, h, pos)
    decreases h
  {
    hide Start, End, Width, AnyMatch, Injective, Distinct, Calc;
    if h > 0 {
      RangeSplit(|txids|, h, pos);
      NoTwins(m, txids, match_, h - 1, 2 * pos);
      if 2 * pos + 1 < Width(|txids|, h - 1) {
        NoTwins(m, txids, match_, h - 1, 2 * pos + 1);
        NodesDiffer(m, txids, h - 1, 2 * pos + 1, 2 * pos);
      }
    }
  }

  /** What reading a node should give. */
  ghost function Expected(m: Hasher, txids: seq<Hash>, match_: seq<bool>, h: nat, pos: nat, b: nat, k: nat): Node
    requires |txids| == |match_| && pos < Width(|txids|, h)
  {
    Node(Calc(m, txids, h, pos), b + |BuiltBits(match_, h, pos)|, k + |BuiltHashes(m, txids, match_, h, pos)|,
         Matched(txids, match_, Start(h, pos), End(|txids|, h, pos)), MeetsTwins(m, txids, match_, h, pos))
  }

  /** Reading back what was built for a node gives its hash and its matches. */
  lemma {:induction false} ExtractBuilt(m: Hasher, txids: seq<Hash>, match_: seq<bool>, h: nat, pos: nat, t: Tree,
                                        b: nat, k: nat)
    requires |txids| == |match_| == t.n && pos < Width(t.n, h)
    requires Holds(t, b, k, BuiltBits(match_, h, pos), BuiltHashes(m, txids, match_, h, pos))
    ensures Extract(m, t, h, pos, b, k) == Expected(m, txids, match_, h, pos, b, k)
    decreases h
  {
    hide Start, End, Width, AnyMatch, Matched, Holds, BuiltBits, BuiltHashes, Calc;
    if h == 0 || !AnyMatch(match_, Start(h, pos), End(t.n, h, pos)) {
      StopExtract(m, txids, match_, h, pos, t, b, k);
    } else {
      InnerHolds(m, txids, match_, h, pos, t, b, k);
      ExtractBuilt(m, txids, match_, h - 1, 2 * pos, t, b + 1, k);
      var left := Expected(m, txids, match_, h - 1, 2 * pos, b + 1, k);
      if 2 * pos + 1 < Width(t.n, h - 1) {
        ExtractBuilt(m, txids, match_, h - 1, 2 * pos + 1, t, left.bitsUsed, left.hashUsed);
        TwoChildren(m, txids, match_, h, pos, b, k);
      } else {
        OneChild(m, txids, match_, h, pos, b, k);
      }
    }
  }

  lemma TwoChildren(m: Hasher, txids: seq<Hash>, match_: seq<bool>, h: nat, pos: nat, b: nat, k: nat)
    requires |txids| == |match_| && h > 0 && pos < Width(|txids|, h) && 2 * pos + 1 < Width(|txids|, h - 1)
    requires AnyMatch(match_, Start(h, pos), End(|match_|, h, pos))
    ensures var left := Expected(m, txids, match_, h - 1, 2 * pos, b + 1, k);
            var right := Expected(m, txids, match_, h - 1, 2 * pos + 1, left.bitsUsed, left.hashUsed);
            Expected(m, txids, match_, h, pos, b, k) ==
              Node(m.combine(left.hash, right.hash), right.bitsUsed, right.hashUsed,
                   left.matches + right.matches, left.bad || right.bad || right.hash == left.hash)
  {
    hide Start, End, Width, AnyMatch, Matched;
    RangeSplit(|txids|, h, pos);
    RightRange(|txids|, h, pos);
    MatchedSplit(txids, match_, Start(h, pos), Start(h - 1, 2 * pos + 1), End(|txids|, h, pos));
  }

  lemma OneChild(m: Hasher, txids: seq<Hash>, match_: seq<bool>, h: nat, pos: nat, b: nat, k: nat)
    requires |txids| == |match_| && h > 0 && pos < Width(|txids|, h) && 2 * pos + 1 >= Width(|txids|, h - 1)
    requires AnyMatch(match_, Start(h, pos), End(|match_|, h, pos))
    ensures 2 * pos < Width(|txids|, h - 1)
    ensures var left := Expected(m, txids, match_, h - 1, 2 * pos, b + 1, k);
            Expected(m, txids, match_, h, pos, b, k) ==
              Node(m.combine(left.hash, left.hash), left.bitsUsed, left.hashUsed, left.matches, left.bad)
  {
    hide Start, End, Width, AnyMatch, Matched;
    RangeSplit(|txids|, h, pos);
  }

  lemma RightRange(n: nat, h: nat, pos: nat)
    requires h > 0 && pos < Width(n, h) && 2 * pos + 1 < Width(n, h - 1)
    ensures Start(h, pos) <= Start(h - 1, 2 * pos + 1) <= End(n, h, pos)
  {
    hide Start, Width;
    Children(h, pos);
    NodeExists(n, h - 1, 2 * pos + 1);
  }

  lemma LeafMatch(match_: seq<bool>, pos: nat)
    requires pos < |match_|
    ensures AnyMatch(match_, pos, pos + 1) <==> match_[pos]
  {
  }

  lemma StopExtract(m: Hasher, txids: seq<Hash>, match_: seq<bool>, h: nat, pos: nat, t: Tree, b: nat, k: nat)
    requires |txids| == |match_| == t.n && pos < Width(t.n, h)
    requires h == 0 || !AnyMatch(match_, Start(h, pos), End(t.n, h, pos))
    requires Holds(t, b, k, BuiltBits(match_, h, pos), BuiltHashes(m, txids, match_, h, pos))
    ensures Extract(m, t, h, pos, b, k) == Expected(m, txids, match_, h, pos, b, k)
  {
    hide Start, End, Width, AnyMatch, Holds, Matched;
    var any := AnyMatch(match_, Start(h, pos), End(t.n, h, pos));
    OneEach(t, b, k, any, Calc(m, txids, h, pos));
    if h == 0 {
      LeafMatched(txids, match_, pos);
    } else {
      RangeSplit(t.n, h, pos);
      NoneMatched(txids, match_, Start(h, pos), End(t.n, h, pos));
    }
  }

  lemma OneEach(t: Tree, b: nat, k: nat, bit: bool, hash: Hash)
    requires Holds(t, b, k, [bit], [hash])
    ensures b < |t.bits| && t.bits[b] == bit && k < |t.hashes| && t.hashes[k] == hash
  {
    assert t.bits[b] == t.bits[b..b + 1][0];
    assert t.hashes[k] == t.hashes[k..k + 1][0];
  }

  lemma LeafMatched(txids: seq<Hash>, match_: seq<bool>, pos: nat)
    requires |txids| == |match_| && pos < Width(|txids|, 0)
    ensures pos < |txids| && End(|txids|, 0, pos) <= |txids|
    ensures AnyMatch(match_, Start(0, pos), End(|match_|, 0, pos)) == match_[pos]
    ensures Matched(txids, match_, Start(0, pos), End(|txids|, 0, pos)) ==
              if match_[pos] then [(pos, txids[pos])] else []
  {
    hide Start, End, Width;
    LeafRange(|txids|, pos);
    LeafMatch(match_, pos);
    assert Matched(txids, match_, pos + 1, pos + 1) == [];
  }

  lemma InnerHolds(m: Hasher, txids: seq<Hash>, match_: seq<bool>, h: nat, pos: nat, t: Tree, b: nat, k: nat)
    requires |txids| == |match_| == t.n && pos < Width(t.n, h)
    requires h > 0 && AnyMatch(match_, Start(h, pos), End(t.n, h, pos))
    requires Holds(t, b, k, BuiltBits(match_, h, pos), BuiltHashes(m, txids, match_, h, pos))
    ensures b < |t.bits| && t.bits[b]
    ensures 2 * pos < Width(t.n, h - 1)
    ensures Holds(t, b + 1, k, BuiltBits(match_, h - 1, 2 * pos), BuiltHashes(m, txids, match_, h - 1, 2 * pos))
    ensures 2 * pos + 1 < Width(t.n, h - 1) ==>
              Holds(t, b + 1 + |BuiltBits(match_, h - 1, 2 * pos)|, k + |BuiltHashes(m, txids, match_, h - 1, 2 * pos)|,
                    BuiltBits(match_, h - 1, 2 * pos + 1), BuiltHashes(m, txids, match_, h - 1, 2 * pos + 1))
  {
    hide Start, End, Width, AnyMatch, Holds, BuiltBits, BuiltHashes;
    BuiltInner(m, txids, match_, h, pos);
    var lb, lh := BuiltBits(match_, h - 1, 2 * pos), BuiltHashes(m, txids, match_, h - 1, 2 * pos);
    if 2 * pos + 1 < Width(t.n, h - 1) {
      HoldsInner(t, b, k, lb, lh, BuiltBits(match_, h - 1, 2 * pos + 1),
                 BuiltHashes(m, txids, match_, h - 1, 2 * pos + 1));
    } else {
      HoldsInner(t, b, k, lb, lh, [], []);
    }
  }

  lemma HoldsInner(t: Tree, b: nat, k: nat, lb: seq<bool>, lh: seq<Hash>, rb: seq<bool>, rh: seq<Hash>)
    requires Holds(t, b, k, [true] + lb + rb, lh + rh)
    ensures b < |t.bits| && t.bits[b]
    ensures Holds(t, b + 1, k, lb, lh) && Holds(t, b + 1 + |lb|, k + |lh|, rb, rh)
  {
    hide Holds;
    assert [true] + lb + rb == [true] + (lb + rb) && lh + rh == [] + (lh + rh);
    HoldsSplit(t, b, k, [true], [], lb + rb, lh + rh);
    HoldsSplit(t, b + 1, k, lb, lh, rb, rh);
    FirstBit(t, b, k);
  }

  lemma FirstBit(t: Tree, b: nat, k: nat)
    requires Holds(t, b, k, [true], [])
    ensures b < |t.bits| && t.bits[b]
  {
    assert t.bits[b] == t.bits[b..b + 1][0];
  }

  // ----- Nothing but the truth -----

  ghost predicate TrueMatches(txids: seq<Hash>, matches: seq<(nat, Hash)>) {
    forall i :: 0 <= i < |matches| ==> matches[i].0 < |txids| && txids[matches[i].0] == matches[i].1
  }

  /** Whatever the bits and hashes: where a node's hash comes out right and nothing is wrong, its matches are true. */
  lemma {:induction false} ExtractTrue(m: Hasher, txids: seq<Hash>, h: nat, pos: nat, t: Tree, b: nat, k: nat)
    requires Injective(m) && t.n == |txids| && pos < Width(t.n, h)
    requires !Extract(m, t, h, pos, b, k).bad && Extract(m, t, h, pos, b, k).hash == Calc(m, txids, h, pos)
    ensures TrueMatches(txids, Extract(m, t, h, pos, b, k).matches)
    decreases h
  {
    if h == 0 {
      LeafRange(t.n, pos);
    } else if b < |t.bits| && t.bits[b] {
      RangeSplit(t.n, h, pos);
      var l := Extract(m, t, h - 1, 2 * pos, b + 1, k);
      ExtractTrue(m, txids, h - 1, 2 * pos, t, b + 1, k);
      if 2 * pos + 1 < Width(t.n, h - 1) {
        ExtractTrue(m, txids, h - 1, 2 * pos + 1, t, l.bitsUsed, l.hashUsed);
      }
    }
  }

  // ----- The root -----

  /** The height of the tree over n transactions: the least at which there is one node. */
  function HeightFrom(n: nat, h: nat): nat
    requires h <= n
    decreases n - h
  {
    if Width(n, h) <= 1 then h else NotYet(n, h); HeightFrom(n, h + 1)
  }

  lemma NotYet(n: nat, h: nat)
    requires Width(n, h) > 1
    ensures h < n
  {
    NodeExists(n, h, 1);
    PowerGrows(h);
  }

  lemma {:induction false} PowerGrows(h: nat)
    ensures h < Pow2(h)
  {
    if h > 0 { PowerGrows(h - 1); }
  }

  function Height(n: nat): nat { HeightFrom(n, 0) }

  lemma {:induction false} OneRoot(n: nat, h: nat)
    requires 0 < n && h <= n
    ensures Width(n, HeightFrom(n, h)) == 1 && Start(HeightFrom(n, h), 0) == 0 && End(n, HeightFrom(n, h), 0) == n
    decreases n - h
  {
    if Width(n, h) <= 1 {
      NodeExists(n, h, 0);
      NodeExists(n, h, 1);
    } else {
      NotYet(n, h);
      OneRoot(n, h + 1);
    }
  }

  /** ExtractMatches: the root, or the failure hash, and the matches found on the way. */
  function Outcome(m: Hasher, t: Tree): (Hash, seq<(nat, Hash)>) {
    if t.n == 0 || t.n > MAX_TRANSACTIONS || |t.hashes| > t.n || |t.bits| < |t.hashes| then (m.none, [])
    else
      var root := Extract(m, t, Height(t.n), 0, 0, 0);
      if t.bad || root.bad || (root.bitsUsed + 7) / 8 != (|t.bits| + 7) / 8 || root.hashUsed != |t.hashes|
      then (m.none, root.matches) else (root.hash, root.matches)
  }

  function Root(m: Hasher, txids: seq<Hash>): Hash
    requires txids != []
  {
    OneRoot(|txids|, 0);
    Calc(m, txids, Height(|txids|), 0)
  }

  /** The tree as built, with its bits padded to whole bytes. */
  ghost predicate SentFor(m: Hasher, txids: seq<Hash>, match_: seq<bool>, t: Tree) {
    && 0 < |txids| == |match_| == t.n && !t.bad
    && Height(t.n) <= t.n && 0 < Width(t.n, Height(t.n))
    && t.hashes == BuiltHashes(m, txids, match_, Height(t.n), 0)
    && BuiltBits(match_, Height(t.n), 0) <= t.bits
    && (|t.bits| + 7) / 8 == (|BuiltBits(match_, Height(t.n), 0)| + 7) / 8
  }

  /** What is read from any tree that was built: exactly the matched transactions with their indices, in order; and the
    * root, unless the reader meets two equal children on the way.
    */
  lemma ReadingExact(m: Hasher, txids: seq<Hash>, match_: seq<bool>, t: Tree)
    requires SentFor(m, txids, match_, t) && |txids| <= MAX_TRANSACTIONS
    ensures Outcome(m, t) == (if MeetsTwins(m, txids, match_, Height(t.n), 0) then m.none else Root(m, txids),
                              Matched(txids, match_, 0, |txids|))
  {
    hide Matched, BuiltBits, BuiltHashes, Extract, Width, Start, End, Calc, MeetsTwins;
    OneRoot(t.n, 0);
    var h := Height(t.n);
    BuiltSizes(m, txids, match_, h, 0);
    assert Holds(t, 0, 0, BuiltBits(match_, h, 0), BuiltHashes(m, txids, match_, h, 0));
    ExtractBuilt(m, txids, match_, h, 0, t, 0, 0);
  }

  /** What is built for these transactions can be read. */
  ghost predicate Readable(m: Hasher, txids: seq<Hash>, match_: seq<bool>)
    requires 0 < |txids| == |match_|
  {
    |txids| <= MAX_TRANSACTIONS && (OneRoot(|txids|, 0); !MeetsTwins(m, txids, match_, Height(|txids|), 0))
  }

  /** Whatever was built, and how it is read. */
  lemma SentIsRead(m: Hasher, txids: seq<Hash>, match_: seq<bool>, t: Tree)
    requires SentFor(m, txids, match_, t)
    ensures Outcome(m, t).0 == if Readable(m, txids, match_) then Root(m, txids) else m.none
    ensures Outcome(m, t).1 == if |txids| <= MAX_TRANSACTIONS then Matched(txids, match_, 0, |txids|) else []
    ensures Injective(m) && Distinct(txids) ==> (Readable(m, txids, match_) <==> |txids| <= MAX_TRANSACTIONS)
  {
    hide Matched, Root, MeetsTwins, Injective, Distinct, Width, Extract, Height;
    if |txids| <= MAX_TRANSACTIONS { ReadingExact(m, txids, match_, t); }
    OneRoot(|txids|, 0);
    if Injective(m) && Distinct(txids) { NoTwins(m, txids, match_, Height(|txids|), 0); }
  }

  /** Round trip: for distinct transactions the root is always read. */
  lemma RoundTrip(m: Hasher, txids: seq<Hash>, match_: seq<bool>, t: Tree)
    requires Injective(m) && Distinct(txids) && 0 < |txids| <= MAX_TRANSACTIONS && SentFor(m, txids, match_, t)
    ensures Outcome(m, t) == (Root(m, txids), Matched(txids, match_, 0, |txids|))
  {
    hide Outcome, SentFor, Matched, Root, MeetsTwins, Injective, Distinct, Width;
    ReadingExact(m, txids, match_, t);
    SentHeight(m, txids, match_, t);
    NoTwins(m, txids, match_, Height(t.n), 0);
  }

  lemma SentHeight(m: Hasher, txids: seq<Hash>, match_: seq<bool>, t: Tree)
    requires SentFor(m, txids, match_, t)
    ensures |txids| == |match_| == t.n && 0 < Width(t.n, Height(t.n))
  {
  }

  /** A pair of equal transactions side by side, one of them matched, is always noticed. */
  lemma TwinLeaves(m: Hasher, txids: seq<Hash>, match_: seq<bool>, p: nat)
    requires |txids| == |match_| && 2 * p + 1 < |txids| && txids[2 * p] == txids[2 * p + 1]
    requires match_[2 * p] || match_[2 * p + 1]
    ensures p < Width(|txids|, 1) && MeetsTwins(m, txids, match_, 1, p)
  {
    var n := |txids|;
    assert Start(1, p) == 2 * p && Start(0, 2 * p + 1) == 2 * p + 1;
    NodeExists(n, 1, p);
    NodeExists(n, 0, 2 * p);
    NodeExists(n, 0, 2 * p + 1);
    RangeSplit(n, 1, p);
    LeafRange(n, 2 * p);
    LeafRange(n, 2 * p + 1);
    assert match_[if match_[2 * p] then 2 * p else 2 * p + 1];
  }

  lemma ParentExists(n: nat, h: nat, pos: nat)
    requires pos < Width(n, h)
    ensures pos / 2 < Width(n, h + 1) && 2 * (pos / 2) <= pos <= 2 * (pos / 2) + 1
  {
    NodeExists(n, h, pos);
    NodeExists(n, h + 1, pos / 2);
    Children(h + 1, pos / 2);
    Times(2 * (pos / 2), pos, Pow2(h));
  }

  /** Twins below a node are twins below its parent. */
  lemma TwinsRise(m: Hasher, txids: seq<Hash>, match_: seq<bool>, h: nat, pos: nat)
    requires |txids| == |match_| && pos < Width(|txids|, h) && MeetsTwins(m, txids, match_, h, pos)
    ensures pos / 2 < Width(|txids|, h + 1) && MeetsTwins(m, txids, match_, h + 1, pos / 2)
  {
    hide Width, Start, Calc;
    ParentExists(|txids|, h, pos);
    RangeSplit(|txids|, h + 1, pos / 2);
    Children(h + 1, pos / 2);
    var p :| Start(h, pos) <= p < End(|match_|, h, pos) && p < |match_| && match_[p];
    assert Start(h + 1, pos / 2) <= p < End(|match_|, h + 1, pos / 2);
  }

  lemma {:induction false} TwinsAtTop(m: Hasher, txids: seq<Hash>, match_: seq<bool>, h: nat, pos: nat, top: nat)
    requires |txids| == |match_| && pos < Width(|txids|, h) && MeetsTwins(m, txids, match_, h, pos) && h <= top
    requires Width(|txids|, top) == 1
    ensures MeetsTwins(m, txids, match_, top, 0)
    decreases top - h
  {
    hide Width, Start, Calc, MeetsTwins;
    if h < top {
      TwinsRise(m, txids, match_, h, pos);
      TwinsAtTop(m, txids, match_, h + 1, pos / 2, top);
    }
  }

  /** A tree for a list with two equal transactions side by side, one of them matched, is never read to a root. */
  lemma TwinsRejected(m: Hasher, txids: seq<Hash>, match_: seq<bool>, t: Tree, p: nat)
    requires SentFor(m, txids, match_, t) && |txids| <= MAX_TRANSACTIONS
    requires 2 * p + 1 < |txids| && txids[2 * p] == txids[2 * p + 1] && (match_[2 * p] || match_[2 * p + 1])
    ensures Outcome(m, t).0 == m.none
  {
    hide Outcome, Matched, Root, MeetsTwins, Width, Height;
    OneRoot(t.n, 0);
    TallEnough(t.n);
    TwinLeaves(m, txids, match_, p);
    TwinsAtTop(m, txids, match_, 1, p, Height(t.n));
    ReadingExact(m, txids, match_, t);
  }

  lemma TallEnough(n: nat)
    requires n > 1
    ensures Height(n) >= 1 && Width(n, Height(n)) == 1
  {
    OneRoot(n, 0);
  }

  /** What a tree that is read to a root looks like. */
  lemma GoodTree(m: Hasher, t: Tree)
    requires Outcome(m, t).0 != m.none
    ensures 0 < t.n <= 16666 && !t.bad && |t.hashes| <= t.n && |t.hashes| <= |t.bits|
  {
    hide Extract, Height;
  }

  // ----- The tree level by level -----

  /** One level up: neighbours combined, and the last with itself if it has none. */
  ghost function Paired(m: Hasher, level: seq<Hash>): seq<Hash> {
    seq((|level| + 1) / 2, i requires 0 <= i < (|level| + 1) / 2 =>
      m.combine(level[2 * i], if 2 * i + 1 < |level| then level[2 * i + 1] else level[2 * i]))
  }

  ghost function RootByLevels(m: Hasher, level: seq<Hash>): Hash
    requires level != []
    decreases |level|
  {
    if |level| == 1 then level[0] else RootByLevels(m, Paired(m, level))
  }

  ghost function Level(m: Hasher, txids: seq<Hash>, h: nat): seq<Hash> {
    if h == 0 then txids else Paired(m, Level(m, txids, h - 1))
  }

  lemma PairedAt(m: Hasher, level: seq<Hash>, i: nat)
    ensures |Paired(m, level)| == (|level| + 1) / 2
    ensures 2 * i < |level| ==>
              Paired(m, level)[i] == m.combine(level[2 * i], level[if 2 * i + 1 < |level| then 2 * i + 1 else 2 * i])
  {
  }

  lemma WidthHalves(n: nat, h: nat)
    ensures Width(n, h + 1) == (Width(n, h) + 1) / 2
  {
    var w := (Width(n, h) + 1) / 2;
    Halved(n, h, w);
    if w > 0 { Halved(n, h, w - 1); }
  }

  lemma Halved(n: nat, h: nat, pos: nat)
    ensures pos < Width(n, h + 1) <==> 2 * pos < Width(n, h)
  {
    NodeExists(n, h + 1, pos);
    NodeExists(n, h, 2 * pos);
    Children(h + 1, pos);
  }

  /** The nodes of a level are the pairs of the level below. */
  lemma {:induction false} CalcIsLevel(m: Hasher, txids: seq<Hash>, h: nat, pos: nat)
    requires pos < Width(|txids|, h)
    ensures |Level(m, txids, h)| == Width(|txids|, h) && Calc(m, txids, h, pos) == Level(m, txids, h)[pos]
    decreases h
  {
    hide Width, Start, End, Paired;
    if h == 0 {
      LeafRange(|txids|, pos);
      LevelZero(|txids|);
    } else {
      RangeSplit(|txids|, h, pos);
      WidthHalves(|txids|, h - 1);
      PairedAt(m, Level(m, txids, h - 1), pos);
      CalcIsLevel(m, txids, h - 1, 2 * pos);
      if 2 * pos + 1 < Width(|txids|, h - 1) { CalcIsLevel(m, txids, h - 1, 2 * pos + 1); }
    }
  }

  lemma LevelZero(n: nat)
    ensures Width(n, 0) == n
  {
  }

  lemma {:induction false} RootFromLevel(m: Hasher, txids: seq<Hash>, h: nat)
    requires txids != [] && Level(m, txids, h) != [] && h <= |txids|
    requires |Level(m, txids, h)| == Width(|txids|, h)
    ensures 0 < Width(|txids|, HeightFrom(|txids|, h))
    ensures RootByLevels(m, Level(m, txids, h)) == Calc(m, txids, HeightFrom(|txids|, h), 0)
    decreases |txids| - h
  {
    hide Width;
    OneRoot(|txids|, h);
    if Width(|txids|, h) <= 1 {
      CalcIsLevel(m, txids, h, 0);
    } else {
      NotYet(|txids|, h);
      WidthHalves(|txids|, h);
      RootFromLevel(m, txids, h + 1);
    }
  }

  /** The root is what combining neighbours level by level comes to. */
  lemma RootIsByLevels(m: Hasher, txids: seq<Hash>)
    requires txids != []
    ensures Root(m, txids) == RootByLevels(m, txids)
  {
    hide Width, Calc, HeightFrom;
    LevelZero(|txids|);
    RootFromLevel(m, txids, 0);
  }

  /** Two lists with the same root: six transactions, and the same with the last two again. */
  lemma SameRoot(m: Hasher, a: Hash, b: Hash, c: Hash, d: Hash, e: Hash, f: Hash)
    ensures Root(m, [a, b, c, d, e, f]) == Root(m, [a, b, c, d, e, f, e, f])
  {
    hide Root;
    var six, eight := [a, b, c, d, e, f], [a, b, c, d, e, f, e, f];
    RootIsByLevels(m, six);
    RootIsByLevels(m, eight);
    var x, y, z := m.combine(a, b), m.combine(c, d), m.combine(e, f);
    assert Paired(m, six) == [x, y, z] && Paired(m, eight) == [x, y, z, z];
    assert Paired(m, [x, y, z]) == [m.combine(x, y), m.combine(z, z)] == Paired(m, [x, y, z, z]);
  }

  // ----- Left-over bits and hashes -----

  /** What a good reading does not use makes no difference to it. */
  lemma {:induction false} ReadingLocal(m: Hasher, t: Tree, u: Tree, h: nat, pos: nat, b: nat, k: nat)
    requires t.n == u.n && t.bits <= u.bits && t.hashes <= u.hashes && !Extract(m, t, h, pos, b, k).bad
    ensures Extract(m, u, h, pos, b, k) == Extract(m, t, h, pos, b, k)
    decreases h
  {
    if h > 0 && b < |t.bits| && t.bits[b] {
      ReadingLocal(m, t, u, h - 1, 2 * pos, b + 1, k);
      var l := Extract(m, t, h - 1, 2 * pos, b + 1, k);
      if 2 * pos + 1 < Width(t.n, h - 1) { ReadingLocal(m, t, u, h - 1, 2 * pos + 1, l.bitsUsed, l.hashUsed); }
    }
  }

  /** A tree that is read well is not any more with a hash left over, or a whole byte of bits. */
  lemma LeftOverRejected(m: Hasher, t: Tree, bits: seq<bool>, hashes: seq<Hash>)
    requires Outcome(m, t).0 != m.none && (hashes != [] || |bits| >= 8)
    ensures Outcome(m, t.(bits := t.bits + bits, hashes := t.hashes + hashes)).0 == m.none
  {
    hide Extract, Width, Height;
    ReadingLocal(m, t, t.(bits := t.bits + bits, hashes := t.hashes + hashes), Height(t.n), 0, 0, 0);
  }

  /** Authentication: a partial tree for the same number of transactions that extracts to their root reports only true
    * matches.
    */
  lemma OnlyTrue(m: Hasher, txids: seq<Hash>, t: Tree)
    requires Injective(m) && txids != [] && t.n == |txids| && Root(m, txids) != m.none
    requires Outcome(m, t).0 == Root(m, txids)
    ensures TrueMatches(txids, Outcome(m, t).1)
  {
    hide Injective, Extract, Width, Start, End, Calc;
    OneRoot(t.n, 0);
    ExtractTrue(m, txids, Height(t.n), 0, t, 0, 0);
  }
}
