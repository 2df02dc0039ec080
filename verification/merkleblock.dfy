/** CPartialMerkleTree as an object (src/merkleblock.h:50-118, src/merkleblock.cpp:63-183): building,
  * packing its bits into bytes, reading them back, and extracting the matches.
  */
module MerkleBlock {
  import opened ByteBits
  import opened Merkle
  import opened Numbers

  /** The bytes carry the bits, least significant first, and zeros after them. */
  ghost predicate Packed(bits: seq<bool>, bytes: seq<bv8>) {
    && |bytes| == (|bits| + 7) / 8
    && forall p: nat :: p < 8 * |bytes| ==> (ByteBits.Holds(bytes[p / 8], p % 8) <==> p < |bits| && bits[p])
  }

  /** Unpacking what was packed gives the bits back, padded with zeros to whole bytes. */
  lemma Unpacked(bits: seq<bool>, bytes: seq<bv8>, bits': seq<bool>)
    requires Packed(bits, bytes) && |bits'| == 8 * |bytes|
    requires forall p: nat :: p < |bits'| ==> bits'[p] == ByteBits.Holds(bytes[p / 8], p % 8)
    ensures bits <= bits' && (|bits'| + 7) / 8 == (|bits| + 7) / 8
  {
    hide ByteBits.Holds;
    forall p: nat | p < |bits| ensures bits'[p] == bits[p] {}
  }

  class CPartialMerkleTree {
    const hasher: Hasher
    var nTransactions: nat
    var vBits: seq<bool>
    var vHash: seq<Hash>
    var fBad: bool

    ghost function State(): Tree
      reads this
    {
      Tree(nTransactions, vBits, vHash, fBad)
    }

    /** The empty tree, which is bad. */
    constructor Empty(hasher: Hasher)
      ensures this.hasher == hasher && State() == Tree(0, [], [], true)
    {
      this.hasher := hasher;
      nTransactions, vBits, vHash, fBad := 0, [], [], true;
    }

    /** The partial tree for the transactions selected by a mask. */
    constructor (hasher: Hasher, vTxid: seq<Hash>, vMatch: seq<bool>)
      requires 0 < |vTxid| == |vMatch|
      ensures this.hasher == hasher && SentFor(hasher, vTxid, vMatch, State())
      ensures vBits == BuiltBits(vMatch, Height(nTransactions), 0)
    {
      this.hasher := hasher;
      nTransactions, fBad := |vTxid|, false;
      vBits, vHash := [], [];
      new;
      OneRoot(|vTxid|, 0);
      var nHeight := TreeHeight();
      TraverseAndBuild(nHeight, 0, vTxid, vMatch);
    }

    method TreeHeight() returns (nHeight: nat)
      ensures nHeight == Height(nTransactions) && nHeight <= nTransactions
    {
      nHeight := 0;
      while Width(nTransactions, nHeight) > 1
        invariant nHeight <= nTransactions && HeightFrom(nTransactions, nHeight) == Height(nTransactions)
        decreases nTransactions - nHeight
      {
        NotYet(nTransactions, nHeight);
        nHeight := nHeight + 1;
      }
    }

    method CalcHash(height: nat, pos: nat, vTxid: seq<Hash>) returns (hash: Hash)
      requires nTransactions == |vTxid| && pos < Width(nTransactions, height)
      ensures hash == Calc(hasher, vTxid, height, pos)
      decreases height
    {
      if height == 0 {
        LeafRange(nTransactions, pos);
        return vTxid[pos];
      }
      RangeSplit(nTransactions, height, pos);
      var left := CalcHash(height - 1, pos * 2, vTxid);
      var right;
      if pos * 2 + 1 < Width(nTransactions, height - 1) {
        right := CalcHash(height - 1, pos * 2 + 1, vTxid);
      } else {
        right := left;
      }
      return hasher.combine(left, right);
    }

    method ParentOfMatch(height: nat, pos: nat, vMatch: seq<bool>) returns (any: bool)
      requires nTransactions == |vMatch|
      ensures any <==> AnyMatch(vMatch, Start(height, pos), End(nTransactions, height, pos))
    {
      hide Start;
      StartGrows(height, pos);
      any := false;
      var p := Start(height, pos);
      while p < Start(height, pos + 1) && p < nTransactions
        invariant Start(height, pos) <= p <= Start(height, pos + 1)
        invariant any <==> AnyMatch(vMatch, Start(height, pos), p)
      {
        any := any || vMatch[p];
        p := p + 1;
      }
    }

    /** Append the bits and hashes of a node. */
    method TraverseAndBuild(height: nat, pos: nat, vTxid: seq<Hash>, vMatch: seq<bool>)
      requires nTransactions == |vTxid| == |vMatch| && pos < Width(nTransactions, height)
      modifies this`vBits, this`vHash
      ensures vBits == old(vBits) + BuiltBits(vMatch, height, pos)
      ensures vHash == old(vHash) + BuiltHashes(hasher, vTxid, vMatch, height, pos)
      decreases height
    {
      hide Width, AnyMatch, Start, End, BuiltBits, BuiltHashes, Calc;
      var fParentOfMatch := ParentOfMatch(height, pos, vMatch);
      vBits := vBits + [fParentOfMatch];
      if height == 0 || !fParentOfMatch {
        BuiltStop(hasher, vTxid, vMatch, height, pos);
        var hash := CalcHash(height, pos, vTxid);
        vHash := vHash + [hash];
      } else {
        BuiltInner(hasher, vTxid, vMatch, height, pos);
        TraverseAndBuild(height - 1, pos * 2, vTxid, vMatch);
        if pos * 2 + 1 < Width(nTransactions, height - 1) {
          TraverseAndBuild(height - 1, pos * 2 + 1, vTxid, vMatch);
        }
      }
    }

    /** Read a node, consuming bits and hashes and appending the matches below it. */
    method TraverseAndExtract(height: nat, pos: nat, nBits: nat, nHash: nat, vMatch: seq<Hash>, vnIndex: seq<nat>)
      returns (hash: Hash, nBitsUsed: nat, nHashUsed: nat, vMatch': seq<Hash>, vnIndex': seq<nat>)
      modifies this`fBad
      ensures var node := Extract(hasher, old(State()), height, pos, nBits, nHash);
              && hash == node.hash && nBitsUsed == node.bitsUsed && nHashUsed == node.hashUsed
              && vMatch' == vMatch + Txids(node.matches) && vnIndex' == vnIndex + Indices(node.matches)
              && fBad == (old(fBad) || node.bad)
      decreases height
    {
      hide Extract, Txids, Indices;
      nBitsUsed, nHashUsed, vMatch', vnIndex' := nBits, nHash, vMatch, vnIndex;
      ExtractStep(hasher, State(), height, pos, nBits, nHash);
      if nBitsUsed >= |vBits| {
        fBad := true;
        return hasher.none, nBitsUsed, nHashUsed, vMatch', vnIndex';
      }
      var fParentOfMatch := vBits[nBitsUsed];
      nBitsUsed := nBitsUsed + 1;
      if height == 0 || !fParentOfMatch {
        if nHashUsed >= |vHash| {
          fBad := true;
          return hasher.none, nBitsUsed, nHashUsed, vMatch', vnIndex';
        }
        hash := vHash[nHashUsed];
        nHashUsed := nHashUsed + 1;
        if height == 0 && fParentOfMatch {
          vMatch' := vMatch' + [hash];
          vnIndex' := vnIndex' + [pos];
        }
        return;
      }
      var left, right;
      left, nBitsUsed, nHashUsed, vMatch', vnIndex' :=
        TraverseAndExtract(height - 1, pos * 2, nBitsUsed, nHashUsed, vMatch', vnIndex');
      if pos * 2 + 1 < Width(nTransactions, height - 1) {
        SameReading(hasher, State(), old(State()), height - 1, pos * 2 + 1, nBitsUsed, nHashUsed);
        right, nBitsUsed, nHashUsed, vMatch', vnIndex' :=
          TraverseAndExtract(height - 1, pos * 2 + 1, nBitsUsed, nHashUsed, vMatch', vnIndex');
        if right == left {
          fBad := true;
        }
      } else {
        right := left;
      }
      hash := hasher.combine(left, right);
    }

    /** The root, or the failure hash; the matches; and their indices, added to those given. */
    method ExtractMatches(vnIndex: seq<nat>) returns (root: Hash, vMatch: seq<Hash>, vnIndex': seq<nat>)
      modifies this`fBad
      ensures var (hash, matches) := Outcome(hasher, old(State()));
              root == hash && vMatch == Txids(matches) && vnIndex' == vnIndex + Indices(matches)
    {
      vMatch, vnIndex' := [], vnIndex;
      if nTransactions == 0 {
        return hasher.none, vMatch, vnIndex';
      }
      if nTransactions > MAX_BLOCK_SIZE / 60 {
        return hasher.none, vMatch, vnIndex';
      }
      if |vHash| > nTransactions {
        return hasher.none, vMatch, vnIndex';
      }
      if |vBits| < |vHash| {
        return hasher.none, vMatch, vnIndex';
      }
      var nHeight := TreeHeight();
      var nBitsUsed, nHashUsed;
      root, nBitsUsed, nHashUsed, vMatch, vnIndex' := TraverseAndExtract(nHeight, 0, 0, 0, vMatch, vnIndex');
      if fBad {
        return hasher.none, vMatch, vnIndex';
      }
      if (nBitsUsed + 7) / 8 != (|vBits| + 7) / 8 {
        return hasher.none, vMatch, vnIndex';
      }
      if nHashUsed != |vHash| {
        return hasher.none, vMatch, vnIndex';
      }
    }

    /** The flag bits as bytes. */
    method PackBits() returns (vBytes: seq<bv8>)
      ensures Packed(vBits, vBytes)
    {
      hide ByteBits.Holds, With;
      vBytes := seq((|vBits| + 7) / 8, _ => 0);
      forall k: nat | k < 8 ensures !ByteBits.Holds(0, k) { NoBits(k); }
      var p := 0;
      while p < |vBits|
        invariant 0 <= p <= |vBits| && |vBytes| == (|vBits| + 7) / 8
        invariant forall q: nat :: q < 8 * |vBytes| ==> (ByteBits.Holds(vBytes[q / 8], q % 8) <==> q < p && vBits[q])
      {
        ghost var before := vBytes;
        if vBits[p] {
          vBytes := vBytes[p / 8 := With(vBytes[p / 8], p % 8)];
        }
        forall q: nat | q < 8 * |vBytes| ensures ByteBits.Holds(vBytes[q / 8], q % 8) <==> q < p + 1 && vBits[q] {
          OneBit(before[p / 8], p % 8, q % 8);
        }
        p := p + 1;
      }
    }

    /** Receive a tree. */
    method Receive(n: nat, hashes: seq<Hash>, vBytes: seq<bv8>)
      modifies this
      ensures nTransactions == n && vHash == hashes && !fBad && |vBits| == 8 * |vBytes|
      ensures forall p: nat :: p < |vBits| ==> vBits[p] == ByteBits.Holds(vBytes[p / 8], p % 8)
    {
      nTransactions, vHash := n, hashes;
      vBits := [];
      while |vBits| < 8 * |vBytes|
        invariant |vBits| <= 8 * |vBytes| && nTransactions == n && vHash == hashes
        invariant forall p: nat :: p < |vBits| ==> vBits[p] == ByteBits.Holds(vBytes[p / 8], p % 8)
      {
        vBits := vBits + [ByteBits.Holds(vBytes[|vBits| / 8], |vBits| % 8)];
      }
      fBad := false;
    }
  }

  lemma NoBits(k: nat)
    requires k < 8
    ensures !ByteBits.Holds(0, k)
  {
  }

  function Txids(matches: seq<(nat, Hash)>): seq<Hash> {
    seq(|matches|, i requires 0 <= i < |matches| => matches[i].1)
  }

  function Indices(matches: seq<(nat, Hash)>): seq<nat> {
    seq(|matches|, i requires 0 <= i < |matches| => matches[i].0)
  }

  lemma StartGrows(h: nat, pos: nat)
    ensures Start(h, pos) <= Start(h, pos + 1)
  {
    assert (pos + 1) * Pow2(h) == pos * Pow2(h) + Pow2(h);
  }

  /** One step of the extraction, with the matches as two lists. */
  lemma ExtractStep(m: Hasher, t: Tree, h: nat, pos: nat, b: nat, k: nat)
    ensures b >= |t.bits| ==> Extract(m, t, h, pos, b, k) == Node(m.none, b, k, [], true)
    ensures b < |t.bits| && (h == 0 || !t.bits[b]) && k >= |t.hashes| ==>
              Extract(m, t, h, pos, b, k) == Node(m.none, b + 1, k, [], true)
    ensures b < |t.bits| && (h == 0 || !t.bits[b]) && k < |t.hashes| ==>
              Extract(m, t, h, pos, b, k) ==
                Node(t.hashes[k], b + 1, k + 1, if h == 0 && t.bits[b] then [(pos, t.hashes[k])] else [], false)
    ensures b < |t.bits| && h > 0 && t.bits[b] ==>
              var l := Extract(m, t, h - 1, 2 * pos, b + 1, k);
              if 2 * pos + 1 < Width(t.n, h - 1) then
                var r := Extract(m, t, h - 1, 2 * pos + 1, l.bitsUsed, l.hashUsed);
                && Extract(m, t, h, pos, b, k) ==
                     Node(m.combine(l.hash, r.hash), r.bitsUsed, r.hashUsed, l.matches + r.matches,
                          l.bad || r.bad || r.hash == l.hash)
                && Txids(l.matches + r.matches) == Txids(l.matches) + Txids(r.matches)
                && Indices(l.matches + r.matches) == Indices(l.matches) + Indices(r.matches)
              else Extract(m, t, h, pos, b, k) ==
                     Node(m.combine(l.hash, l.hash), l.bitsUsed, l.hashUsed, l.matches, l.bad)
    ensures Txids([]) == [] && Indices([]) == []
    ensures k < |t.hashes| ==> Txids([(pos, t.hashes[k])]) == [t.hashes[k]] && Indices([(pos, t.hashes[k])]) == [pos]
  {
    hide Width;
  }

  /** Extraction does not look at the bad flag. */
  lemma {:induction false} SameReading(m: Hasher, t: Tree, u: Tree, h: nat, pos: nat, b: nat, k: nat)
    requires t == u.(bad := t.bad)
    ensures Extract(m, t, h, pos, b, k) == Extract(m, u, h, pos, b, k)
    decreases h
  {
    if h > 0 && b < |t.bits| && t.bits[b] {
      SameReading(m, t, u, h - 1, 2 * pos, b + 1, k);
      var l := Extract(m, t, h - 1, 2 * pos, b + 1, k);
      SameReading(m, t, u, h - 1, 2 * pos + 1, l.bitsUsed, l.hashUsed);
    }
  }

  /** Building, packing, sending, unpacking and extracting: the receiver has exactly the selected transactions; and the
    * root, unless there are too many transactions or two equal nodes side by side on the way.
    */
  method SendAndReceive(hasher: Hasher, vTxid: seq<Hash>, vMatch: seq<bool>)
    returns (root: Hash, txids: seq<Hash>, indices: seq<nat>)
    requires 0 < |vTxid| == |vMatch|
    ensures root == if Readable(hasher, vTxid, vMatch) then Root(hasher, vTxid) else hasher.none
    ensures Injective(hasher) && Distinct(vTxid) ==>
              (Readable(hasher, vTxid, vMatch) <==> |vTxid| <= MAX_TRANSACTIONS)
    ensures var matched := if |vTxid| <= MAX_TRANSACTIONS then Matched(vTxid, vMatch, 0, |vTxid|) else [];
            txids == Txids(matched) && indices == Indices(matched)
  {
    hide Readable, Injective, Distinct, Matched, Packed, BuiltBits, BuiltHashes, ByteBits.Holds, Outcome, Root, Width;
    var sender := new CPartialMerkleTree(hasher, vTxid, vMatch);
    var vBytes := sender.PackBits();
    var receiver := new CPartialMerkleTree.Empty(hasher);
    receiver.Receive(sender.nTransactions, sender.vHash, vBytes);
    Unpacked(sender.vBits, vBytes, receiver.vBits);
    SentIsRead(hasher, vTxid, vMatch, receiver.State());
    root, txids, indices := receiver.ExtractMatches([]);
  }
}
