/** The block index with its skip list, and the active chain (src/chain.h:156-216, 440-494, src/chain.cpp:13-113). */
module Chain {
  import opened Numbers

  // ----- Which height to skip to -----

  /** InvertLowestOne: n & (n - 1), bit by bit. */
  function InvertLowestOne(n: nat): nat {
    if n == 0 then 0 else if n % 2 == 1 then n - 1 else 2 * InvertLowestOne(n / 2)
  }

  /** The lowest one of n, at bit k, becomes a zero; the bits m above it stay. */
  lemma {:induction false} LowestOneInverted(n: nat) returns (m: nat, k: nat)
    requires n > 0
    ensures n == (2 * m + 1) * Pow2(k) && InvertLowestOne(n) == 2 * m * Pow2(k)
  {
    if n % 2 == 1 {
      m, k := n / 2, 0;
    } else {
      m, k := LowestOneInverted(n / 2);
      Swap3(2 * m + 1, Pow2(k));
      Swap3(2 * m, Pow2(k));
      k := k + 1;
    }
  }

  lemma {:induction false} InvertLowers(n: nat)
    ensures n > 0 ==> InvertLowestOne(n) < n
  {
    if n > 0 && n % 2 == 0 { InvertLowers(n / 2); }
  }

  function GetSkipHeight(height: int): (r: int)
    ensures r >= 0 && (height >= 1 ==> r < height)
  {
    if height < 2 then 0
    else if height % 2 == 1 then
      InvertLowers(height - 1); InvertLowers(InvertLowestOne(height - 1));
      InvertLowestOne(InvertLowestOne(height - 1)) + 1
    else InvertLowers(height); InvertLowestOne(height)
  }

  // ----- The tree of blocks -----

  class CBlockIndex {
    const pprev: CBlockIndex?
    const nHeight: nat
    var pskip: CBlockIndex?

    /** Heights count the blocks below. */
    ghost predicate Rooted()
      decreases nHeight
    {
      if pprev == null then nHeight == 0 else nHeight == pprev.nHeight + 1 && pprev.Rooted()
    }

    /** The plain walk along pprev. */
    ghost function Ancestor(h: nat): CBlockIndex
      requires Rooted() && h <= nHeight
      decreases nHeight
    {
      if h == nHeight then this else pprev.Ancestor(h)
    }

    constructor (pprev: CBlockIndex?)
      requires pprev != null ==> pprev.Rooted()
      ensures this.pprev == pprev && Rooted() && pskip == null
    {
      this.pprev := pprev;
      nHeight := if pprev == null then 0 else pprev.nHeight + 1;
      pskip := null;
    }

    /** GetAncestor: by skip pointers where they help, with the same result as the plain walk. */
    method GetAncestor(ghost tree: set<CBlockIndex>, height: int) returns (r: CBlockIndex?)
      requires Grown(tree) && this in tree
      ensures height < 0 || height > nHeight ==> r == null
      ensures 0 <= height <= nHeight ==> Rooted() && r == Ancestor(height)
    {
      hide Grown, GetSkipHeight;
      if height > nHeight || height < 0 {
        return null;
      }
      InTree(tree, this);
      var pindexWalk := this;
      var heightWalk := nHeight;
      while heightWalk > height
        invariant height <= heightWalk <= nHeight && pindexWalk in tree && pindexWalk.nHeight == heightWalk
        invariant Rooted() && pindexWalk == Ancestor(heightWalk)
      {
        InTree(tree, pindexWalk);
        var heightSkip := GetSkipHeight(heightWalk);
        var heightSkipPrev := GetSkipHeight(heightWalk - 1);
        if pindexWalk.pskip != null &&
           (|| heightSkip == height
            || (heightSkip > height && !(heightSkipPrev < heightSkip - 2 && heightSkipPrev >= height))) {
          Transitive(this, heightWalk, heightSkip);
          Transitive(this, heightSkip, heightSkip);
          pindexWalk := pindexWalk.pskip;
          heightWalk := heightSkip;
        } else {
          assert pindexWalk.pprev != null;
          Transitive(this, heightWalk, heightWalk - 1);
          pindexWalk := pindexWalk.pprev;
          heightWalk := heightWalk - 1;
        }
      }
      return pindexWalk;
    }

    /** BuildSkip. */
    method BuildSkip(ghost tree: set<CBlockIndex>)
      requires Grown(tree) && this in tree
      modifies this`pskip
      ensures Grown(tree)
      ensures pprev != null ==> Rooted() && pskip == Ancestor(GetSkipHeight(nHeight))
    {
      if pprev != null {
        pskip := pprev.GetAncestor(tree, GetSkipHeight(nHeight));
        SkipIsIn(tree, pprev, GetSkipHeight(nHeight));
      }
    }
  }

  /** A set of blocks with all their ancestors, in which every skip pointer, if set, is what BuildSkip sets. */
  ghost predicate Grown(tree: set<CBlockIndex>)
    reads tree
  {
    && (forall b :: b in tree ==> b.Rooted() && (b.pprev != null ==> b.pprev in tree))
    && (forall b :: b in tree && b.pskip != null ==> b.pskip in tree && b.pskip == b.Ancestor(GetSkipHeightOf(b)))
  }

  lemma InTree(tree: set<CBlockIndex>, b: CBlockIndex)
    requires Grown(tree) && b in tree
    ensures b.Rooted() && (b.pprev != null ==> b.pprev in tree)
    ensures b.pskip != null ==> b.pskip in tree && b.pskip == b.Ancestor(GetSkipHeight(b.nHeight))
    ensures b.nHeight > 0 ==> b.pprev != null && b.pprev.nHeight == b.nHeight - 1
  {
  }

  ghost function GetSkipHeightOf(b: CBlockIndex): (r: nat)
    ensures r <= b.nHeight
  {
    GetSkipHeight(b.nHeight)
  }

  lemma {:induction false} Transitive(b: CBlockIndex, h: nat, k: nat)
    requires b.Rooted() && k <= h <= b.nHeight
    ensures b.Ancestor(h).Rooted() && b.Ancestor(h).nHeight == h && b.Ancestor(h).Ancestor(k) == b.Ancestor(k)
    decreases b.nHeight
  {
    if h < b.nHeight { Transitive(b.pprev, h, k); }
  }

  lemma {:induction false} SkipIsIn(tree: set<CBlockIndex>, b: CBlockIndex, h: nat)
    requires b in tree && b.Rooted() && h <= b.nHeight && forall c :: c in tree && c.pprev != null ==> c.pprev in tree
    ensures b.Ancestor(h) in tree
    decreases b.nHeight
  {
    if h < b.nHeight { SkipIsIn(tree, b.pprev, h); }
  }

  // ----- The active chain -----

  /** The block and all its ancestors, by height. */
  ghost function Path(b: CBlockIndex): seq<CBlockIndex>
    requires b.Rooted()
  {
    seq(b.nHeight + 1, h requires 0 <= h <= b.nHeight => b.Ancestor(h))
  }

  ghost predicate IsPath(v: seq<CBlockIndex?>) {
    v == [] || (v[|v| - 1] != null && v[|v| - 1].Rooted() && v == Path(v[|v| - 1]))
  }

  class CChain {
    var vChain: seq<CBlockIndex?>

    constructor ()
      ensures vChain == []
    {
      vChain := [];
    }

    /** SetTip: the chain becomes exactly the ancestors of the new tip. */
    method SetTip(tip: CBlockIndex?)
      requires IsPath(vChain) && (tip != null ==> tip.Rooted())
      modifies this
      ensures IsPath(vChain)
      ensures vChain == if tip == null then [] else Path(tip)
    {
      hide IsPath, Path;
      if tip == null {
        vChain := [];
        EmptyPath();
        return;
      }
      var pindex: CBlockIndex? := tip;
      ghost var was := vChain;
      var size := tip.nHeight + 1;
      vChain := if |vChain| >= size then vChain[..size] else vChain + seq(size - |vChain|, _ => null);
      ghost var resized := vChain;
      ghost var done := size;
      while pindex != null && vChain[pindex.nHeight] != pindex
        invariant |vChain| == size && 0 <= done <= size
        invariant pindex == null <==> done == 0
        invariant pindex != null ==>
                  done == pindex.nHeight + 1 && pindex == tip.Ancestor(pindex.nHeight) && pindex.Rooted()
        invariant forall h :: done <= h < size ==> vChain[h] == tip.Ancestor(h)
        invariant forall h :: 0 <= h < done ==> vChain[h] == resized[h]
        decreases done
      {
        vChain := vChain[pindex.nHeight := pindex];
        done := pindex.nHeight;
        if done > 0 { Transitive(tip, done, done - 1); }
        pindex := pindex.pprev;
      }
      if pindex != null {
        OldPart(was, resized, tip, pindex.nHeight);
      }
      TipPath(vChain, tip);
    }

    /** operator[]. */
    function At(h: int): CBlockIndex?
      reads this
    {
      if h < 0 || h >= |vChain| then null else vChain[h]
    }

    predicate Contains(b: CBlockIndex)
      reads this
    {
      At(b.nHeight) == b
    }

    function Height(): int
      reads this
    {
      |vChain| - 1
    }

    /** FindFork: the highest block of the branch that is in the chain, if any is. */
    method FindFork(ghost tree: set<CBlockIndex>, branch: CBlockIndex?) returns (r: CBlockIndex?)
      requires IsPath(vChain) && Grown(tree) && (branch != null ==> branch in tree)
      ensures branch == null ==> r == null
      ensures branch != null && r == null ==>
                branch.Rooted() && forall h :: 0 <= h <= branch.nHeight ==> !Contains(branch.Ancestor(h))
      ensures branch != null && r != null ==>
                && branch.Rooted() && r.nHeight <= branch.nHeight && r == branch.Ancestor(r.nHeight) && Contains(r)
                && forall h :: r.nHeight < h <= branch.nHeight ==> !Contains(branch.Ancestor(h))
    {
      hide Grown;
      if branch == null {
        return null;
      }
      InTree(tree, branch);
      r := branch;
      ghost var above := branch.nHeight + 1;
      if r.nHeight > Height() {
        forall h | Height() < h <= branch.nHeight ensures !Contains(branch.Ancestor(h)) { Transitive(branch, h, h); }
        above := if Height() < 0 then 0 else Height() + 1;
        if Height() >= 0 { Transitive(branch, Height(), Height()); }
        r := r.GetAncestor(tree, Height());
      }
      while r != null && !Contains(r)
        invariant 0 <= above && (r == null <==> above == 0)
        invariant r != null ==>
                  above == r.nHeight + 1 <= branch.nHeight + 1 && r == branch.Ancestor(r.nHeight) && r.Rooted()
        invariant forall h :: above <= h <= branch.nHeight ==> !Contains(branch.Ancestor(h))
        decreases above
      {
        above := r.nHeight;
        if above > 0 { Transitive(branch, above, above - 1); }
        r := r.pprev;
      }
    }
  }

  lemma EmptyPath()
    ensures IsPath([])
  {
  }

  lemma TipPath(v: seq<CBlockIndex?>, tip: CBlockIndex)
    requires tip.Rooted() && |v| == tip.nHeight + 1 && forall h :: 0 <= h < |v| ==> v[h] == tip.Ancestor(h)
    ensures IsPath(v) && v == Path(tip)
  {
    assert v == Path(tip);
  }

  /** Where the old chain already has a block of the new one, it has all blocks below it too. */
  lemma OldPart(was: seq<CBlockIndex?>, resized: seq<CBlockIndex?>, tip: CBlockIndex, n: nat)
    requires IsPath(was) && tip.Rooted() && n <= tip.nHeight && n < |resized| && resized[n] == tip.Ancestor(n)
    requires forall h :: 0 <= h < |resized| ==> resized[h] == if h < |was| then was[h] else null
    ensures forall h :: 0 <= h <= n ==> resized[h] == tip.Ancestor(h)
  {
    var old_ := was[|was| - 1];
    forall h | 0 <= h <= n ensures resized[h] == tip.Ancestor(h) {
      assert was[h] == old_.Ancestor(h);
      Transitive(old_, n, h);
      Transitive(tip, n, h);
    }
  }
}
