/** The cuckoo cache and its bit-packed collection flags (src/cuckoocache.h). */
module CuckooCache {
  import opened ByteBits
  import opened Cuckoo
  import opened CuckooRuns
  import opened Numbers
  import opened Options

  /** The bytes for `size` flags; the sum is a 32-bit one. */
  function Bytes(size: nat): nat { (size + 7) % TWO32 / 8 }

  /** They hold all flags exactly for all sizes but the last seven. */
  lemma BytesExact(size: nat)
    requires size < TWO32
    ensures 8 * Bytes(size) >= size <==> size <= TWO32 - 8
    ensures size > TWO32 - 8 ==> Bytes(size) == 0
  {
    assert (size + 7) % TWO32 == if size <= TWO32 - 8 then size + 7 else size + 7 - TWO32;
  }

  /** There is no byte for 2^32 - 2 flags. */
  lemma NoBytes()
    ensures Bytes(TWO32 - 2) == 0
  {
  }

  /** The cells of an epoch; the product is a 32-bit one. */
  function EpochCells(size: nat): nat { Max(1, 45 * size % TWO32 / 100) }

  /** They are 45 in 100 exactly for tables of up to 95443717 cells. */
  lemma EpochExact(size: nat)
    requires 3 <= size < TWO32
    ensures EpochCells(size) == 45 * size / 100 <==> size <= 95443717
  {
    var wraps := 45 * size / TWO32;
    assert 45 * size % TWO32 == 45 * size - wraps * TWO32;
  }

  class BitPackedFlags {
    const mem: array<bv8>

    ghost predicate Set(s: nat)
      requires s / 8 < mem.Length
      reads mem
    {
      Holds(mem[s / 8], s % 8)
    }

    /** All flags start set. */
    constructor (size: nat)
      requires size < TWO32
      ensures fresh(mem) && mem.Length == Bytes(size)
      ensures 8 * mem.Length >= size <==> size <= TWO32 - 8
      ensures forall s: nat :: s / 8 < mem.Length ==> Set(s)
    {
      var bytes := (size + 7) % TWO32 / 8;
      mem := new bv8[bytes](_ => 0xFF);
      new;
      BytesExact(size);
      forall s: nat | s / 8 < mem.Length ensures Set(s) { AllBits(s % 8); }
    }

    method BitSet(s: nat)
      requires s / 8 < mem.Length
      modifies mem
      ensures forall t: nat :: t / 8 < mem.Length ==> (Set(t) <==> t == s || old(Set(t)))
    {
      hide Holds, With, Without, Mask;
      mem[s / 8] := With(mem[s / 8], s % 8);
      forall t: nat | t / 8 < mem.Length ensures Set(t) <==> t == s || old(Set(t)) {
        OneBit(old(mem[s / 8]), s % 8, t % 8);
      }
    }

    method BitUnset(s: nat)
      requires s / 8 < mem.Length
      modifies mem
      ensures forall t: nat :: t / 8 < mem.Length ==> (Set(t) <==> t != s && old(Set(t)))
    {
      hide Holds, With, Without, Mask;
      mem[s / 8] := Without(mem[s / 8], s % 8);
      forall t: nat | t / 8 < mem.Length ensures Set(t) <==> t != s && old(Set(t)) {
        OneBit(old(mem[s / 8]), s % 8, t % 8);
      }
    }

    method BitIsSet(s: nat) returns (set_: bool)
      requires s / 8 < mem.Length
      ensures set_ <==> Set(s)
    {
      set_ := Holds(mem[s / 8], s % 8);
    }
  }

  // ----- The cache -----

  /** The first location from the k-th on that is `loc`; 8 when none is. */
  function IndexOf(h: Hashes, size: nat, e: Element, loc: Option<nat>, k: nat): nat
    requires k <= 8
    decreases 8 - k
  {
    if k == 8 || loc == Some(Loc(h, size, e, k)) then k else IndexOf(h, size, e, loc, k + 1)
  }

  class Cache {
    const hash: Hashes
    const table: array<Element>
    const collectionFlags: BitPackedFlags
    const epochFlags: array<bool>
    const epochSize: nat
    const depthLimit: nat
    var counter: nat

    ghost predicate Laid() {
      && table.Length == epochFlags.Length > 0
      && collectionFlags.mem.Length * 8 >= table.Length
      && table as object != epochFlags && table as object != collectionFlags.mem
      && epochFlags as object != collectionFlags.mem
      && epochSize >= 1 && depthLimit >= 1
    }

    ghost function State(): Cells
      requires Laid()
      reads table, epochFlags, collectionFlags.mem
    {
      Cells(table[..],
            seq(table.Length, i requires 0 <= i < table.Length reads collectionFlags.mem => !collectionFlags.Set(i)),
            epochFlags[..])
    }

    ghost predicate Valid()
      reads this, table, epochFlags, collectionFlags.mem
    {
      && Laid()
      && Consistent(hash, State())
      && Bounded(State(), counter, epochSize)
    }

    /** What can be seen of the cache. */
    ghost function Visible(): View
      requires Laid()
      reads this, table, epochFlags, collectionFlags.mem
    {
      Seen(State(), counter)
    }

    /** The constructor and setup. The last seven sizes leave no byte for the flags. */
    constructor (hash: Hashes, newSize: nat, depthLimit: nat, blank: Element)
      requires newSize < TWO32 && depthLimit >= 1
      ensures Valid() <==> newSize <= TWO32 - 8
      ensures Valid() ==> Visible() == View({}, {}, epochSize)
      ensures this.hash == hash && table.Length == Max(2, newSize) && counter == epochSize == EpochCells(table.Length)
      ensures fresh(table) && fresh(epochFlags) && fresh(collectionFlags.mem)
    {
      var size := Max(2, newSize);
      this.hash, this.depthLimit := hash, depthLimit;
      table := new Element[size](_ => blank);
      collectionFlags := new BitPackedFlags(size);
      epochFlags := new bool[size](_ => false);
      epochSize := Max(1, 45 * size % TWO32 / 100);
      counter := Max(1, 45 * size % TWO32 / 100);
      new;
      if newSize <= TWO32 - 8 { NoneKept(State(), |State().kept|); }
    }

    /** please_keep, allow_erase. */
    method PleaseKeep(n: nat)
      requires Laid() && n < table.Length
      modifies collectionFlags.mem
      ensures State() == old(State()).(kept := old(State()).kept[n := true])
    {
      collectionFlags.BitUnset(n);
    }

    method AllowErase(n: nat)
      requires Laid() && n < table.Length
      modifies collectionFlags.mem
      ensures State() == Drop(old(State()), n)
    {
      collectionFlags.BitSet(n);
    }

    /** Put an element into a cell and keep it. */
    method PutAt(n: nat, e: Element, recent: bool)
      requires Laid() && n < table.Length
      modifies table, epochFlags, collectionFlags.mem
      ensures State() == Put(old(State()), n, e, recent)
    {
      ghost var kept := State().kept;
      table[n] := e;
      assert State().kept == kept;
      PleaseKeep(n);
      assert State().kept == kept[n := true];
      epochFlags[n] := recent;
      assert State().kept == kept[n := true];
    }

    /** The first location that holds e. */
    method Search(e: Element) returns (loc: Option<nat>)
      requires Laid()
      ensures loc == Find(hash, table[..], e)
    {
      var k := 0;
      while k < 8
        invariant 0 <= k <= 8
        invariant Find(hash, table[..], e) == FindFrom(hash, table[..], e, k)
      {
        LocFits(hash, table.Length, e, k);
        var at := Loc(hash, table.Length, e, k);
        if table[at] == e {
          return Some(at);
        }
        k := k + 1;
      }
      return None;
    }

    /** The first location of e that may be overwritten, if any. */
    method OpenLocation(e: Element) returns (m: nat)
      requires Laid()
      ensures m <= 8
      ensures forall j :: 0 <= j < m ==> KeptLoc(hash, State(), e, j)
      ensures m < 8 ==> Loc(hash, table.Length, e, m) < table.Length && !State().kept[Loc(hash, table.Length, e, m)]
    {
      m := 0;
      while m < 8
        invariant 0 <= m <= 8
        invariant forall j :: 0 <= j < m ==> KeptLoc(hash, State(), e, j)
      {
        LocFits(hash, table.Length, e, m);
        var isSet := collectionFlags.BitIsSet(Loc(hash, table.Length, e, m));
        if isSet {
          return;
        }
        m := m + 1;
      }
    }

    /** The location after the last one used; the second one when that was none of e's. */
    method NextLocation(e: Element, lastLoc: Option<nat>) returns (m: nat)
      ensures m == (1 + IndexOf(hash, table.Length, e, lastLoc, 0)) % 8
      ensures lastLoc.None? ==> m == 1
    {
      var found := 0;
      while found < 8 && lastLoc != Some(Loc(hash, table.Length, e, found))
        invariant 0 <= found <= 8
        invariant IndexOf(hash, table.Length, e, lastLoc, 0) == IndexOf(hash, table.Length, e, lastLoc, found)
      {
        found := found + 1;
      }
      m := (1 + found) % 8;
    }

    /** The live cells of the current epoch. */
    method CountCurrent() returns (unused: nat)
      requires Laid()
      ensures unused == Current(State())
    {
      unused := 0;
      for i := 0 to table.Length
        invariant unused == CountUpTo(State(), true, i)
      {
        var isSet := collectionFlags.BitIsSet(i);
        if epochFlags[i] && !isSet {
          unused := unused + 1;
        }
      }
    }

    /** The check before an insertion. */
    method EpochCheck()
      requires Valid()
      modifies this`counter, epochFlags, collectionFlags.mem
      ensures (State(), counter) == Checked(old(State()), old(counter), epochSize)
      ensures Live(State()) == if EpochEnds(old(Visible()), epochSize) then old(Fresh(State())) else old(Live(State()))
    {
      hide Live, Fresh, Consistent, Bounded;
      CheckedLive(hash, State(), counter, epochSize);
      if counter != 0 {
        counter := counter - 1;
        return;
      }
      var unused := CountCurrent();
      if unused >= epochSize {
        Demote();
        counter := epochSize;
      } else {
        counter := Max(1, Max(epochSize / 16, epochSize - unused));
      }
    }

    /** The old epoch may be erased, the current one grows old. */
    method Demote()
      requires Laid()
      modifies epochFlags, collectionFlags.mem
      ensures State() == Demoted(old(State()))
    {
      ghost var c := State();
      for i := 0 to table.Length
        invariant forall j :: 0 <= j < i ==> State().kept[j] == (c.kept[j] && c.recent[j]) && !State().recent[j]
        invariant forall j :: i <= j < table.Length ==> State().kept[j] == c.kept[j] && State().recent[j] == c.recent[j]
      {
        if epochFlags[i] {
          epochFlags[i] := false;
        } else {
          AllowErase(i);
        }
      }
    }

    /** insert: a step of the run. An element is dropped only after all displacements, none of which found a cell. */
    method Insert(e: Element) returns (ghost dropped: Option<Element>, ghost chain: seq<Element>)
      requires Valid()
      modifies this`counter, table, epochFlags, collectionFlags.mem
      ensures Valid()
      ensures Follows(old(Visible()), Insertion(e), dropped, Visible(), epochSize)
      ensures var before := Checked(old(State()), old(counter), epochSize).0;
              dropped.Some? ==>
                Find(hash, before.table, e).None? && Displaced(hash, before, e, chain, depthLimit, dropped.value)
    {
      hide Consistent, Bounded, Live, Fresh, Find, Checked, KeptLoc, Aged, Current, Follows, Displaced;
      CheckedBounded(hash, State(), counter, epochSize);
      EpochCheck();
      ghost var before := State();
      dropped, chain := None, [];
      var loc := Search(e);
      if loc.Some? {
        ReviveLive(hash, before, e);
        PutBounded(before, loc.value, e, true, counter, epochSize);
        PutAt(loc.value, e, true);
        InsertionFollows(hash, old(State()), old(counter), epochSize, e, dropped, State());
        return;
      }
      NotFoundNotLive(hash, before, e);
      dropped, chain := Place(e, before);
      InsertionFollows(hash, old(State()), old(counter), epochSize, e, dropped, State());
    }

    /** The displacement loop: put e where it may go, or swap it with another element and go on with that. */
    method Place(e: Element, ghost before: Cells) returns (ghost dropped: Option<Element>, ghost chain: seq<Element>)
      requires Laid() && State() == before && Consistent(hash, before) && e !in Live(before)
      requires Current(before) + 1 + counter <= epochSize + Slack(epochSize)
      requires Aged(before) <= epochSize + Slack(epochSize)
      modifies table, epochFlags, collectionFlags.mem
      ensures Valid()
      ensures Live(State()) == Live(before) + {e} - Only(dropped)
      ensures Fresh(State()) == Fresh(before) + {e} - Only(dropped)
      ensures dropped.Some? ==> Displaced(hash, before, e, chain, depthLimit, dropped.value)
    {
      hide Consistent, Bounded, Live, Fresh, Find, KeptLoc, Aged, Current, Displaced;
      var hand, lastEpoch, lastLoc: Option<nat> := e, true, None;
      chain := [e];
      NoneDisplaced(hash, before, e);
      var depth := 0;
      while depth < depthLimit
        invariant 0 <= depth <= depthLimit
        invariant Carrying(hash, before, e, State(), hand, lastEpoch)
        invariant State().kept == before.kept && Displaced(hash, before, e, chain, depth, hand)
      {
        var m := OpenLocation(hand);
        if m < 8 {
          PlacedOpen(hash, before, e, State(), hand, lastEpoch, m);
          PutAt(Loc(hash, table.Length, hand, m), hand, lastEpoch);
          assert Bounded(State(), counter, epochSize) by { WithinBounds(before, State(), counter, epochSize); }
          return None, chain;
        }
        m := NextLocation(hand, lastLoc);
        LocFits(hash, table.Length, hand, m);
        var at := Loc(hash, table.Length, hand, m);
        Swapped(hash, before, e, State(), hand, lastEpoch, m);
        lastLoc := Some(at);
        var other, epoch := table[at], epochFlags[at];
        OneMore(hash, before, e, State(), chain, depth, hand, m, other);
        PutAt(at, hand, lastEpoch);
        hand, lastEpoch, chain := other, epoch, chain + [other];
        depth := depth + 1;
      }
      DroppedLast(hash, before, e, State(), hand, lastEpoch);
      assert Bounded(State(), counter, epochSize) by { WithinBounds(before, State(), counter, epochSize); }
      dropped := Some(hand);
    }

    /** contains: finds every live element; with `erase`, e is no longer live afterwards and all others are. */
    method Contains(e: Element, erase: bool) returns (found: bool)
      requires Valid()
      modifies collectionFlags.mem
      ensures Valid() && State().table == old(State()).table && State().recent == old(State()).recent
      ensures found <==> Find(hash, table[..], e).Some?
      ensures e in old(Live(State())) ==> found
      ensures erase ==> Follows(old(Visible()), Erasure(e), None, Visible(), epochSize)
      ensures !erase ==> Visible() == old(Visible())
    {
      hide Consistent, Bounded, Live, Fresh, Find;
      DropLive(hash, State(), e);
      DropSeen(hash, State(), e);
      var loc := Search(e);
      if loc.None? {
        return false;
      }
      if erase {
        ghost var c := State();
        DropBounded(c, loc.value, counter, epochSize);
        AllowErase(loc.value);
      }
      return true;
    }
  }

  lemma {:induction false} NoneKept(c: Cells, n: nat)
    requires n <= |c.kept| == |c.recent| && forall i :: 0 <= i < |c.kept| ==> !c.kept[i]
    ensures CountUpTo(c, true, n) == 0 && CountUpTo(c, false, n) == 0
  {
    if n > 0 { NoneKept(c, n - 1); }
  }

  lemma DropBounded(c: Cells, p: nat, counter: nat, epochSize: nat)
    requires Shaped(c) && p < |c.table| && Bounded(c, counter, epochSize)
    ensures Bounded(Drop(c, p), counter, epochSize)
  {
    DropCounts(c, p);
  }

  // ----- Facts for the insertion -----

  /** No cell of the element is open. */
  ghost predicate Crowded(h: Hashes, c: Cells, e: Element)
    requires Shaped(c)
  {
    forall j :: 0 <= j < 8 ==> KeptLoc(h, c, e, j)
  }

  /** From e on, `depth` elements in turn had no open cell and displaced the next; the last is still in the hand. */
  ghost predicate Displaced(h: Hashes, before: Cells, e: Element, chain: seq<Element>, depth: nat, hand: Element)
    requires Shaped(before)
  {
    && |chain| == depth + 1 && chain[0] == e && chain[depth] == hand
    && forall i :: 0 <= i < depth ==> Crowded(h, before, chain[i])
  }

  lemma NoneDisplaced(h: Hashes, before: Cells, e: Element)
    requires Shaped(before)
    ensures Displaced(h, before, e, [e], 0, e)
  {
  }

  lemma OneMore(h: Hashes, before: Cells, e: Element, c: Cells, chain: seq<Element>, depth: nat, hand: Element, m: nat,
                other: Element)
    requires Shaped(before) && Shaped(c) && c.kept == before.kept && |c.table| == |before.table| && m < 8
    requires Displaced(h, before, e, chain, depth, hand) && forall j :: 0 <= j < 8 ==> KeptLoc(h, c, hand, j)
    ensures Displaced(h, before, e, chain + [other], depth + 1, other)
    ensures Loc(h, |c.table|, hand, m) < |c.table| && c.kept[Loc(h, |c.table|, hand, m) := true] == c.kept
  {
    assert KeptLoc(h, c, hand, m);
    assert forall j :: 0 <= j < 8 ==> KeptLoc(h, c, hand, j) ==> KeptLoc(h, before, hand, j);
    assert Crowded(h, before, chain[depth]);
  }

  /** While an element is in the hand: it and the live cells together are what was live and e, and so are the epochs. */
  ghost predicate Carrying(h: Hashes, before: Cells, e: Element, c: Cells, hand: Element, recent: bool) {
    && Shaped(before) && Shaped(c) && |c.table| == |before.table| && Consistent(h, c)
    && hand !in Live(c) && Live(c) + {hand} == Live(before) + {e}
    && Fresh(c) + (if recent then {hand} else {}) == Fresh(before) + {e}
    && Current(c) + Bit(recent) == Current(before) + 1
    && Aged(c) + Bit(!recent) == Aged(before)
  }

  ghost predicate Grown(before: Cells, c: Cells) {
    && Shaped(before) && Shaped(c)
    && Current(c) <= Current(before) + 1
    && Aged(c) <= Aged(before)
  }

  lemma PlacedOpen(h: Hashes, before: Cells, e: Element, c: Cells, hand: Element, recent: bool, m: nat)
    requires Carrying(h, before, e, c, hand, recent) && m < 8
    requires forall j :: 0 <= j < m ==> KeptLoc(h, c, hand, j)
    requires Loc(h, |c.table|, hand, m) < |c.table| && !c.kept[Loc(h, |c.table|, hand, m)]
    ensures var c' := Put(c, Loc(h, |c.table|, hand, m), hand, recent);
            && Consistent(h, c') && Grown(before, c')
            && Live(c') == Live(before) + {e} && Fresh(c') == Fresh(before) + {e}
  {
    hide Consistent, Live, Fresh, Current, Aged;
    var p := Loc(h, |c.table|, hand, m);
    PutConsistent(h, c, hand, m, recent);
    PutLive(h, c, p, hand, recent);
    PutFresh(h, c, p, hand, recent);
    PutCounts(c, p, hand, recent);
  }

  lemma Swapped(h: Hashes, before: Cells, e: Element, c: Cells, hand: Element, recent: bool, m: nat)
    requires Carrying(h, before, e, c, hand, recent) && m < 8
    requires forall j :: 0 <= j < 8 ==> KeptLoc(h, c, hand, j)
    ensures var p := Loc(h, |c.table|, hand, m);
            p < |c.table| && Carrying(h, before, e, Put(c, p, hand, recent), c.table[p], c.recent[p])
  {
    hide Consistent, Live, Fresh, Current, Aged;
    assert KeptLoc(h, c, hand, m);
    var p := Loc(h, |c.table|, hand, m);
    PutConsistent(h, c, hand, m, recent);
    PutLive(h, c, p, hand, recent);
    PutFresh(h, c, p, hand, recent);
    PutCounts(c, p, hand, recent);
    KeptIsLive(c, p);
    FreshThere(h, c, p);
    assert Live(Put(c, p, hand, recent)) + {c.table[p]} == Live(c) + {hand};
  }

  lemma KeptIsLive(c: Cells, p: nat)
    requires Shaped(c) && p < |c.table| && c.kept[p]
    ensures c.table[p] in Live(c)
  {
  }

  /** A live cell's element is of the current epoch exactly if its flag is set. */
  lemma FreshThere(h: Hashes, c: Cells, p: nat)
    requires Shaped(c) && Consistent(h, c) && p < |c.table| && c.kept[p]
    ensures c.table[p] in Fresh(c) <==> c.recent[p]
  {
    ConsistentMeans(h, c);
  }

  lemma DropSeen(h: Hashes, c: Cells, e: Element)
    requires Shaped(c) && Consistent(h, c)
    ensures Find(h, c.table, e) == None ==> e !in Live(c) && e !in Fresh(c)
    ensures Find(h, c.table, e).Some? ==>
              var p := Find(h, c.table, e).value; p < |c.table| && Fresh(Drop(c, p)) == Fresh(c) - {e}
  {
    DropLive(h, c, e);
    FreshIsLive(c);
    if Find(h, c.table, e).Some? {
      FindIsLocation(h, c.table, e, 0);
      DropFresh(h, c, Find(h, c.table, e).value);
    }
  }

  lemma DroppedLast(h: Hashes, before: Cells, e: Element, c: Cells, hand: Element, recent: bool)
    requires Carrying(h, before, e, c, hand, recent)
    ensures Live(c) == Live(before) + {e} - {hand} && Fresh(c) == Fresh(before) + {e} - {hand} && Grown(before, c)
  {
    hide Consistent, Live, Fresh, Current, Aged;
    FreshIsLive(c);
    assert Live(c) == Live(c) + {hand} - {hand};
  }

  lemma WithinBounds(before: Cells, c: Cells, counter: nat, epochSize: nat)
    requires Grown(before, c)
    requires Current(before) + 1 + counter <= epochSize + Slack(epochSize)
    requires Aged(before) <= epochSize + Slack(epochSize)
    ensures Bounded(c, counter, epochSize)
  {
  }

  lemma PutBounded(c: Cells, p: nat, e: Element, recent: bool, counter: nat, epochSize: nat)
    requires Shaped(c) && p < |c.table| && recent
    requires Current(c) + 1 + counter <= epochSize + Slack(epochSize) && Aged(c) <= epochSize + Slack(epochSize)
    ensures Bounded(Put(c, p, e, recent), counter, epochSize)
  {
    PutCounts(c, p, e, recent);
  }

  lemma NotFoundNotLive(h: Hashes, c: Cells, e: Element)
    requires Shaped(c) && Consistent(h, c) && Find(h, c.table, e).None?
    ensures e !in Live(c)
  {
    DropLive(h, c, e);
  }
}
