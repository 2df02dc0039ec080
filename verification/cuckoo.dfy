/** The cells of the cuckoo cache as values (src/cuckoocache.h:242-252, 288-320, 392-479).
  *
  * Every element has eight locations. A cell is live while its collection flag is clear.
  * `Consistent` says that a search for the element of a live cell ends at that very cell:
  * so it is one of the element's eight locations, no element is live twice, and no element
  * that is live can be missed.
  */
module Cuckoo {
  import opened Numbers
  import opened Options

  type Element(==, !new)

  /** Eight 32-bit hashes of every element. */
  type Hashes = (Element, nat) -> nat

  datatype Cells = Cells(table: seq<Element>, kept: seq<bool>, recent: seq<bool>)

  ghost predicate Shaped(c: Cells) {
    |c.table| == |c.kept| == |c.recent| > 0
  }

  /** A 32-bit hash scaled to the size of the table. */
  function Loc(h: Hashes, size: nat, e: Element, k: nat): nat {
    h(e, k) % TWO32 * size / TWO32
  }

  /** Every cell is the location of some 32-bit hash, and larger hashes do not come earlier. */
  lemma LocSpread(size: nat, i: nat, x: nat, y: nat)
    requires 0 < size <= TWO32 && i < size && x <= y
    ensures exists hash: nat :: hash < TWO32 && hash * size / TWO32 == i
    ensures x * size / TWO32 <= y * size / TWO32
  {
    var w := i * TWO32 + size - 1;
    var hash: nat, over := w / size, size - 1 - w % size;
    assert w == hash * size + w % size;
    DivMod(hash * size, TWO32, i, over);
    Times(i, size - 1, TWO32);
    Times(Min(hash, TWO32), TWO32, size);
    Times(TWO32, Max(hash, TWO32), size);
    Times(x, y, size);
  }

  lemma LocFits(h: Hashes, size: nat, e: Element, k: nat)
    requires size > 0
    ensures Loc(h, size, e, k) < size
  {
    Scaled(h(e, k) % TWO32, size, TWO32);
  }

  lemma Scaled(x: nat, size: nat, m: nat)
    requires x < m && size > 0
    ensures 0 <= x * size / m < size
  {
    var q := x * size / m;
    assert q * m <= x * size by { assert x * size == q * m + x * size % m; }
    assert x * size < m * size;
    assert (size - q) * m > 0;
  }

  // ----- Searching -----

  /** The first of the locations from the k-th on that holds e. */
  function FindFrom(h: Hashes, table: seq<Element>, e: Element, k: nat): Option<nat>
    requires |table| > 0 && k <= 8
    decreases 8 - k
  {
    LocFits(h, |table|, e, k);
    if k == 8 then None
    else if table[Loc(h, |table|, e, k)] == e then Some(Loc(h, |table|, e, k))
    else FindFrom(h, table, e, k + 1)
  }

  function Find(h: Hashes, table: seq<Element>, e: Element): Option<nat>
    requires |table| > 0
  {
    FindFrom(h, table, e, 0)
  }

  ghost predicate IsLocation(h: Hashes, size: nat, e: Element, i: nat) {
    exists k :: 0 <= k < 8 && Loc(h, size, e, k) == i
  }

  lemma {:induction false} FindIsLocation(h: Hashes, table: seq<Element>, e: Element, k: nat)
    requires |table| > 0 && k <= 8 && FindFrom(h, table, e, k).Some?
    ensures var i := FindFrom(h, table, e, k).value; i < |table| && table[i] == e && IsLocation(h, |table|, e, i)
    decreases 8 - k
  {
    if k < 8 {
      LocFits(h, |table|, e, k);
      if table[Loc(h, |table|, e, k)] != e { FindIsLocation(h, table, e, k + 1); }
    }
  }

  /** Writing another element somewhere else does not disturb a search. */
  lemma {:induction false} FindUndisturbed(h: Hashes, table: seq<Element>, e: Element, k: nat, p: nat, y: Element)
    requires |table| > 0 && k <= 8 && p < |table| && y != e
    requires FindFrom(h, table, e, k).Some? && FindFrom(h, table, e, k).value != p
    ensures FindFrom(h, table[p := y], e, k) == FindFrom(h, table, e, k)
    decreases 8 - k
  {
    LocFits(h, |table|, e, k);
    if k < 8 && table[Loc(h, |table|, e, k)] != e { FindUndisturbed(h, table, e, k + 1, p, y); }
  }

  /** A search finds what was written to the m-th location when the locations before it hold other elements. */
  lemma {:induction false} FindWritten(h: Hashes, table: seq<Element>, y: Element, k: nat, m: nat)
    requires |table| > 0 && k <= m < 8
    requires forall j :: k <= j < m ==> Elsewhere(h, table, y, j)
    ensures Loc(h, |table|, y, m) < |table|
    ensures FindFrom(h, table[Loc(h, |table|, y, m) := y], y, k) == Some(Loc(h, |table|, y, m))
    decreases m - k
  {
    LocFits(h, |table|, y, m);
    LocFits(h, |table|, y, k);
    if k < m {
      assert Elsewhere(h, table, y, k);
      FindWritten(h, table, y, k + 1, m);
    }
  }

  ghost predicate Elsewhere(h: Hashes, table: seq<Element>, y: Element, j: nat) {
    Loc(h, |table|, y, j) < |table| && table[Loc(h, |table|, y, j)] != y
  }

  // ----- Live elements -----

  ghost function Live(c: Cells): set<Element>
    requires Shaped(c)
  {
    set i | 0 <= i < |c.table| && c.kept[i] :: c.table[i]
  }

  /** The live elements of the current epoch. */
  ghost function Fresh(c: Cells): set<Element>
    requires Shaped(c)
  {
    set i | 0 <= i < |c.table| && c.kept[i] && c.recent[i] :: c.table[i]
  }

  ghost predicate Consistent(h: Hashes, c: Cells)
    requires Shaped(c)
  {
    forall i :: 0 <= i < |c.table| && c.kept[i] ==> Find(h, c.table, c.table[i]) == Some(i)
  }

  /** What consistency means: live cells are at a location of their element, and no element is live twice. */
  lemma ConsistentMeans(h: Hashes, c: Cells)
    requires Shaped(c) && Consistent(h, c)
    ensures forall i :: 0 <= i < |c.table| && c.kept[i] ==> IsLocation(h, |c.table|, c.table[i], i)
    ensures forall i, j :: 0 <= i < j < |c.table| && c.kept[i] && c.kept[j] ==> c.table[i] != c.table[j]
    ensures forall e :: e in Live(c) ==> Find(h, c.table, e).Some? && c.kept[Find(h, c.table, e).value]
  {
    forall i | 0 <= i < |c.table| && c.kept[i] ensures IsLocation(h, |c.table|, c.table[i], i) {
      FindIsLocation(h, c.table, c.table[i], 0);
    }
  }

  /** Put y into cell p with a flag. */
  function Put(c: Cells, p: nat, y: Element, recent: bool): Cells
    requires Shaped(c) && p < |c.table|
  {
    Cells(c.table[p := y], c.kept[p := true], c.recent[p := recent])
  }

  /** The m-th location is the first that is free to overwrite, or all before it are live. */
  lemma PutConsistent(h: Hashes, c: Cells, y: Element, m: nat, recent: bool)
    requires Shaped(c) && Consistent(h, c) && y !in Live(c) && m < 8
    requires forall j :: 0 <= j < m ==> KeptLoc(h, c, y, j)
    ensures Loc(h, |c.table|, y, m) < |c.table|
    ensures Consistent(h, Put(c, Loc(h, |c.table|, y, m), y, recent))
  {
    LocFits(h, |c.table|, y, m);
    var p := Loc(h, |c.table|, y, m);
    var c' := Put(c, p, y, recent);
    forall j | 0 <= j < m ensures Elsewhere(h, c.table, y, j) { NotThere(h, c, y, j); }
    FindWritten(h, c.table, y, 0, m);
    forall i | 0 <= i < |c'.table| && c'.kept[i] ensures Find(h, c'.table, c'.table[i]) == Some(i) {
      if i != p {
        assert c.table[i] in Live(c);
        FindUndisturbed(h, c.table, c.table[i], 0, p, y);
      }
    }
  }

  ghost predicate KeptLoc(h: Hashes, c: Cells, y: Element, j: nat)
    requires Shaped(c)
  {
    Loc(h, |c.table|, y, j) < |c.table| && c.kept[Loc(h, |c.table|, y, j)]
  }

  lemma NotThere(h: Hashes, c: Cells, y: Element, j: nat)
    requires Shaped(c) && y !in Live(c) && KeptLoc(h, c, y, j)
    ensures Elsewhere(h, c.table, y, j)
  {
    var i := Loc(h, |c.table|, y, j);
    assert c.table[i] in Live(c);
  }

  /** What the live set becomes: the cell's former element goes if it was live, y comes. */
  lemma PutLive(h: Hashes, c: Cells, p: nat, y: Element, recent: bool)
    requires Shaped(c) && Consistent(h, c) && p < |c.table|
    ensures Live(Put(c, p, y, recent)) == (if c.kept[p] then Live(c) - {c.table[p]} else Live(c)) + {y}
  {
    var c' := Put(c, p, y, recent);
    forall e ensures e in Live(c') <==> e in (if c.kept[p] then Live(c) - {c.table[p]} else Live(c)) + {y} {
      if e in Live(c') && e != y {
        var i :| 0 <= i < |c'.table| && c'.kept[i] && c'.table[i] == e;
        assert c.table[i] in Live(c);
      }
      if e in Live(c) && (c.kept[p] ==> e != c.table[p]) {
        var i :| 0 <= i < |c.table| && c.kept[i] && c.table[i] == e;
        assert c'.table[i] in Live(c');
      }
      assert c'.table[p] == y;
    }
  }

  /** The same for those of the current epoch. */
  lemma PutFresh(h: Hashes, c: Cells, p: nat, y: Element, recent: bool)
    requires Shaped(c) && Consistent(h, c) && p < |c.table| && (y !in Live(c) || (recent && y == c.table[p]))
    ensures Fresh(Put(c, p, y, recent)) ==
              (if c.kept[p] then Fresh(c) - {c.table[p]} else Fresh(c)) + if recent then {y} else {}
  {
    var c' := Put(c, p, y, recent);
    var gone, come := if c.kept[p] then {c.table[p]} else {}, if recent then {y} else {};
    forall e ensures e in Fresh(c') <==> e in Fresh(c) - gone + come {
      if e in Fresh(c') && e !in come {
        var i :| 0 <= i < |c'.table| && c'.kept[i] && c'.recent[i] && c'.table[i] == e;
        assert c.table[i] in Fresh(c);
      }
      if e in Fresh(c) && e !in gone {
        var i :| 0 <= i < |c.table| && c.kept[i] && c.recent[i] && c.table[i] == e;
        assert c'.table[i] in Fresh(c');
      }
      assert recent ==> c'.table[p] in Fresh(c');
    }
  }

  /** Marking a cell as collected. */
  function Drop(c: Cells, p: nat): Cells
    requires Shaped(c) && p < |c.table|
  {
    c.(kept := c.kept[p := false])
  }

  /** When a search for e ends at p, dropping p removes e from the live set and nothing else. */
  lemma DropLive(h: Hashes, c: Cells, e: Element)
    requires Shaped(c) && Consistent(h, c)
    ensures Find(h, c.table, e) == None ==> e !in Live(c)
    ensures Find(h, c.table, e).Some? ==>
              var p := Find(h, c.table, e).value;
              p < |c.table| && Consistent(h, Drop(c, p)) && Live(Drop(c, p)) == Live(c) - {e}
  {
    ConsistentMeans(h, c);
    if Find(h, c.table, e).Some? {
      FindIsLocation(h, c.table, e, 0);
      var p := Find(h, c.table, e).value;
      var c' := Drop(c, p);
      forall x | x in Live(c) && x != e ensures x in Live(c') {
        var i :| 0 <= i < |c.table| && c.kept[i] && c.table[i] == x;
        assert c'.table[i] in Live(c');
      }
      forall x | x in Live(c') ensures x in Live(c) - {e} {
        var i :| 0 <= i < |c'.table| && c'.kept[i] && c'.table[i] == x;
        assert c.table[i] in Live(c);
      }
    }
  }

  lemma DropFresh(h: Hashes, c: Cells, p: nat)
    requires Shaped(c) && Consistent(h, c) && p < |c.table| && Find(h, c.table, c.table[p]) == Some(p)
    ensures Fresh(Drop(c, p)) == Fresh(c) - {c.table[p]}
  {
    var c' := Drop(c, p);
    forall x | x in Fresh(c) && x != c.table[p] ensures x in Fresh(c') {
      var i :| 0 <= i < |c.table| && c.kept[i] && c.recent[i] && c.table[i] == x;
      assert c'.table[i] in Fresh(c');
    }
    forall x | x in Fresh(c') ensures x in Fresh(c) - {c.table[p]} {
      var i :| 0 <= i < |c'.table| && c'.kept[i] && c'.recent[i] && c'.table[i] == x;
      assert c.table[i] in Fresh(c);
    }
  }

  /** Reviving the cell where a search for e ends makes e live, if it was not, and changes nothing else. */
  lemma ReviveLive(h: Hashes, c: Cells, e: Element)
    requires Shaped(c) && Consistent(h, c) && Find(h, c.table, e).Some?
    ensures var p := Find(h, c.table, e).value;
            && p < |c.table| && c.table[p] == e
            && Consistent(h, Put(c, p, e, true)) && Live(Put(c, p, e, true)) == Live(c) + {e}
            && Fresh(Put(c, p, e, true)) == Fresh(c) + {e}
  {
    FindIsLocation(h, c.table, e, 0);
    var p := Find(h, c.table, e).value;
    assert c.table[p := e] == c.table;
    PutLive(h, c, p, e, true);
    PutFresh(h, c, p, e, true);
    if c.kept[p] { assert c.table[p] in Live(c); }
  }

  // ----- Epochs -----

  function Bit(b: bool): nat { if b then 1 else 0 }

  /** Live cells of the current epoch, or of the old one, before the n-th. */
  function CountUpTo(c: Cells, current: bool, n: nat): nat
    requires n <= |c.kept| == |c.recent|
  {
    if n == 0 then 0 else CountUpTo(c, current, n - 1) + Bit(c.kept[n - 1] && c.recent[n - 1] == current)
  }

  function Current(c: Cells): nat
    requires |c.kept| == |c.recent|
  {
    CountUpTo(c, true, |c.kept|)
  }

  function Aged(c: Cells): nat
    requires |c.kept| == |c.recent|
  {
    CountUpTo(c, false, |c.kept|)
  }

  lemma {:induction false} CountUpdate(c: Cells, current: bool, n: nat, p: nat, c': Cells, keep: bool, recent: bool)
    requires n <= |c.kept| == |c.recent| && p < |c.kept|
    requires c'.kept == c.kept[p := keep] && c'.recent == c.recent[p := recent]
    ensures CountUpTo(c', current, n) ==
              CountUpTo(c, current, n) +
                (if p < n then Bit(keep && recent == current) - Bit(c.kept[p] && c.recent[p] == current) else 0)
  {
    if n > 0 { CountUpdate(c, current, n - 1, p, c', keep, recent); }
  }

  /** Putting an element into a cell: how the two epochs change. */
  lemma PutCounts(c: Cells, p: nat, y: Element, recent: bool)
    requires Shaped(c) && p < |c.table|
    ensures Current(Put(c, p, y, recent)) == Current(c) + Bit(recent) - Bit(c.kept[p] && c.recent[p])
    ensures Aged(Put(c, p, y, recent)) == Aged(c) + Bit(!recent) - Bit(c.kept[p] && !c.recent[p])
  {
    CountUpdate(c, true, |c.kept|, p, Put(c, p, y, recent), true, recent);
    CountUpdate(c, false, |c.kept|, p, Put(c, p, y, recent), true, recent);
  }

  lemma DropCounts(c: Cells, p: nat)
    requires Shaped(c) && p < |c.table|
    ensures Current(Drop(c, p)) <= Current(c) && Aged(Drop(c, p)) <= Aged(c)
  {
    assert c.recent == c.recent[p := c.recent[p]];
    CountUpdate(c, true, |c.kept|, p, Drop(c, p), false, c.recent[p]);
    CountUpdate(c, false, |c.kept|, p, Drop(c, p), false, c.recent[p]);
  }

  /** A new epoch: the old one is collected and the current one grows old. */
  function Demoted(c: Cells): Cells
    requires Shaped(c)
  {
    Cells(c.table,
          seq(|c.kept|, i requires 0 <= i < |c.kept| => c.kept[i] && c.recent[i]),
          seq(|c.kept|, i requires 0 <= i < |c.kept| => false))
  }

  lemma {:induction false} DemotedCounts(c: Cells, n: nat)
    requires Shaped(c) && n <= |c.kept|
    ensures CountUpTo(Demoted(c), true, n) == 0 && CountUpTo(Demoted(c), false, n) == CountUpTo(c, true, n)
  {
    if n > 0 { DemotedCounts(c, n - 1); }
  }

  lemma DemotedConsistent(h: Hashes, c: Cells)
    requires Shaped(c) && Consistent(h, c)
    ensures Shaped(Demoted(c)) && Consistent(h, Demoted(c))
    ensures Live(Demoted(c)) == Fresh(c) && Fresh(Demoted(c)) == {}
  {
    var d := Demoted(c);
    forall i | 0 <= i < |d.table| && d.kept[i] ensures Find(h, d.table, d.table[i]) == Some(i) {
      assert Find(h, c.table, c.table[i]) == Some(i);
    }
    assert forall i :: 0 <= i < |c.table| ==> d.kept[i] == (c.kept[i] && c.recent[i]);
  }

  lemma FreshIsLive(c: Cells)
    requires Shaped(c)
    ensures Fresh(c) <= Live(c)
  {
  }

  /** The number of live elements is that of the two epochs together. */
  lemma {:induction false} LiveCount(h: Hashes, c: Cells, n: nat)
    requires Shaped(c) && Consistent(h, c) && n <= |c.table|
    ensures |LiveUpTo(c, n)| == CountUpTo(c, true, n) + CountUpTo(c, false, n)
  {
    hide Consistent;
    if n > 0 {
      LiveCount(h, c, n - 1);
      if c.kept[n - 1] {
        assert LiveUpTo(c, n) == LiveUpTo(c, n - 1) + {c.table[n - 1]};
        NotAmongBefore(h, c, n - 1);
      } else {
        assert LiveUpTo(c, n) == LiveUpTo(c, n - 1);
      }
    }
  }

  /** The live cells of the current epoch are as many as its live elements. */
  lemma {:induction false} FreshCount(h: Hashes, c: Cells, n: nat)
    requires Shaped(c) && Consistent(h, c) && n <= |c.table|
    ensures |FreshUpTo(c, n)| == CountUpTo(c, true, n)
  {
    hide Consistent;
    if n > 0 {
      FreshCount(h, c, n - 1);
      if c.kept[n - 1] && c.recent[n - 1] {
        assert FreshUpTo(c, n) == FreshUpTo(c, n - 1) + {c.table[n - 1]};
        NotAmongBefore(h, c, n - 1);
        assert FreshUpTo(c, n - 1) <= LiveUpTo(c, n - 1);
      } else {
        assert FreshUpTo(c, n) == FreshUpTo(c, n - 1);
      }
    }
  }

  ghost function FreshUpTo(c: Cells, n: nat): set<Element>
    requires Shaped(c) && n <= |c.table|
  {
    set i | 0 <= i < n && c.kept[i] && c.recent[i] :: c.table[i]
  }

  lemma NotAmongBefore(h: Hashes, c: Cells, n: nat)
    requires Shaped(c) && Consistent(h, c) && n < |c.table| && c.kept[n]
    ensures c.table[n] !in LiveUpTo(c, n)
  {
    ConsistentMeans(h, c);
  }

  ghost function LiveUpTo(c: Cells, n: nat): set<Element>
    requires Shaped(c) && n <= |c.table|
  {
    set i | 0 <= i < n && c.kept[i] :: c.table[i]
  }

  // ----- The epoch counter -----

  function Slack(epochSize: nat): nat { Max(1, epochSize / 16) }

  /** The bounds that every run keeps. */
  ghost predicate Bounded(c: Cells, counter: nat, epochSize: nat)
    requires Shaped(c)
  {
    && Current(c) + counter <= epochSize + Slack(epochSize)
    && Aged(c) <= epochSize + Slack(epochSize)
  }

  lemma TotalBounded(h: Hashes, c: Cells, counter: nat, epochSize: nat)
    requires Shaped(c) && Consistent(h, c) && Bounded(c, counter, epochSize)
    ensures |Live(c)| <= 2 * (epochSize + Slack(epochSize))
  {
    LiveCount(h, c, |c.table|);
    assert Live(c) == LiveUpTo(c, |c.table|);
  }

  /** The check before an insertion: count down, or start a new epoch, or set the counter again. */
  function Checked(c: Cells, counter: nat, epochSize: nat): (Cells, nat)
    requires Shaped(c)
  {
    if counter != 0 then (c, counter - 1)
    else if Current(c) >= epochSize then (Demoted(c), epochSize)
    else (c, Max(1, Max(epochSize / 16, epochSize - Current(c))))
  }

  /** When the counter has run out and the current epoch is full, exactly its elements stay live, and none is of the
    * new epoch; otherwise nothing changes.
    */
  lemma CheckedLive(h: Hashes, c: Cells, counter: nat, epochSize: nat)
    requires Shaped(c) && Consistent(h, c)
    ensures var (c', counter') := Checked(c, counter, epochSize);
            var ends := counter == 0 && |Fresh(c)| >= epochSize;
            && Shaped(c') && Live(c') == (if ends then Fresh(c) else Live(c))
            && Fresh(c') == (if ends then {} else Fresh(c))
            && Current(c) == |Fresh(c)|
  {
    FreshCount(h, c, |c.table|);
    assert Fresh(c) == FreshUpTo(c, |c.table|);
    if counter == 0 && Current(c) >= epochSize { DemotedConsistent(h, c); }
  }

  /** The check leaves room for one more element of the current epoch. */
  lemma CheckedBounded(h: Hashes, c: Cells, counter: nat, epochSize: nat)
    requires Shaped(c) && Consistent(h, c) && Bounded(c, counter, epochSize)
    ensures var (c', counter') := Checked(c, counter, epochSize);
            && Shaped(c') && Consistent(h, c') && |c'.table| == |c.table|
            && Current(c') + 1 + counter' <= epochSize + Slack(epochSize)
            && Aged(c') <= epochSize + Slack(epochSize)
  {
    if counter == 0 && Current(c) >= epochSize {
      DemotedConsistent(h, c);
      DemotedCounts(c, |c.kept|);
    }
  }
}
