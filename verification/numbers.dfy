/** Integers: products, quotients, powers; and sizes of sets. */
module Numbers {

  function Max(a: int, b: int): int { if a < b then b else a }

  function Min(a: int, b: int): int { if a < b then a else b }

  lemma Times(a: int, b: int, w: nat)
    requires a <= b
    ensures a * w <= b * w
  {
  }

  lemma Spread(x: int, y: int, z: int, w: nat)
    ensures (x + y + z) * w == x * w + y * w + z * w
  {
  }

  lemma Unique(d: nat, q: int, r: nat, q': int, r': nat)
    requires r < d && r' < d && q * d + r == q' * d + r'
    ensures q == q' && r == r'
  {
    if q < q' {
      Times(q + 1, q', d);
      Spread(q, 1, 0, d);
      assert false;
    } else if q' < q {
      Times(q' + 1, q, d);
      Spread(q', 1, 0, d);
      assert false;
    }
  }

  /** What q and r must be. */
  lemma DivMod(x: int, d: nat, q: int, r: nat)
    requires r < d && x == q * d + r
    ensures x / d == q && x % d == r
  {
    Unique(d, q, r, x / d, x % d);
  }

  // ----- Powers -----

  function Pow(b: nat, e: nat): nat {
    if e == 0 then 1 else b * Pow(b, e - 1)
  }

  lemma {:induction false} PowAdd(b: nat, d: nat, e: nat)
    ensures Pow(b, d + e) == Pow(b, d) * Pow(b, e)
    decreases d
  {
    if d > 0 {
      PowAdd(b, d - 1, e);
      assert Pow(b, d + e) == b * Pow(b, d - 1 + e);
      assert (b * Pow(b, d - 1)) * Pow(b, e) == b * (Pow(b, d - 1) * Pow(b, e));
    }
  }

  lemma {:induction false} PowMul(b: nat, d: nat, e: nat)
    ensures Pow(b, d * e) == Pow(Pow(b, d), e)
    decreases e
  {
    if e > 0 {
      PowMul(b, d, e - 1);
      assert d * e == d + d * (e - 1);
      PowAdd(b, d, d * (e - 1));
    }
  }

  lemma {:induction false} PowPositive(b: nat, e: nat)
    requires b > 0
    ensures Pow(b, e) > 0
  {
    if e > 0 { PowPositive(b, e - 1); }
  }

  lemma PowZero(b: nat)
    ensures Pow(b, 0) == 1
  {
  }

  lemma PowStep(b: nat, e: nat)
    ensures Pow(b, e + 1) == b * Pow(b, e)
  {
  }

  lemma Product(a: nat, b: nat, c: nat, d: nat)
    requires a <= b && c <= d
    ensures a * c <= b * d
  {
    assert a * c <= b * c;
    assert b * c <= b * d;
  }

  lemma {:induction false} PowBase(a: nat, b: nat, e: nat)
    requires a <= b
    ensures Pow(a, e) <= Pow(b, e)
  {
    if e > 0 {
      PowBase(a, b, e - 1);
      Product(a, b, Pow(a, e - 1), Pow(b, e - 1));
    }
  }

  lemma {:induction false} PowGrows(b: nat, d: nat, e: nat)
    requires b > 0 && d <= e
    ensures Pow(b, d) <= Pow(b, e)
    decreases e
  {
    hide Pow;
    if d < e {
      PowGrows(b, d, e - 1);
      PowStep(b, e - 1);
      Times(1, b, Pow(b, e - 1));
    }
  }

  /** Taking a root: powers are ordered as their bases. */
  lemma {:induction false} PowRoot(a: nat, b: nat, e: nat)
    requires e > 0 && Pow(a, e) <= Pow(b, e)
    ensures a <= b
  {
    if a > b {
      PowPositiveOrZero(b, e);
      PowBase(b, a, e - 1);
      PowPositive(a, e - 1);
      Strictly(b, a, Pow(b, e - 1), Pow(a, e - 1));
      assert false;
    }
  }

  lemma PowPositiveOrZero(b: nat, e: nat)
    ensures b == 0 || Pow(b, e) > 0
  {
    if b > 0 { PowPositive(b, e); }
  }

  lemma Strictly(a: nat, b: nat, c: nat, d: nat)
    requires a < b && c <= d && d > 0
    ensures a * c < b * d
  {
    assert a * c <= a * d;
    assert a * d < b * d;
  }

  function Pow2(n: nat): (r: nat)
    ensures r > 0
  {
    PowPositive(2, n);
    Pow(2, n)
  }

  lemma Pow2Zero()
    ensures Pow2(0) == 1
  {
  }

  lemma Pow2Step(n: nat)
    ensures Pow2(n + 1) == 2 * Pow2(n)
  {
  }

  lemma Pow2Add(a: nat, b: nat)
    ensures Pow2(a + b) == Pow2(a) * Pow2(b)
  {
    PowAdd(2, a, b);
  }

  lemma Pow2Monotone(a: nat, b: nat)
    requires a <= b
    ensures Pow2(a) <= Pow2(b)
  {
    PowGrows(2, a, b);
  }

  lemma Swap3(x: nat, y: nat)
    ensures x * (2 * y) == 2 * (x * y)
  {
  }

  // ----- Sizes -----

  const TWO32: nat := 0x1_0000_0000

  /** A list without repetition has as many elements as the set it lists. */
  lemma {:induction false} ListSize<X>(xs: seq<X>, items: set<X>)
    requires forall i, j :: 0 <= i < j < |xs| ==> xs[i] != xs[j]
    requires forall i :: 0 <= i < |xs| ==> xs[i] in items
    requires forall x :: x in items ==> x in xs
    ensures |items| == |xs|
    decreases |xs|
  {
    if xs == [] {
      assert items == {};
    } else {
      var last := xs[|xs| - 1];
      var init := xs[..|xs| - 1];
      forall x | x in items - {last} ensures x in init {
        var i :| 0 <= i < |xs| && xs[i] == x;
        assert init[i] == x;
      }
      ListSize(init, items - {last});
    }
  }

  lemma SubsetSize<X>(x: set<X>, y: set<X>)
    requires x <= y
    ensures |x| <= |y|
  {
    assert y == x + (y - x);
    assert |y| == |x| + |y - x|;
  }
}
