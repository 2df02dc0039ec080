/** Numbers as 32-bit limbs, least significant first (src/arith_uint256.h:24-60). */
module Limbs {
  import opened Numbers

  const BASE: nat := 0x1_0000_0000

  type Limb = x: nat | x < 0x1_0000_0000

  lemma Pow2At32()
    ensures Pow2(32) == BASE
  {
    assert Pow2(8) == 256;
    Pow2Add(8, 8);
    assert Pow2(16) == 65536;
    Pow2Add(16, 16);
  }

  // ----- Values -----

  /** The weight of the i-th limb. */
  function Weight(i: nat): nat { Pow2(32 * i) }

  function Val(s: seq<Limb>): nat {
    if s == [] then 0 else Val(s[..|s| - 1]) + s[|s| - 1] * Weight(|s| - 1)
  }

  lemma WeightStep(i: nat)
    ensures Weight(i + 1) == BASE * Weight(i)
  {
    Pow2Add(32 * i, 32);
    Pow2At32();
  }

  lemma WeightAdd(i: nat, j: nat)
    ensures Weight(i + j) == Weight(i) * Weight(j)
  {
    Pow2Add(32 * i, 32 * j);
    assert 32 * (i + j) == 32 * i + 32 * j;
  }

  lemma ValPrefix(s: seq<Limb>, i: nat)
    requires i < |s|
    ensures Val(s[..i + 1]) == Val(s[..i]) + s[i] * Weight(i)
  {
    assert s[..i + 1][..i] == s[..i];
  }

  lemma {:induction false} ValBound(s: seq<Limb>)
    ensures Val(s) < Weight(|s|)
    decreases |s|
  {
    if s != [] {
      var n := |s| - 1;
      ValBound(s[..n]);
      WeightStep(n);
      assert s[n] * Weight(n) <= (BASE - 1) * Weight(n) by { Times(s[n], BASE - 1, Weight(n)); }
      assert (BASE - 1) * Weight(n) == BASE * Weight(n) - Weight(n);
    }
  }

  lemma {:induction false} ValConcat(s: seq<Limb>, t: seq<Limb>)
    ensures Val(s + t) == Val(s) + Weight(|s|) * Val(t)
    decreases |t|
  {
    if t == [] {
      assert s + t == s;
    } else {
      var m := |t| - 1;
      ValConcat(s, t[..m]);
      assert (s + t)[..|s| + m] == s + t[..m];
      WeightAdd(|s|, m);
      Regroup(t[m], Weight(|s|), Weight(m), Val(t[..m]));
    }
  }

  lemma Regroup(x: nat, w: nat, v: nat, u: nat)
    ensures x * (w * v) == w * (x * v)
    ensures w * (u + x * v) == w * u + w * (x * v)
  {
    assert x * (w * v) == (x * w) * v == (w * x) * v == w * (x * v);
  }

  lemma {:induction false} ValZeros(s: seq<Limb>)
    requires forall i :: 0 <= i < |s| ==> s[i] == 0
    ensures Val(s) == 0
    decreases |s|
  {
    if s != [] { ValZeros(s[..|s| - 1]); }
  }

  /** What a sum of limbs leaves, and what it carries. */
  lemma Carry(n: nat, w: nat)
    ensures n % BASE * w + n / BASE * (BASE * w) == n * w
  {
    assert n == n % BASE + n / BASE * BASE;
    var q, r := n / BASE, n % BASE;
    assert (r + q * BASE) * w == r * w + (q * BASE) * w;
    assert (q * BASE) * w == q * (BASE * w);
  }

  // ----- Bitwise or -----

  function Or(x: nat, y: nat): nat
    decreases x + y
  {
    if x == 0 then y else if y == 0 then x
    else (if x % 2 == 1 || y % 2 == 1 then 1 else 0) + 2 * Or(x / 2, y / 2)
  }

  /** On numbers without a common bit, in particular a small one and a multiple of a power of two, it adds. */
  lemma {:induction false} OrAdds(x: nat, m: nat, k: nat)
    requires x < Pow2(k)
    ensures Or(x, m * Pow2(k)) == x + m * Pow2(k) && Or(m * Pow2(k), x) == x + m * Pow2(k)
    decreases k
  {
    if k > 0 {
      assert m * Pow2(k) == 2 * (m * Pow2(k - 1)) by { Swap3(m, Pow2(k - 1)); }
      OrAdds(x / 2, m, k - 1);
      var y := m * Pow2(k);
      assert y / 2 == m * Pow2(k - 1) && y % 2 == 0;
      OrStep(x, y);
    } else {
      assert x == 0;
    }
  }

  /** Setting a bit that is not set adds it. */
  lemma {:induction false} OrSetsBit(low: nat, high: nat, k: nat)
    requires low < Pow2(k)
    ensures Or(low + high * Pow2(k + 1), Pow2(k)) == low + high * Pow2(k + 1) + Pow2(k)
    decreases k
  {
    hide Pow2, Or;
    var x, y := low + high * Pow2(k + 1), Pow2(k);
    Pow2Step(k);
    if k > 0 {
      Pow2Step(k - 1);
      Swap3(high, Pow2(k));
      OrSetsBit(low / 2, high, k - 1);
      DivMod(x, 2, low / 2 + high * Pow2(k), low % 2);
      OrStep(x, y);
    } else {
      Pow2Zero();
      OrOne(high);
    }
  }

  lemma OrNothing(x: nat)
    ensures Or(x, 0) == x
  {
  }

  lemma OrOne(high: nat)
    ensures Or(high * 2, 1) == high * 2 + 1
  {
    assert Or(high * 2 / 2, 0) == high;
  }

  lemma OrStep(x: nat, y: nat)
    requires y % 2 == 0
    ensures Or(x, y) == x % 2 + 2 * Or(x / 2, y / 2) && Or(y, x) == x % 2 + 2 * Or(y / 2, x / 2)
  {
  }
}
