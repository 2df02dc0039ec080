/** 256-bit unsigned integers in eight limbs (src/arith_uint256.h, src/arith_uint256.cpp). Each operation is
  * tied to integer arithmetic modulo 2^256.
  */
module Arith {
  import opened Limbs
  import opened Numbers

  const WIDTH: nat := 8

  /** 2^256. */
  ghost const MODULUS: nat := Weight(8)

  class Uint256 {
    const pn: array<Limb>

    ghost predicate Valid() { pn.Length == WIDTH }

    ghost function Value(): nat
      reads pn
    {
      Val(pn[..])
    }

    /** From a 64-bit number. */
    constructor (b: nat)
      requires b < BASE * BASE
      ensures Valid() && fresh(pn) && Value() == b
    {
      pn := new Limb[WIDTH](_ => 0);
      new;
      pn[0] := b % BASE;
      pn[1] := b / BASE;
      LowLimbs(pn[..], b);
    }

    /** Assignment of a 64-bit number. */
    method Assign(b: nat)
      requires Valid() && b < BASE * BASE
      modifies pn
      ensures Value() == b
    {
      pn[0] := b % BASE;
      pn[1] := b / BASE;
      for i := 2 to WIDTH
        invariant pn[0] == b % BASE && pn[1] == b / BASE
        invariant forall j :: 2 <= j < i ==> pn[j] == 0
      {
        pn[i] := 0;
      }
      LowLimbs(pn[..], b);
    }

    /** Comparison with zero. */
    method IsZero() returns (zero: bool)
      requires Valid()
      ensures zero <==> Value() == 0
    {
      for i := 0 to WIDTH
        invariant forall j :: 0 <= j < i ==> pn[j] == 0
      {
        if pn[i] != 0 {
          NotZero(pn[..], i);
          return false;
        }
      }
      ValZeros(pn[..]);
      return true;
    }

    /** A copy. */
    constructor Copy(b: Uint256)
      requires b.Valid()
      ensures Valid() && fresh(pn) && pn[..] == b.pn[..] && Value() == b.Value()
    {
      pn := new Limb[WIDTH](_ => 0);
      new;
      for i := 0 to WIDTH
        invariant pn[..i] == b.pn[..i]
        invariant b.pn[..] == old(b.pn[..])
      {
        pn[i] := b.pn[i];
      }
      assert pn[..] == pn[..8] && b.pn[..] == b.pn[..8];
    }

    /** operator+=, with the carry. */
    method AddAssign(b: seq<Limb>)
      requires Valid() && |b| == WIDTH
      modifies pn
      ensures Value() == (old(Value()) + Val(b)) % MODULUS
    {
      hide Val, Weight, Pow2;
      ghost var a := pn[..];
      var carry := 0;
      ValNone(a, b);
      for i := 0 to WIDTH
        invariant 0 <= carry <= 1
        invariant forall j :: i <= j < WIDTH ==> pn[j] == a[j]
        invariant Val(pn[..i]) + carry * Weight(i) == Val(a[..i]) + Val(b[..i])
      {
        var n := carry + pn[i] + b[i];
        ghost var before, carried := pn[..i], carry;
        pn[i] := n % BASE;
        carry := n / BASE;
        AddStep(before, pn[..i + 1], a, b, i, carried);
      }
      assert pn[..] == pn[..8] && a == a[..8] && b == b[..8];
      ValBound(pn[..]);
      Remainder(Val(a) + Val(b), Val(pn[..]), carry, MODULUS);
    }

    /** operator++. */
    method Increment()
      requires Valid()
      modifies pn
      ensures Value() == (old(Value()) + 1) % MODULUS
    {
      hide Val, Weight, Pow2;
      ghost var a := pn[..];
      ValNone(a, a);
      var i := 0;
      while true
        invariant 0 <= i < WIDTH
        invariant forall j :: i <= j < WIDTH ==> pn[j] == a[j]
        invariant Val(pn[..i]) + Weight(i) == Val(a[..i]) + 1
        decreases WIDTH - i
      {
        ghost var before := pn[..i];
        var limb: nat := pn[i];
        pn[i] := (limb + 1) % BASE;
        IncrementStep(before, pn[..i + 1], a, i);
        if pn[i] != 0 {
          SameAbove(pn[..], a, i + 1);
          ValBound(pn[..]);
          Remainder(Val(a) + 1, Val(pn[..]), 0, MODULUS);
          return;
        }
        if i == WIDTH - 1 {
          assert pn[..] == pn[..8] && a == a[..8];
          ValBound(pn[..]);
          Remainder(Val(a) + 1, Val(pn[..]), 1, MODULUS);
          return;
        }
        i := i + 1;
      }
    }

    /** operator~. */
    method Complement() returns (r: Uint256)
      requires Valid()
      ensures r.Valid() && fresh(r) && fresh(r.pn) && r.Value() == MODULUS - 1 - Value()
    {
      hide Val, Weight, Pow2;
      r := new Uint256(0);
      ValNone(pn[..], pn[..]);
      for i := 0 to WIDTH
        invariant r.Valid() && fresh(r) && fresh(r.pn) && pn[..] == old(pn[..])
        invariant Val(r.pn[..i]) + Val(pn[..i]) + 1 == Weight(i)
      {
        ghost var before := r.pn[..i];
        r.pn[i] := BASE - 1 - pn[i];
        ComplementStep(before, r.pn[..i + 1], pn[..], i);
      }
      assert pn[..] == pn[..8] && r.pn[..] == r.pn[..8];
    }

    /** operator-. */
    method Negate() returns (r: Uint256)
      requires Valid()
      ensures r.Valid() && fresh(r) && fresh(r.pn) && r.Value() == (MODULUS - Value()) % MODULUS
    {
      r := Complement();
      r.Increment();
    }

    /** operator-=: add the negative. */
    method SubAssign(b: Uint256)
      requires Valid() && b.Valid()
      modifies pn
      ensures Value() == (old(Value()) - old(b.Value())) % MODULUS
    {
      hide Val, Weight, Pow2;
      var minus := b.Negate();
      ValBound(pn[..]);
      ValBound(b.pn[..]);
      Subtract(Value(), b.Value(), MODULUS);
      AddAssign(minus.pn[..]);
    }

    /** CompareTo. */
    method CompareTo(b: Uint256) returns (r: int)
      requires Valid() && b.Valid()
      ensures r == if Value() < b.Value() then -1 else if Value() > b.Value() then 1 else 0
    {
      hide Val, Weight, Pow2;
      var i := WIDTH;
      while i > 0
        invariant 0 <= i <= WIDTH && pn[i..] == b.pn[i..]
      {
        i := i - 1;
        if pn[i] != b.pn[i] {
          TopDiffers(pn[..], b.pn[..], i);
        }
        if pn[i] < b.pn[i] {
          return -1;
        }
        if pn[i] > b.pn[i] {
          return 1;
        }
        assert pn[i..] == [pn[i]] + pn[i + 1..] && b.pn[i..] == [b.pn[i]] + b.pn[i + 1..];
      }
      assert pn[..] == pn[0..] && b.pn[..] == b.pn[0..];
      return 0;
    }

    /** Clear all limbs. */
    method Zero()
      requires Valid()
      modifies pn
      ensures forall j :: 0 <= j < WIDTH ==> pn[j] == 0
      ensures Value() == 0
    {
      for i := 0 to WIDTH
        invariant forall j :: 0 <= j < i ==> pn[j] == 0
      {
        pn[i] := 0;
      }
      ValZeros(pn[..]);
    }

    /** operator<<=. */
    method ShiftLeft(shift: nat)
      requires Valid()
      modifies pn
      ensures Value() == old(Value()) * Pow2(shift) % MODULUS
    {
      hide Val, Weight, Pow2, Or;
      var a := pn[..];
      Zero();
      var k := shift / 32;
      var s := shift % 32;
      if k < WIDTH { ShlStart(a, pn[..], k, s); }
      for i := 0 to WIDTH
        invariant k >= WIDTH ==> forall j :: 0 <= j < WIDTH ==> pn[j] == 0
        invariant k < WIDTH ==> ShlUpTo(a, pn[..], k, s, if i + k <= WIDTH then i else WIDTH - k)
      {
        if i + k < WIDTH {
          ghost var before := pn[..];
          ShlLimb(a, before, k, s, i);
          if i + k + 1 < WIDTH && s != 0 {
            pn[i + k + 1] := Or(pn[i + k + 1], Hi(a[i], s));
          }
          pn[i + k] := Or(pn[i + k], Lo(a[i], s));
          ShlStep(a, before, pn[..], k, s, i);
        }
      }
      if k < WIDTH {
        ShlDone(a, pn[..], k, s, shift);
      } else {
        ValZeros(pn[..]);
        ShlOut(Val(a), k, s, shift);
      }
    }

    /** operator>>=. */
    method ShiftRight(shift: nat)
      requires Valid()
      modifies pn
      ensures Value() == Quotient(old(Value()), Pow2(shift))
    {
      hide Val, Weight, Pow2, Or, Quotient, Lo, ShrUpTo;
      var a := pn[..];
      Zero();
      var k := shift / 32;
      var s := shift % 32;
      if k <= WIDTH { ShrStart(a, pn[..], k, s); }
      for i := 0 to WIDTH
        invariant i < k ==> forall j :: 0 <= j < WIDTH ==> pn[j] == 0
        invariant k <= WIDTH ==> ShrUpTo(a, pn[..], k, s, if i >= k then i - k else 0)
      {
        if i >= k {
          ghost var before := pn[..];
          ShrLimb(a, before, k, s, i - k);
          if i - k - 1 >= 0 && s != 0 {
            pn[i - k - 1] := Or(pn[i - k - 1], Lo(a[i], 32 - s));
          }
          pn[i - k] := Or(pn[i - k], Quotient(a[i], Pow2(s)));
          ShrStep(a, before, pn[..], k, s, i - k);
        }
      }
      if k <= WIDTH {
        ShrDone(a, pn[..], k, s, shift);
      } else {
        ValZeros(pn[..]);
        ValBound(a);
        ShrOut(Val(a), shift);
      }
    }

    /** bits: one more than the position of the highest bit set. */
    method Bits() returns (n: nat)
      requires Valid()
      ensures n <= 256 && (n == 0 <==> Value() == 0)
      ensures n > 0 ==> Pow2(n - 1) <= Value() < Pow2(n)
    {
      hide Val, Pow2, Quotient, Weight;
      var pos := WIDTH;
      while pos > 0
        invariant 0 <= pos <= WIDTH && forall j :: pos <= j < WIDTH ==> pn[j] == 0
      {
        pos := pos - 1;
        if pn[pos] != 0 {
          LimbBound(pn[pos]);
          var bits := 31;
          while bits > 0
            invariant 0 <= bits <= 31 && pn[pos] < Pow2(bits + 1)
          {
            TopBit(pn[pos], bits);
            if Quotient(pn[pos], Pow2(bits)) % 2 != 0 {
              HighestBit(pn[..], pos, bits);
              return 32 * pos + bits + 1;
            }
            bits := bits - 1;
          }
          HighestBit(pn[..], pos, 0);
          return 32 * pos + 1;
        }
      }
      ValZeros(pn[..]);
      return 0;
    }

    /** operator/=: long division, or an error for zero. */
    method DivAssign(b: Uint256) returns (ok: bool)
      requires Valid() && b.Valid()
      modifies pn
      ensures ok <==> old(b.Value()) != 0
      ensures ok ==> Value() == old(Value()) / old(b.Value())
      ensures !ok ==> Value() == 0
    {
      hide Val, Weight, Pow2, Or, Quotient, ClearBelow;
      var div := new Uint256.Copy(b);
      var num := new Uint256.Copy(this);
      Zero();
      var numBits := num.Bits();
      var divBits := div.Bits();
      if divBits == 0 {
        return false;
      }
      ghost var v, w := num.Value(), div.Value();
      if divBits > numBits {
        Pow2Monotone(numBits, divBits - 1);
        DivMod(v, w, 0, v);
        return true;
      }
      var shift: int := numBits - divBits;
      Aligned(v, w, numBits, divBits);
      div.ShiftLeft(shift);
      NothingSet(pn[..], shift + 1);
      while shift >= 0
        invariant -1 <= shift <= 255 && num.Valid() && div.Valid()
        invariant fresh(num.pn) && fresh(div.pn) && num.pn != div.pn && num.pn != pn && div.pn != pn
        invariant shift >= 0 ==> div.Value() == w * Pow2(shift)
        invariant v == Value() * w + num.Value() && num.Value() < w * Pow2(shift + 1)
        invariant ClearBelow(pn[..], shift + 1)
        decreases shift + 1
      {
        DivideStep(num, div, shift, v, w);
        shift := shift - 1;
      }
      Pow2Zero();
      DivMod(v, w, Value(), num.Value());
      return true;
    }

    /** One bit of the quotient. */
    method DivideStep(num: Uint256, div: Uint256, shift: nat, ghost v: nat, ghost w: nat)
      requires Valid() && num.Valid() && div.Valid() && num.pn != div.pn && num.pn != pn && div.pn != pn
      requires shift < 256 && div.Value() == w * Pow2(shift) && ClearBelow(pn[..], shift + 1)
      requires v == Value() * w + num.Value() && num.Value() < w * Pow2(shift + 1)
      modifies pn, num.pn, div.pn
      ensures v == Value() * w + num.Value() && num.Value() < w * Pow2(shift)
      ensures ClearBelow(pn[..], shift) && (shift > 0 ==> div.Value() == w * Pow2(shift - 1))
    {
      hide Val, Weight, Pow2, Or, Quotient, ClearBelow;
      ghost var quotient := pn[..];
      var order := num.CompareTo(div);
      Halve(w, shift);
      if order >= 0 {
        num.Reduce(div);
        ClearBit(quotient, shift);
        var limb: nat := pn[shift / 32];
        pn[shift / 32] := Or(limb, Pow2(shift % 32));
        BitSet(quotient, pn[..], shift);
        TakeOff(Val(quotient), Pow2(shift), w);
      } else {
        StillClear(quotient, shift);
      }
      div.ShiftRight(1);
    }

    /** Subtract a number that is not larger. */
    method Reduce(b: Uint256)
      requires Valid() && b.Valid() && b.pn != pn && b.Value() <= Value()
      modifies pn
      ensures Value() == old(Value()) - b.Value()
    {
      ValBound(pn[..]);
      SubAssign(b);
      DivMod(old(Value()) - b.Value(), MODULUS, 0, old(Value()) - b.Value());
    }
  }

  // ----- Bits and division -----

  lemma LimbBound(x: Limb)
    ensures x < Pow2(31 + 1)
  {
    Pow2At32();
  }

  /** For a number below 2^(n+1), whether bit n is set. */
  lemma TopBit(x: nat, n: nat)
    requires x < Pow2(n + 1)
    ensures Quotient(x, Pow2(n)) % 2 != 0 <==> x >= Pow2(n)
  {
    hide Pow2;
    var d := Pow2(n);
    assert Pow2(n + 1) == 2 * d by { Pow2Step(n); }
    if x >= d { DivMod(x, d, 1, x - d); } else { DivMod(x, d, 0, x); }
  }

  /** The highest bit of the highest limb that is not zero is the highest bit of the number. */
  lemma HighestBit(s: seq<Limb>, pos: nat, bits: nat)
    requires |s| == WIDTH && pos < WIDTH && bits < 32 && (forall j :: pos < j < WIDTH ==> s[j] == 0)
    requires s[pos] != 0 && s[pos] < Pow2(bits + 1) && (bits > 0 ==> s[pos] >= Pow2(bits))
    ensures Pow2(32 * pos + bits) <= Val(s) < Pow2(32 * pos + bits + 1)
  {
    hide Pow2, Val, Weight;
    assert s == s[..pos + 1] + s[pos + 1..];
    ValConcat(s[..pos + 1], s[pos + 1..]);
    ValZeros(s[pos + 1..]);
    ValPrefix(s, pos);
    ValBound(s[..pos]);
    ShiftPower(pos, bits);
    ShiftPower(pos, bits + 1);
    if bits == 0 { Pow2Zero(); }
    Between(s[pos], Pow2(bits), Pow2(bits + 1), Weight(pos), Val(s[..pos]));
  }

  lemma Between(x: nat, lo: nat, hi: nat, w: nat, rest: nat)
    requires lo <= x < hi && rest < w
    ensures w * lo <= rest + x * w < w * hi
  {
    Times(lo, x, w);
    Times(x + 1, hi, w);
    Spread(x, 1, 0, w);
  }

  /** The divisor shifted to the length of the number: it fits, and the number is less than twice it. */
  lemma Aligned(v: nat, w: nat, numBits: nat, divBits: nat)
    requires 0 < divBits <= numBits <= 256 && v < Pow2(numBits) && Pow2(divBits - 1) <= w < Pow2(divBits)
    ensures w * Pow2(numBits - divBits) % MODULUS == w * Pow2(numBits - divBits)
    ensures v < w * Pow2(numBits - divBits + 1)
  {
    hide Pow2;
    var shift := numBits - divBits;
    Pow2Add(divBits, shift);
    Pow2Monotone(numBits, 256);
    assert w * Pow2(shift) < Pow2(divBits) * Pow2(shift) by {
      Times(w + 1, Pow2(divBits), Pow2(shift));
      Spread(w, 1, 0, Pow2(shift));
    }
    DivMod(w * Pow2(shift), MODULUS, 0, w * Pow2(shift));
    Pow2Add(divBits - 1, shift + 1);
    Times(Pow2(divBits - 1), w, Pow2(shift + 1));
  }

  /** No bit below the n-th is set. */
  ghost predicate ClearBelow(s: seq<Limb>, n: nat) {
    forall j :: 0 <= j < |s| ==> ClearLimb(s[j], j, n)
  }

  ghost predicate ClearLimb(x: Limb, j: nat, n: nat) {
    && (32 * (j + 1) <= n ==> x == 0)
    && (32 * j <= n < 32 * (j + 1) ==> x % Pow2(n - 32 * j) == 0)
  }

  lemma NothingSet(s: seq<Limb>, n: nat)
    requires forall j :: 0 <= j < |s| ==> s[j] == 0
    ensures ClearBelow(s, n)
  {
    hide Pow2;
    forall j | 0 <= j < |s| ensures ClearLimb(s[j], j, n) {
      if 32 * j <= n < 32 * (j + 1) { DivMod(0, Pow2(n - 32 * j), 0, 0); }
    }
  }

  /** The next bit is clear, so setting it adds. */
  lemma ClearBit(s: seq<Limb>, shift: nat)
    requires |s| == WIDTH && shift < 256 && ClearBelow(s, shift + 1)
    ensures Or(s[shift / 32], Pow2(shift % 32)) == s[shift / 32] + Pow2(shift % 32) < BASE
    ensures s[shift / 32] % Pow2(shift % 32) == 0
  {
    hide Pow2, Or;
    var j, n := shift / 32, shift % 32;
    var x: nat := s[j];
    assert ClearLimb(s[j], j, shift + 1);
    Pow2At32();
    Pow2Step(n);
    Pow2Add(n + 1, 31 - n);
    assert x % Pow2(n + 1) == 0 by { if n == 31 { assert x == 0; DivMod(0, Pow2(n + 1), 0, 0); } }
    var m, d, c := x / Pow2(n + 1), Pow2(n + 1), Pow2(31 - n);
    assert x == m * d;
    assert c * d == d * c;
    assert m < c by { if m >= c { Times(c, m, d); assert false; } }
    Times(m + 1, c, d);
    Spread(m, 1, 0, d);
    OrAdds(Pow2(n), m, n + 1);
    assert m * d == (2 * m) * Pow2(n);
    DivMod(x, Pow2(n), 2 * m, 0);
  }

  /** After setting bit `shift` the number is larger by its power, and the bits below it are still clear. */
  lemma BitSet(s: seq<Limb>, s': seq<Limb>, shift: nat)
    requires |s| == |s'| == WIDTH && shift < 256 && ClearBelow(s, shift + 1)
    requires s[shift / 32] + Pow2(shift % 32) < BASE && s' == s[shift / 32 := s[shift / 32] + Pow2(shift % 32)]
    requires s[shift / 32] % Pow2(shift % 32) == 0
    ensures Val(s') == Val(s) + Pow2(shift) && ClearBelow(s', shift)
  {
    hide Pow2, Val, Weight;
    var j, n := shift / 32, shift % 32;
    assert s'[j + 1..] == s[j + 1..] && s'[..j] == s[..j];
    SameAbove(s', s, j + 1);
    ValPrefix(s, j);
    ValPrefix(s', j);
    Spread(s[j], Pow2(n), 0, Weight(j));
    ShiftPower(j, n);
    OneMore(s[j], Pow2(n));
    ClearAfter(s, s', shift);
  }

  lemma OneMore(x: nat, d: nat)
    requires d > 0 && x % d == 0
    ensures (x + d) % d == 0
  {
    assert x == x / d * d;
    Spread(x / d, 1, 0, d);
    DivMod(x + d, d, x / d + 1, 0);
  }

  lemma ClearAfter(s: seq<Limb>, s': seq<Limb>, shift: nat)
    requires |s| == |s'| == WIDTH && shift < 256 && ClearBelow(s, shift + 1)
    requires s' == s[shift / 32 := s'[shift / 32]] && s'[shift / 32] % Pow2(shift % 32) == 0
    ensures ClearBelow(s', shift)
  {
    hide Pow2;
    forall i | 0 <= i < WIDTH ensures ClearLimb(s'[i], i, shift) {
      assert ClearLimb(s[i], i, shift + 1);
      if i != shift / 32 { LimbClear(s[i], i, shift); }
    }
  }

  lemma LimbClear(x: Limb, i: nat, shift: nat)
    requires ClearLimb(x, i, shift + 1) && i != shift / 32
    ensures ClearLimb(x, i, shift)
  {
  }

  lemma StillClear(s: seq<Limb>, shift: nat)
    requires |s| == WIDTH && shift < 256 && ClearBelow(s, shift + 1)
    ensures ClearBelow(s, shift)
  {
    hide Pow2, Or, ClearBelow;
    ClearBit(s, shift);
    ClearAfter(s, s, shift);
  }

  lemma Halve(w: nat, shift: nat)
    ensures w * Pow2(shift + 1) == 2 * (w * Pow2(shift))
    ensures shift > 0 ==> Quotient(w * Pow2(shift), Pow2(1)) == w * Pow2(shift - 1)
    ensures Pow2(1) == 2
  {
    hide Pow2;
    Pow2Step(shift);
    Pow2Step(0);
    Pow2Zero();
    if shift > 0 {
      Pow2Step(shift - 1);
      DivMod(w * Pow2(shift), 2, w * Pow2(shift - 1), 0);
    }
  }

  lemma TakeOff(q: nat, p: nat, w: nat)
    ensures (q + p) * w == q * w + w * p
  {
  }

  // ----- Shifting right -----

  /** n limbs of a, from the k-th on, have been shifted into r; what fell off is less than 2^s. */
  ghost predicate ShrUpTo(a: seq<Limb>, r: seq<Limb>, k: nat, s: nat, n: nat) {
    && |a| == |r| == WIDTH && k + n <= WIDTH && s < 32
    && (forall j :: n <= j < WIDTH ==> r[j] == 0)
    && (n > 0 ==> r[n - 1] == Quotient(a[k + n - 1], Pow2(s)))
    && Pow2(s) * Val(r[..n]) + Lost(a, k, s, n) == Val(a[k..k + n])
  }

  ghost function Lost(a: seq<Limb>, k: nat, s: nat, n: nat): nat
    requires k + n <= |a|
  {
    if n == 0 then 0 else a[k] % Pow2(s)
  }

  lemma ShrStart(a: seq<Limb>, r: seq<Limb>, k: nat, s: nat)
    requires |a| == |r| == WIDTH && k <= WIDTH && s < 32 && forall j :: 0 <= j < WIDTH ==> r[j] == 0
    ensures ShrUpTo(a, r, k, s, 0)
  {
    hide Pow2, Weight;
    assert Val(r[..0]) == 0 && Val(a[k..k]) == 0;
  }

  /** Parts of a limb shifted right: x / 2^s stays, and the s low bits go to the top of the limb below. */
  lemma SplitLimb(x: Limb, s: nat)
    requires s < 32
    ensures Quotient(x, Pow2(s)) < Pow2(32 - s) && Quotient(x, Pow2(s)) * Pow2(s) + x % Pow2(s) == x
    ensures s > 0 ==> Lo(x, 32 - s) == x % Pow2(s) * Pow2(32 - s) <= BASE - Pow2(32 - s)
  {
    hide Pow2, Lo;
    var p, q := Pow2(s), Pow2(32 - s);
    Pow2Add(s, 32 - s);
    Pow2At32();
    if s > 0 { ShiftedLimb(x, 32 - s); }
    var hi := x / p;
    assert x == hi * p + x % p;
    assert p * q == BASE && q * p == BASE;
    Times(Min(q, hi), hi, p);
  }

  lemma ShrLimb(a: seq<Limb>, r: seq<Limb>, k: nat, s: nat, n: nat)
    requires ShrUpTo(a, r, k, s, n) && n + k < WIDTH
    ensures Or(r[n], Quotient(a[k + n], Pow2(s))) == Quotient(a[k + n], Pow2(s)) < BASE
    ensures n > 0 && s > 0 ==> Or(r[n - 1], Lo(a[k + n], 32 - s)) == r[n - 1] + Lo(a[k + n], 32 - s) < BASE
  {
    hide Pow2, Weight, Val, Or, Lo, Quotient;
    SplitLimb(a[k + n], s);
    OrZero(Quotient(a[k + n], Pow2(s)));
    Pow2Monotone(32 - s, 32);
    Pow2At32();
    if n > 0 && s > 0 {
      SplitLimb(a[k + n - 1], s);
      OrAdds(r[n - 1], a[k + n] % Pow2(s), 32 - s);
    }
  }

  lemma ShrStep(a: seq<Limb>, r: seq<Limb>, r': seq<Limb>, k: nat, s: nat, n: nat)
    requires ShrUpTo(a, r, k, s, n) && n + k < WIDTH && |r'| == WIDTH
    requires n > 0 ==> r'[..n - 1] == r[..n - 1] && r'[n - 1] == r[n - 1] + if s == 0 then 0 else Lo(a[k + n], 32 - s)
    requires r'[n] == Quotient(a[k + n], Pow2(s)) && forall j :: n < j < WIDTH ==> r'[j] == r[j]
    ensures ShrUpTo(a, r', k, s, n + 1)
  {
    hide Pow2, Weight, Val, Lo, Quotient;
    var x, p := a[k + n], Pow2(s);
    SplitLimb(x, s);
    ValPrefix(r', n);
    assert a[k..k + n + 1] == a[k..k + n] + [x];
    ValSnoc(a[k..k + n], x);
    if n == 0 {
      assert Val(r'[..0]) == 0 && Val(a[k..k]) == 0 && Weight(0) == 1 by { ValNone(r', a); assert r'[..0] == a[k..k]; }
      FirstLimb(p, Quotient(x, p), x % p, x);
    } else {
      ValPrefix(r', n - 1);
      ValPrefix(r, n - 1);
      WeightStep(n - 1);
      if s == 0 { Pow2Zero(); assert x % 1 == 0; } else { Pow2Add(s, 32 - s); Pow2At32(); }
      var low := if s == 0 then 0 else Lo(x, 32 - s);
      assert p * low == (x % p) * BASE by { if s > 0 { Reorder(x % p, p, Pow2(32 - s)); } }
      NextLimb(p, Val(r[..n - 1]), r[n - 1], low, Weight(n - 1), Quotient(x, p), x % p, x);
    }
  }

  lemma Reorder(x: nat, p: nat, q: nat)
    ensures p * (x * q) == x * (p * q)
  {
    assert p * (x * q) == (p * x) * q == (x * p) * q == x * (p * q);
  }

  lemma FirstLimb(p: nat, q: nat, m: nat, x: nat)
    requires q * p + m == x
    ensures p * (0 + q * 1) + m == 0 + x * 1
  {
  }

  /** With rest + (l + low) w + q (B w) in place of rest + l w: the limb x is added at the next weight. */
  lemma NextLimb(p: nat, rest: nat, l: nat, low: nat, w: nat, q: nat, m: nat, x: nat)
    requires q * p + m == x && p * low == m * BASE
    ensures p * (rest + (l + low) * w + q * (BASE * w)) == p * (rest + l * w) + x * (BASE * w)
  {
    var v := BASE * w;
    assert p * ((l + low) * w) == p * (l * w) + p * (low * w) by { Spread(l, low, 0, w); }
    assert p * (low * w) == m * v by { assert p * (low * w) == (p * low) * w == (m * BASE) * w == m * (BASE * w); }
    assert p * (q * v) == (q * p) * v by { assert p * (q * v) == (p * q) * v; }
    Spread(q * p, m, 0, v);
  }

  lemma ShrDone(a: seq<Limb>, r: seq<Limb>, k: nat, s: nat, shift: nat)
    requires k <= WIDTH && ShrUpTo(a, r, k, s, WIDTH - k) && shift == 32 * k + s
    ensures Val(r) == Quotient(Val(a), Pow2(shift))
  {
    hide Pow2, Val, Weight, Quotient;
    var n := WIDTH - k;
    assert a == a[..k] + a[k..] && a[k..k + n] == a[k..];
    ValConcat(a[..k], a[k..]);
    ValBound(a[..k]);
    assert r == r[..n] + r[n..];
    ValConcat(r[..n], r[n..]);
    ValZeros(r[n..]);
    ShiftPower(k, s);
    assert Lost(a, k, s, n) < Pow2(s) by { if n > 0 { ModSmall(a[k], Pow2(s)); } }
    ShrTotal(Val(a[..k]), Weight(k), Pow2(s), Val(r), Lost(a, k, s, n));
  }

  lemma ModSmall(x: nat, d: nat)
    requires d > 0
    ensures 0 <= x % d < d
  {
  }

  lemma ShrTotal(low: nat, w: nat, p: nat, v: nat, lost: nat)
    requires low < w && lost < p
    ensures Quotient(low + w * (p * v + lost), w * p) == v
  {
    assert w * (p * v + lost) == (w * p) * v + w * lost;
    Times(lost + 1, p, w);
    Spread(lost, 1, 0, w);
    assert w * lost + low < w * p;
    assert w * p > 0;
    DivMod(low + w * (p * v + lost), w * p, v, w * lost + low);
  }

  lemma ShrOut(v: nat, shift: nat)
    requires v < Weight(8) && shift >= 256
    ensures Quotient(v, Pow2(shift)) == 0
  {
    hide Pow2;
    Pow2Monotone(256, shift);
    DivMod(v, Pow2(shift), 0, v);
  }

  // ----- Shifting left -----

  /** The two parts of a limb shifted left by s: what stays in place and what goes to the next limb. */
  function Lo(x: Limb, s: nat): nat { x * Pow2(s) % BASE }

  function Hi(x: Limb, s: nat): nat
    requires s <= 32
  {
    Quotient(x, Pow2(32 - s))
  }

  function Quotient(x: nat, d: nat): nat
    requires d > 0
  {
    x / d
  }

  /** What the limb below leaves for the n-th. */
  function Spill(a: seq<Limb>, s: nat, n: nat): nat
    requires n <= |a| && s < 32
  {
    if n == 0 || s == 0 then 0 else Hi(a[n - 1], s)
  }

  /** n limbs of a have been shifted into r. */
  ghost predicate ShlUpTo(a: seq<Limb>, r: seq<Limb>, k: nat, s: nat, n: nat) {
    && |a| == |r| == WIDTH && k < WIDTH && s < 32 && n + k <= WIDTH
    && (forall j :: n + k < j < WIDTH ==> r[j] == 0)
    && (n + k < WIDTH ==> r[n + k] == Spill(a, s, n))
    && Val(r[..n + k]) + Spill(a, s, n) * Weight(n + k) == Weight(k) * (Pow2(s) * Val(a[..n]))
  }

  lemma ShlStart(a: seq<Limb>, r: seq<Limb>, k: nat, s: nat)
    requires |a| == |r| == WIDTH && k < WIDTH && s < 32 && forall j :: 0 <= j < WIDTH ==> r[j] == 0
    ensures ShlUpTo(a, r, k, s, 0)
  {
    hide Pow2, Weight;
    ValZeros(r[..k]);
    assert Val(a[..0]) == 0;
  }

  /** The two parts of a shifted limb: a multiple of 2^s in place, and less than 2^s for the next limb. */
  lemma ShiftedLimb(x: Limb, s: nat)
    requires s < 32
    ensures Lo(x, s) == x % Pow2(32 - s) * Pow2(s) <= BASE - Pow2(s)
    ensures x * Pow2(s) / BASE == Hi(x, s) < Pow2(s)
  {
    hide Pow2;
    var p, q := Pow2(s), Pow2(32 - s);
    Pow2Add(32 - s, s);
    Pow2At32();
    ShiftParts(x / q, x % q, p, q);
    assert x == x / q * q + x % q;
    DivMod(x * p, BASE, x / q, x % q * p);
  }

  lemma ShiftParts(hi: nat, lo: nat, p: nat, q: nat)
    requires q * p == BASE && lo < q && hi * q + lo < BASE
    ensures (hi * q + lo) * p == hi * BASE + lo * p && lo * p <= BASE - p && hi < p && p > 0
  {
    Spread(hi * q, lo, 0, p);
    Associate(hi, q, p);
    Times(lo + 1, q, p);
    Spread(lo, 1, 0, p);
    Fewer(hi, p, q, lo);
  }

  lemma Associate(x: nat, y: nat, z: nat)
    ensures (x * y) * z == x * (y * z)
  {
  }

  lemma Fewer(hi: nat, p: nat, q: nat, lo: nat)
    requires hi * q + lo < q * p
    ensures hi < p
  {
    Commute(p, q);
    Times(Min(p, hi), hi, q);
  }

  lemma Commute(x: nat, y: nat)
    ensures x * y == y * x
  {
  }

  lemma ShlLimb(a: seq<Limb>, r: seq<Limb>, k: nat, s: nat, n: nat)
    requires ShlUpTo(a, r, k, s, n) && n + k < WIDTH
    ensures Or(r[n + k], Lo(a[n], s)) == r[n + k] + Lo(a[n], s) < BASE
    ensures n + k + 1 < WIDTH ==> Or(r[n + k + 1], Hi(a[n], s)) == Hi(a[n], s) < BASE
  {
    hide Pow2, Weight, Val, Or, Lo, Hi;
    ShiftedLimb(a[n], s);
    SpillSmall(a, s, n);
    OrAdds(r[n + k], a[n] % Pow2(32 - s), s);
    Pow2Monotone(s, 32);
    Pow2At32();
    if n + k + 1 < WIDTH { OrZero(Hi(a[n], s)); }
  }

  lemma OrZero(y: nat)
    ensures Or(0, y) == y
  {
  }

  lemma SpillSmall(a: seq<Limb>, s: nat, n: nat)
    requires n <= |a| && s < 32
    ensures Spill(a, s, n) < Pow2(s)
  {
    if n > 0 && s > 0 { ShiftedLimb(a[n - 1], s); }
  }

  lemma ShlStep(a: seq<Limb>, r: seq<Limb>, r': seq<Limb>, k: nat, s: nat, n: nat)
    requires ShlUpTo(a, r, k, s, n) && n + k < WIDTH && |r'| == WIDTH
    requires r'[..n + k] == r[..n + k] && r'[n + k] == r[n + k] + Lo(a[n], s)
    requires n + k + 1 < WIDTH ==> r'[n + k + 1] == if s == 0 then r[n + k + 1] else Hi(a[n], s)
    requires forall j :: n + k + 1 < j < WIDTH ==> r'[j] == r[j]
    ensures ShlUpTo(a, r', k, s, n + 1)
  {
    hide Pow2, Weight, Val, Hi;
    ShiftedLimb(a[n], s);
    if s == 0 { SmallLimb(a[n]); }
    assert Spill(a, s, n + 1) == Hi(a[n], s);
    var h, lo, hi, p, w := r[n + k], Lo(a[n], s), a[n] * Pow2(s) / BASE, Pow2(s), Weight(n + k);
    ValPrefix(r', n + k);
    ValPrefix(a, n);
    WeightStep(n + k);
    WeightAdd(k, n);
    assert lo + hi * BASE == a[n] * p;
    calc {
      Val(r'[..n + k + 1]) + hi * Weight(n + k + 1);
      Val(r[..n + k]) + (h + lo) * w + hi * (BASE * w);
      { Spread(h, lo, 0, w); Carry(a[n] * p, w); }
      Val(r[..n + k]) + h * w + (a[n] * p) * w;
      Weight(k) * (p * Val(a[..n])) + (a[n] * p) * (Weight(k) * Weight(n));
      { Collect(Weight(k), p, Val(a[..n]), a[n], Weight(n)); }
      Weight(k) * (p * (Val(a[..n]) + a[n] * Weight(n)));
    }
    assert n + 1 + k == n + k + 1;
  }

  lemma Collect(w: nat, p: nat, v: nat, x: nat, u: nat)
    ensures w * (p * v) + (x * p) * (w * u) == w * (p * (v + x * u))
  {
    assert (x * p) * (w * u) == w * (p * (x * u)) by {
      assert (x * p) * (w * u) == ((x * p) * w) * u == (w * (x * p)) * u == w * ((x * p) * u);
      assert (x * p) * u == (p * x) * u == p * (x * u);
    }
    assert p * (v + x * u) == p * v + p * (x * u);
  }

  lemma SmallLimb(x: Limb)
    ensures Hi(x, 0) == 0
  {
    Pow2At32();
  }

  lemma ShlDone(a: seq<Limb>, r: seq<Limb>, k: nat, s: nat, shift: nat)
    requires k <= WIDTH && ShlUpTo(a, r, k, s, WIDTH - k) && shift == 32 * k + s
    ensures Val(r) == Val(a) * Pow2(shift) % MODULUS
  {
    hide Pow2, Val, Spill, Weight;
    var n := WIDTH - k;
    assert r[..n + k] == r && a == a[..n] + a[n..];
    ValConcat(a[..n], a[n..]);
    WeightAdd(k, n);
    ShiftPower(k, s);
    ValBound(r);
    ShlTotal(Val(a[..n]), Weight(n), Val(a[n..]), Weight(k), Pow2(s), Val(r), Spill(a, s, n), MODULUS);
  }

  lemma ShiftPower(k: nat, s: nat)
    ensures Pow2(32 * k + s) == Weight(k) * Pow2(s)
  {
    Pow2Add(32 * k, s);
  }

  lemma ShlTotal(low: nat, n: nat, rest: nat, k: nat, p: nat, v: nat, h: nat, m: nat)
    requires m == k * n && v < m && v + h * m == k * (p * low)
    ensures v == (low + n * rest) * (k * p) % m
  {
    Expand(low, n, rest, k, p);
    Spread(h, p * rest, 0, m);
    DivMod((low + n * rest) * (k * p), m, h + p * rest, v);
  }

  lemma Expand(low: nat, n: nat, rest: nat, k: nat, p: nat)
    ensures (low + n * rest) * (k * p) == k * (p * low) + (p * rest) * (k * n)
  {
    assert (low + n * rest) * (k * p) == low * (k * p) + (n * rest) * (k * p);
    assert low * (k * p) == k * (p * low) by { assert low * (k * p) == (k * p) * low == k * (p * low); }
    assert (n * rest) * (k * p) == (p * rest) * (k * n) by {
      assert (n * rest) * (k * p) == ((n * rest) * k) * p == (k * (n * rest)) * p == p * (k * (n * rest));
      assert (p * rest) * (k * n) == p * (rest * (k * n));
      assert rest * (k * n) == (k * n) * rest == k * (n * rest);
    }
  }

  /** A shift by 256 or more leaves nothing. */
  lemma ShlOut(v: nat, k: nat, s: nat, shift: nat)
    requires k >= WIDTH && shift == 32 * k + s
    ensures v * Pow2(shift) % MODULUS == 0
  {
    hide Pow2;
    Pow2Add(256, shift - 256);
    ShlNothing(v, MODULUS, Pow2(shift - 256));
  }

  lemma ShlNothing(v: nat, m: nat, q: nat)
    requires m > 0
    ensures v * (m * q) % m == 0
  {
    assert v * (m * q) == (v * q) * m by { assert v * (m * q) == (v * m) * q == q * (v * m) == (q * v) * m; }
    DivMod(v * (m * q), m, v * q, 0);
  }

  lemma TwoLimbs(a: Limb, b: Limb)
    ensures Val([a, b]) == a + b * BASE
  {
    var s: seq<Limb> := [a, b];
    WeightStep(0);
    assert Weight(0) == 1 && Weight(1) == BASE;
    assert s[..1] == [a] && [a][..0] == [];
    assert Val([a]) == a * Weight(0);
  }

  lemma LowLimbs(s: seq<Limb>, b: nat)
    requires |s| >= 2 && b < BASE * BASE && s[0] == b % BASE && s[1] == b / BASE && forall j :: 2 <= j < |s| ==>
              s[j] == 0
    ensures Val(s) == b
  {
    hide Val, Weight;
    var low: seq<Limb> := [s[0], s[1]];
    assert s == low + s[2..];
    ValConcat(low, s[2..]);
    ValZeros(s[2..]);
    TwoLimbs(s[0], s[1]);
  }

  lemma NotZero(s: seq<Limb>, i: nat)
    requires i < |s| && s[i] != 0
    ensures Val(s) > 0
  {
    hide Val, Weight;
    assert s == s[..i + 1] + s[i + 1..];
    ValConcat(s[..i + 1], s[i + 1..]);
    ValPrefix(s, i);
    assert Weight(i) > 0 by { WeightPositive(i); }
    Times(1, s[i], Weight(i));
  }

  lemma WeightPositive(i: nat)
    ensures Weight(i) > 0
  {
  }

  lemma ValNone(a: seq<Limb>, b: seq<Limb>)
    ensures Val(a[..0]) == 0 && Val(b[..0]) == 0 && Weight(0) == 1
  {
  }

  lemma AddStep(before: seq<Limb>, after: seq<Limb>, a: seq<Limb>, b: seq<Limb>, i: nat, carry: nat)
    requires i < |a| && i < |b| && |before| == i && carry <= 1
    requires Val(before) + carry * Weight(i) == Val(a[..i]) + Val(b[..i])
    requires var n := carry + a[i] + b[i]; after == before + [n % BASE]
    ensures (carry + a[i] + b[i]) / BASE <= 1
    ensures Val(after) + (carry + a[i] + b[i]) / BASE * Weight(i + 1) == Val(a[..i + 1]) + Val(b[..i + 1])
  {
    hide Val, Weight;
    var n := carry + a[i] + b[i];
    ValPrefix(a, i);
    ValPrefix(b, i);
    ValSnoc(before, n % BASE);
    WeightStep(i);
    Carry(n, Weight(i));
    Spread(carry, a[i], b[i], Weight(i));
  }

  lemma ValSnoc(s: seq<Limb>, x: Limb)
    ensures Val(s + [x]) == Val(s) + x * Weight(|s|)
  {
    assert (s + [x])[..|s|] == s;
  }

  /** The part below the modulus, and how often the modulus was carried out. */
  lemma Remainder(total: nat, part: nat, carry: nat, m: nat)
    requires part < m && part + carry * m == total
    ensures part == total % m
  {
    DivMod(total, m, carry, part);
  }

  lemma IncrementStep(before: seq<Limb>, after: seq<Limb>, a: seq<Limb>, i: nat)
    requires i < |a| && |before| == i && Val(before) + Weight(i) == Val(a[..i]) + 1
    requires after == before + [(a[i] + 1) % BASE]
    ensures after[i] != 0 ==> Val(after) == Val(a[..i + 1]) + 1
    ensures after[i] == 0 ==> Val(after) + Weight(i + 1) == Val(a[..i + 1]) + 1
  {
    hide Val, Weight;
    ValPrefix(a, i);
    ValSnoc(before, (a[i] + 1) % BASE);
    WeightStep(i);
    Spread(a[i], 1, 0, Weight(i));
  }

  /** Where the limbs from n on are the same, so is the difference below. */
  lemma SameAbove(s: seq<Limb>, a: seq<Limb>, n: nat)
    requires |s| == |a| && n <= |s| && s[n..] == a[n..]
    ensures Val(s) - Val(s[..n]) == Val(a) - Val(a[..n])
  {
    hide Val, Weight;
    assert s == s[..n] + s[n..] && a == a[..n] + a[n..];
    ValConcat(s[..n], s[n..]);
    ValConcat(a[..n], a[n..]);
  }

  lemma ComplementStep(before: seq<Limb>, after: seq<Limb>, a: seq<Limb>, i: nat)
    requires i < |a| && |before| == i && Val(before) + Val(a[..i]) + 1 == Weight(i)
    requires after == before + [BASE - 1 - a[i]]
    ensures Val(after) + Val(a[..i + 1]) + 1 == Weight(i + 1)
  {
    hide Val, Weight;
    ValPrefix(a, i);
    ValSnoc(before, BASE - 1 - a[i]);
    WeightStep(i);
    Spread(BASE - 1 - a[i], a[i], 1, Weight(i));
  }

  lemma Subtract(a: nat, b: nat, m: nat)
    requires a < m && b < m
    ensures (a + (m - b) % m) % m == (a - b) % m
  {
    if b == 0 {
      DivMod(m, m, 1, 0);
    } else {
      DivMod(m - b, m, 0, m - b);
      if a >= b {
        DivMod(a - b, m, 0, a - b);
        DivMod(a + m - b, m, 1, a - b);
      } else {
        DivMod(a + m - b, m, 0, a + m - b);
        DivMod(a - b, m, -1, a + m - b);
      }
    }
  }

  /** The highest limb that differs decides. */
  lemma TopDiffers(s: seq<Limb>, t: seq<Limb>, i: nat)
    requires |s| == |t| && i < |s| && s[i + 1..] == t[i + 1..] && s[i] != t[i]
    ensures Val(s) < Val(t) <==> s[i] < t[i]
    ensures Val(s) != Val(t)
  {
    hide Val, Weight;
    SameAbove(s, t, i + 1);
    ValPrefix(s, i);
    ValPrefix(t, i);
    ValBound(s[..i]);
    ValBound(t[..i]);
    if s[i] < t[i] {
      Times(s[i] + 1, t[i], Weight(i));
      Spread(s[i], 1, 0, Weight(i));
    } else {
      Times(t[i] + 1, s[i], Weight(i));
      Spread(t[i], 1, 0, Weight(i));
    }
  }
}
