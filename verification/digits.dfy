/** Numbers as digits to any base, most significant first. */
module Digits {
  import opened Numbers

  /** If b^q is at most c^p, then n digits to base b fit into m digits to base c whenever p n is at most q m. */
  lemma Enough(b: nat, c: nat, q: nat, p: nat, n: nat, m: nat)
    requires b > 0 && c > 0 && q > 0 && Pow(b, q) <= Pow(c, p) && p * n <= q * m
    ensures Pow(b, n) <= Pow(c, m)
  {
    hide Pow;
    calc {
      Pow(Pow(b, n), q);
      { PowMul(b, n, q); PowMul(b, q, n); assert n * q == q * n; }
      Pow(Pow(b, q), n);
      <= { PowBase(Pow(b, q), Pow(c, p), n); }
      Pow(Pow(c, p), n);
      { PowMul(c, p, n); }
      Pow(c, p * n);
      <= { PowGrows(c, p * n, q * m); }
      Pow(c, q * m);
      { PowMul(c, m, q); assert q * m == m * q; }
      Pow(Pow(c, m), q);
    }
    PowRoot(Pow(b, n), Pow(c, m), q);
  }

  // ----- Values -----

  ghost predicate Below(base: nat, s: seq<nat>) {
    forall i :: 0 <= i < |s| ==> s[i] < base
  }

  function Big(base: nat, s: seq<nat>): nat {
    if s == [] then 0 else Big(base, s[..|s| - 1]) * base + s[|s| - 1]
  }

  lemma {:induction false} BigConcat(base: nat, s: seq<nat>, t: seq<nat>)
    ensures Big(base, s + t) == Big(base, s) * Pow(base, |t|) + Big(base, t)
    decreases |t|
  {
    if t == [] {
      assert s + t == s;
    } else {
      var m := |t| - 1;
      BigConcat(base, s, t[..m]);
      assert (s + t)[..|s| + m] == s + t[..m];
      var x, p, y := Big(base, s), Pow(base, m), Big(base, t[..m]);
      assert (x * p + y) * base == x * (base * p) + y * base by { Horner(x, p, y, base); }
    }
  }

  lemma Horner(x: nat, p: nat, y: nat, b: nat)
    ensures (x * p + y) * b == x * (b * p) + y * b
  {
    assert (x * p) * b == x * (p * b);
  }

  lemma {:induction false} BigBound(base: nat, s: seq<nat>)
    requires Below(base, s)
    ensures Big(base, s) < Pow(base, |s|)
    decreases |s|
  {
    hide Pow;
    if s == [] {
      PowZero(base);
    } else {
      var n := |s| - 1;
      BigBound(base, s[..n]);
      PowStep(base, n);
      Times(Big(base, s[..n]) + 1, Pow(base, n), base);
      Spread(Big(base, s[..n]), 1, 0, base);
    }
  }

  lemma {:induction false} BigZeros(base: nat, s: seq<nat>)
    requires forall i :: 0 <= i < |s| ==> s[i] == 0
    ensures Big(base, s) == 0
    decreases |s|
  {
    if s != [] { BigZeros(base, s[..|s| - 1]); }
  }

  /** The digits of a number, without leading zeros. */
  function DigitsOf(base: nat, n: nat): seq<nat>
    requires base >= 2
  {
    if n == 0 then [] else DigitsOf(base, n / base) + [n % base]
  }

  lemma {:induction false} DigitsValue(base: nat, n: nat)
    requires base >= 2
    ensures Below(base, DigitsOf(base, n)) && Big(base, DigitsOf(base, n)) == n
    ensures n > 0 ==> DigitsOf(base, n) != [] && DigitsOf(base, n)[0] != 0
  {
    hide Big;
    if n == 0 {
      BigZeros(base, []);
    } else {
      var q, r := n / base, n % base;
      Smaller(n, base);
      DigitsValue(base, q);
      BigSnoc(base, DigitsOf(base, q), r);
    }
  }

  lemma Smaller(n: nat, base: nat)
    requires base >= 2 && n > 0
    ensures n / base < n && n == n / base * base + n % base && n % base < base
  {
    var q := n / base;
    if q > 0 { Times(2, base, q); }
  }

  lemma BigSnoc(base: nat, s: seq<nat>, x: nat)
    ensures Big(base, s + [x]) == Big(base, s) * base + x
  {
    assert (s + [x])[..|s|] == s;
  }

  /** Digits without a leading zero are those of their value. */
  lemma {:induction false} DigitsUnique(base: nat, s: seq<nat>)
    requires base >= 2 && Below(base, s) && (s == [] || s[0] != 0)
    ensures DigitsOf(base, Big(base, s)) == s
    ensures s != [] ==> Big(base, s) > 0
    decreases |s|
  {
    if s != [] {
      var n := |s| - 1;
      DigitsUnique(base, s[..n]);
      var v := Big(base, s);
      DivMod(v, base, Big(base, s[..n]), s[n]);
      assert s == s[..n] + [s[n]];
      if n == 0 { assert s[..0] == []; }
    }
  }

  /** Without the leading zeros. */
  function Stripped(s: seq<nat>): seq<nat> {
    if s != [] && s[0] == 0 then Stripped(s[1..]) else s
  }

  function LeadingZeros(s: seq<nat>): nat {
    if s != [] && s[0] == 0 then 1 + LeadingZeros(s[1..]) else 0
  }

  function Zeros(n: nat): seq<nat> { seq(n, _ => 0) }

  lemma {:induction false} StrippedDigits(base: nat, s: seq<nat>)
    requires base >= 2 && Below(base, s)
    ensures Stripped(s) == DigitsOf(base, Big(base, s))
    ensures LeadingZeros(s) <= |s| && s == Zeros(LeadingZeros(s)) + Stripped(s)
    decreases |s|
  {
    hide Big, DigitsOf, Pow;
    if s != [] && s[0] == 0 {
      StrippedDigits(base, s[1..]);
      assert s == [0] + s[1..];
      BigConcat(base, [0], s[1..]);
      BigZeros(base, [0]);
      assert Zeros(LeadingZeros(s)) == [0] + Zeros(LeadingZeros(s[1..]));
    } else {
      DigitsUnique(base, s);
    }
  }
}
