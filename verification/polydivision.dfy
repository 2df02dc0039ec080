/** What the checksum of cash addresses computes (src/cashaddr.cpp:40-78): the remainder of a polynomial
  * over GF(32) divided by the generator x^8 + 19x^7 + 3x^6 + 25x^5 + 11x^4 + 25x^3 + 3x^2 + 19x + 1.
  *
  * A list of coefficients has the highest first; a remainder is a 40-bit number with eight of them.
  */
module PolyDivision {
  import opened GF32
  import opened PolyMod

  /** The coefficient of x^i of the generator. */
  function Generator(i: nat): Value {
    match i
    case 0 => 1 case 1 => 19 case 2 => 3 case 3 => 25 case 4 => 11
    case 5 => 25 case 6 => 3 case 7 => 19 case 8 => 1
    case _ => 0
  }

  /** The coefficient of x^i of a remainder. */
  function Digit(c: bv40, i: nat): Value {
    match i
    case 0 => (c & 0x1f) as Value
    case 1 => ((c >> 5) & 0x1f) as Value
    case 2 => ((c >> 10) & 0x1f) as Value
    case 3 => ((c >> 15) & 0x1f) as Value
    case 4 => ((c >> 20) & 0x1f) as Value
    case 5 => ((c >> 25) & 0x1f) as Value
    case 6 => ((c >> 30) & 0x1f) as Value
    case 7 => (c >> 35) as Value
    case _ => 0
  }

  /** The coefficient of x^i of a list. */
  function Coefficient(v: seq<Value>, i: int): Value {
    if 0 <= i < |v| then v[|v| - 1 - i] else 0
  }

  /** The coefficient of x^i of q times the generator, from its n lowest terms. */
  function TimesUpTo(q: seq<Value>, i: int, n: nat): Value {
    if n == 0 then 0 else Sum(TimesUpTo(q, i, n - 1), Mul(Generator(n - 1), Coefficient(q, i - (n - 1))))
  }

  function TimesGenerator(q: seq<Value>, i: int): Value {
    TimesUpTo(q, i, 9)
  }

  /** f is q times the generator plus r. */
  ghost predicate Divides(f: seq<Value>, q: seq<Value>, r: bv40) {
    forall i: nat :: Coefficient(f, i) == Sum(TimesGenerator(q, i), Digit(r, i))
  }

  // ----- The multiples of the generator -----

  /** The reduction adds the leading coefficient times the generator without its leading term. */
  lemma FoldIsMultiple(c0: Value, i: nat)
    requires i < 8
    ensures Digit(Fold(c0), i) == Mul(Generator(i), c0)
  {
    match i
    case 0 => FoldDigit0(c0);
    case 1 => FoldDigit1(c0);
    case 2 => FoldDigit2(c0);
    case 3 => FoldDigit3(c0);
    case 4 => FoldDigit4(c0);
    case 5 => FoldDigit5(c0);
    case 6 => FoldDigit6(c0);
    case 7 => FoldDigit7(c0);
  }

  lemma FoldDigit0(c0: Value)
    ensures Digit(Fold(c0), 0) == Mul(1, c0)
  {
  }

  lemma FoldDigit1(c0: Value)
    ensures Digit(Fold(c0), 1) == Mul(19, c0)
  {
  }

  lemma FoldDigit2(c0: Value)
    ensures Digit(Fold(c0), 2) == Mul(3, c0)
  {
  }

  lemma FoldDigit3(c0: Value)
    ensures Digit(Fold(c0), 3) == Mul(25, c0)
  {
  }

  lemma FoldDigit4(c0: Value)
    ensures Digit(Fold(c0), 4) == Mul(11, c0)
  {
  }

  lemma FoldDigit5(c0: Value)
    ensures Digit(Fold(c0), 5) == Mul(25, c0)
  {
  }

  lemma FoldDigit6(c0: Value)
    ensures Digit(Fold(c0), 6) == Mul(3, c0)
  {
  }

  lemma FoldDigit7(c0: Value)
    ensures Digit(Fold(c0), 7) == Mul(19, c0)
  {
  }

  lemma AddDigits(a: bv40, b: bv40, i: nat)
    requires i < 8
    ensures Digit(Add(a, b), i) == Sum(Digit(a, i), Digit(b, i))
  {
    hide Digit, Add, Sum;
    match i
    case 0 => AddDigit0(a, b);
    case 1 => AddDigit1(a, b);
    case 2 => AddDigit2(a, b);
    case 3 => AddDigit3(a, b);
    case 4 => AddDigit4(a, b);
    case 5 => AddDigit5(a, b);
    case 6 => AddDigit6(a, b);
    case 7 => AddDigit7(a, b);
  }

  lemma AddDigit0(a: bv40, b: bv40)
    ensures Digit(Add(a, b), 0) == Sum(Digit(a, 0), Digit(b, 0))
  {
  }

  lemma AddDigit1(a: bv40, b: bv40)
    ensures Digit(Add(a, b), 1) == Sum(Digit(a, 1), Digit(b, 1))
  {
  }

  lemma AddDigit2(a: bv40, b: bv40)
    ensures Digit(Add(a, b), 2) == Sum(Digit(a, 2), Digit(b, 2))
  {
  }

  lemma AddDigit3(a: bv40, b: bv40)
    ensures Digit(Add(a, b), 3) == Sum(Digit(a, 3), Digit(b, 3))
  {
  }

  lemma AddDigit4(a: bv40, b: bv40)
    ensures Digit(Add(a, b), 4) == Sum(Digit(a, 4), Digit(b, 4))
  {
  }

  lemma AddDigit5(a: bv40, b: bv40)
    ensures Digit(Add(a, b), 5) == Sum(Digit(a, 5), Digit(b, 5))
  {
  }

  lemma AddDigit6(a: bv40, b: bv40)
    ensures Digit(Add(a, b), 6) == Sum(Digit(a, 6), Digit(b, 6))
  {
  }

  lemma AddDigit7(a: bv40, b: bv40)
    ensures Digit(Add(a, b), 7) == Sum(Digit(a, 7), Digit(b, 7))
  {
  }

  lemma ShiftDigits(c: bv40, d: Value, i: nat)
    requires i < 8
    ensures Digit(Add(Shifted(c), Wide(d)), i) == if i == 0 then d else Digit(c, i - 1)
    ensures Top(c) == Digit(c, 7)
  {
    hide Add, Shifted, Wide, Top, Digit;
    LowDigits(c, d);
    MiddleDigits(c, d);
    HighDigits(c, d);
  }

  lemma LowDigits(c: bv40, d: Value)
    ensures Digit(Add(Shifted(c), Wide(d)), 0) == d && Digit(Add(Shifted(c), Wide(d)), 1) == Digit(c, 0)
    ensures Digit(Add(Shifted(c), Wide(d)), 2) == Digit(c, 1)
  {
  }

  lemma MiddleDigits(c: bv40, d: Value)
    ensures Digit(Add(Shifted(c), Wide(d)), 3) == Digit(c, 2) && Digit(Add(Shifted(c), Wide(d)), 4) == Digit(c, 3)
    ensures Digit(Add(Shifted(c), Wide(d)), 5) == Digit(c, 4)
  {
  }

  lemma HighDigits(c: bv40, d: Value)
    ensures Digit(Add(Shifted(c), Wide(d)), 6) == Digit(c, 5) && Digit(Add(Shifted(c), Wide(d)), 7) == Digit(c, 6)
    ensures Top(c) == Digit(c, 7)
  {
  }

  /** Appending a coefficient, digit by digit. */
  lemma StepDigits(c: bv40, d: Value, i: nat)
    requires i < 8
    ensures Digit(Step(c, d), i) == Sum(if i == 0 then d else Digit(c, i - 1), Mul(Generator(i), Digit(c, 7)))
  {
    hide Add, Shifted, Wide, Fold, Top, Digit, Sum, Mul, Generator;
    AddDigits(Add(Shifted(c), Wide(d)), Fold(Top(c)), i);
    ShiftDigits(c, d, i);
    FoldIsMultiple(Top(c), i);
  }

  // ----- The remainder -----

  lemma CoefficientNext(v: seq<Value>, d: Value, i: int)
    ensures Coefficient(v + [d], i) == if i == 0 then d else Coefficient(v, i - 1)
  {
  }

  /** One more term of the quotient, at the end. */
  lemma {:induction false} TimesNext(q: seq<Value>, c0: Value, i: int, n: nat)
    ensures TimesUpTo(q + [c0], i, n) ==
              Sum(TimesUpTo(q, i - 1, n), if 0 <= i < n then Mul(Generator(i), c0) else 0)
    decreases n
  {
    hide Sum, Mul, Generator, Coefficient;
    SumUnits(0);
    if n > 0 {
      var g := Generator(n - 1);
      TimesNext(q, c0, i, n - 1);
      CoefficientNext(q, c0, i - (n - 1));
      var before, term := TimesUpTo(q, i - 1, n - 1), Mul(g, Coefficient(q, i - n));
      SumUnits(before);
      if i == n - 1 {
        NoTerm(q, -1);
        MulUnits(g);
      } else if 0 <= i < n {
        SumPairs(before, Mul(Generator(i), c0), term, 0);
        SumUnits(term);
        SumUnits(Mul(Generator(i), c0));
      } else {
        SumUnits(Sum(before, term));
      }
    }
  }

  lemma NoTerm(q: seq<Value>, i: int)
    requires i < 0
    ensures Coefficient(q, i) == 0
  {
  }

  lemma SumUnits(x: Value)
    ensures Sum(x, 0) == x && Sum(0, x) == x && Sum(x, x) == 0
  {
  }

  /** Below x^0 there is nothing. */
  lemma {:induction false} TimesNone(q: seq<Value>, i: int, n: nat)
    requires i < 0 || q == []
    ensures TimesUpTo(q, i, n) == 0
    decreases n
  {
    hide Sum, Mul, Generator;
    if n > 0 {
      TimesNone(q, i, n - 1);
      MulUnits(Generator(n - 1));
      SumUnits(0);
    }
  }

  /** Appending a coefficient divides again: the leading coefficient of the remainder goes to the quotient. */
  lemma DividesNext(f: seq<Value>, q: seq<Value>, r: bv40, d: Value)
    requires Divides(f, q, r)
    ensures Divides(f + [d], q + [Digit(r, 7)], Step(r, d))
  {
    hide Divides, Step, Digit, TimesUpTo, Coefficient, Mul, Sum, Generator;
    GeneratorEnds();
    var c0 := Digit(r, 7);
    forall i: nat
      ensures Coefficient(f + [d], i) == Sum(TimesGenerator(q + [c0], i), Digit(Step(r, d), i))
    {
      CoefficientNext(f, d, i);
      TimesNext(q, c0, i, 9);
      if i > 0 { DividesAt(f, q, r, i - 1); }
      if i < 8 {
        StepDigits(r, d, i);
        if i == 0 { TimesNone(q, -1, 9); }
        Cancels(TimesGenerator(q, i - 1), Mul(Generator(i), c0), if i == 0 then d else Digit(r, i - 1));
        SumUnits(d);
      } else {
        NoDigit(Step(r, d), i);
        if i > 8 { NoDigit(r, i - 1); }
        MulUnits(c0);
        SumUnits(TimesGenerator(q, i - 1));
        SumUnits(Sum(TimesGenerator(q, i - 1), c0));
      }
    }
    DividesMeans(f + [d], q + [c0], Step(r, d));
  }

  lemma GeneratorEnds()
    ensures Generator(8) == 1
  {
  }

  lemma DividesAt(f: seq<Value>, q: seq<Value>, r: bv40, i: nat)
    requires Divides(f, q, r)
    ensures Coefficient(f, i) == Sum(TimesGenerator(q, i), Digit(r, i))
  {
  }

  lemma DividesMeans(f: seq<Value>, q: seq<Value>, r: bv40)
    requires forall i: nat :: Coefficient(f, i) == Sum(TimesGenerator(q, i), Digit(r, i))
    ensures Divides(f, q, r)
  {
  }

  lemma NoDigit(r: bv40, i: nat)
    requires i >= 8
    ensures Digit(r, i) == 0
  {
  }

  lemma Cancels(t: Value, m: Value, x: Value)
    ensures Sum(Sum(t, m), Sum(x, m)) == Sum(t, x)
  {
  }

  /** The checksum is the remainder of the list, with a 1 in front, divided by the generator. */
  lemma {:induction false} PolyIsRemainder(v: seq<Value>)
    ensures exists q :: |q| == |v| && Divides([1] + v, q, Poly(1, v))
    decreases |v|
  {
    hide Divides, Step;
    if v == [] {
      OneDivides();
      assert [1] + v == [1];
      assert Divides([1] + v, [], Poly(1, v));
    } else {
      var n := |v| - 1;
      PolyIsRemainder(v[..n]);
      var q :| |q| == n && Divides([1] + v[..n], q, Poly(1, v[..n]));
      DividesNext([1] + v[..n], q, Poly(1, v[..n]), v[n]);
      assert [1] + v == [1] + v[..n] + [v[n]];
    }
  }

  lemma OneDivides()
    ensures Divides([1], [], 1)
  {
    hide Sum, Digit, TimesUpTo;
    forall i: nat ensures Coefficient([1], i) == Sum(TimesGenerator([], i), Digit(1, i)) {
      TimesNone([], i, 9);
      SumUnits(Digit(1, i));
      OneDigits(i);
    }
  }

  lemma OneDigits(i: nat)
    ensures Digit(1, i) == if i == 0 then 1 else 0
  {
  }

  lemma {:induction false} TimesSame(q: seq<Value>, q': seq<Value>, i: int, n: nat)
    requires forall m :: m > i - n ==> Coefficient(q, m) == Coefficient(q', m)
    ensures TimesUpTo(q, i, n) == TimesUpTo(q', i, n)
    decreases n
  {
    if n > 0 { TimesSame(q, q', i, n - 1); }
  }

  lemma SumCancels(a: Value, x: Value, y: Value)
    requires Sum(a, x) == Sum(a, y)
    ensures x == y
  {
  }

  /** Two quotients agree from the top down, since the leading term of the generator is 1. */
  lemma {:induction false} QuotientUnique(f: seq<Value>, q: seq<Value>, r: bv40, q': seq<Value>, r': bv40, k: nat)
    requires Divides(f, q, r) && Divides(f, q', r')
    ensures forall m :: m >= k ==> Coefficient(q, m) == Coefficient(q', m)
    decreases |q| + |q'| - k
  {
    hide Divides, Digit, Mul, Sum, Generator;
    if k < |q| + |q'| {
      QuotientUnique(f, q, r, q', r', k + 1);
      TimesSame(q, q', k + 8, 8);
      DividesAt(f, q, r, k + 8);
      DividesAt(f, q', r', k + 8);
      NoDigit(r, k + 8);
      NoDigit(r', k + 8);
      GeneratorEnds();
      MulUnits(Coefficient(q, k));
      MulUnits(Coefficient(q', k));
      SumUnits(TimesGenerator(q, k + 8));
      SumUnits(TimesGenerator(q', k + 8));
      SumCancels(TimesUpTo(q, k + 8, 8), Coefficient(q, k), Coefficient(q', k));
    }
  }

  /** There is only one remainder. */
  lemma RemainderUnique(f: seq<Value>, q: seq<Value>, r: bv40, q': seq<Value>, r': bv40)
    requires Divides(f, q, r) && Divides(f, q', r')
    ensures r == r'
  {
    hide Divides, Digit, Sum, TimesUpTo;
    QuotientUnique(f, q, r, q', r', 0);
    forall i: nat | i < 8 ensures Digit(r, i) == Digit(r', i) {
      DividesAt(f, q, r, i);
      DividesAt(f, q', r', i);
      TimesSame(q, q', i, 9);
      SumCancels(TimesGenerator(q, i), Digit(r, i), Digit(r', i));
    }
    DigitsDetermine(r, r');
  }

  lemma DigitsDetermine(r: bv40, r': bv40)
    requires forall i: nat :: i < 8 ==> Digit(r, i) == Digit(r', i)
    ensures r == r'
  {
    assert Digit(r, 0) == Digit(r', 0) && Digit(r, 1) == Digit(r', 1) && Digit(r, 2) == Digit(r', 2);
    assert Digit(r, 3) == Digit(r', 3) && Digit(r, 4) == Digit(r', 4) && Digit(r, 5) == Digit(r', 5);
    assert Digit(r, 6) == Digit(r', 6) && Digit(r, 7) == Digit(r', 7);
  }

  // ----- Scaling -----

  /** c' has the digits of c times s. */
  ghost predicate Scales(c: bv40, s: Value, c': bv40) {
    forall i: nat :: i < 8 ==> Digit(c', i) == Mul(s, Digit(c, i))
  }

  /** Appending commutes with multiplication by an element of the field. */
  lemma StepScales(c: bv40, s: Value, c': bv40, d: Value)
    requires Scales(c, s, c')
    ensures Scales(Step(c, d), s, Step(c', Mul(s, d)))
  {
    hide Digit, Step, Mul, Sum, Generator;
    forall i: nat | i < 8 ensures Digit(Step(c', Mul(s, d)), i) == Mul(s, Digit(Step(c, d), i)) {
      var g, c0 := Generator(i), Digit(c, 7);
      StepDigits(c, d, i);
      StepDigits(c', Mul(s, d), i);
      MulSpreads(s, if i == 0 then d else Digit(c, i - 1), Mul(g, c0));
      MulAssociates(g, s, c0);
      MulCommutes(g, s);
      MulAssociates(s, g, c0);
    }
  }

  function Scaled(v: seq<Value>, s: Value): seq<Value> {
    seq(|v|, i requires 0 <= i < |v| => Mul(s, v[i]))
  }

  lemma {:induction false} PolyScales(c: bv40, s: Value, c': bv40, v: seq<Value>)
    requires Scales(c, s, c')
    ensures Scales(Poly(c, v), s, Poly(c', Scaled(v, s)))
    decreases |v|
  {
    hide Scales, Step, Mul;
    if v != [] {
      var n := |v| - 1;
      PolyScales(c, s, c', v[..n]);
      assert Scaled(v, s)[..n] == Scaled(v[..n], s);
      StepScales(Poly(c, v[..n]), s, Poly(c', Scaled(v[..n], s)), v[n]);
    }
  }
}
