/** The checksum of cash addresses (src/cashaddr.cpp:35-207): a polynomial over GF(32) reduced
  * modulo a generator of degree 8, eight coefficients of five bits in one 40-bit number.
  *
  * The 64-bit variable of the source never holds more than 40 bits, since it is masked to 35
  * bits before it is shifted by 5; here it is a bv40.
  */
module PolyMod {
  import opened GF32

  /** Addition of coefficients. */
  function Add(a: bv40, b: bv40): bv40 { a ^ b }

  function Term(c0: Value, bit: Value, k: bv40): bv40 {
    if c0 & bit != 0 then k else 0
  }

  /** The leading coefficient times the generator without its leading term. */
  function Fold(c0: Value): bv40 {
    Add(Add(Add(Add(Term(c0, 0x01, 0x98f2bc8e61), Term(c0, 0x02, 0x79b76d99e2)), Term(c0, 0x04, 0xf33e5fb3c4)),
            Term(c0, 0x08, 0xae2eabe2a8)), Term(c0, 0x10, 0x1e4f43e470))
  }

  function Top(c: bv40): Value { (c >> 35) as Value }

  function Shifted(c: bv40): bv40 { (c & 0x07ffffffff) << 5 }

  function Wide(d: Value): bv40 { d as bv40 }

  /** Append one coefficient: multiply by x, add d, reduce. */
  function Step(c: bv40, d: Value): bv40 {
    Add(Add(Shifted(c), Wide(d)), Fold(Top(c)))
  }

  function Poly(c: bv40, v: seq<Value>): bv40 {
    if v == [] then c else Step(Poly(c, v[..|v| - 1]), v[|v| - 1])
  }

  /** PolyMod. */
  method ComputePolyMod(v: seq<Value>) returns (c: bv40)
    ensures c == Poly(1, v)
  {
    c := 1;
    for i := 0 to |v|
      invariant c == Poly(1, v[..i])
    {
      c := Append(c, v[i]);
      assert v[..i + 1][..i] == v[..i];
    }
    assert v[..|v|] == v;
  }

  /** The body of that loop. */
  method Append(before: bv40, d: Value) returns (c: bv40)
    ensures c == Step(before, d)
  {
    hide Add, Term, Top, Shifted, Wide;
    var c0 := Top(before);
    c := Add(Shifted(before), Wide(d));
    ghost var t1, t2 := Term(c0, 0x01, 0x98f2bc8e61), Term(c0, 0x02, 0x79b76d99e2);
    ghost var t3, t4, t5 := Term(c0, 0x04, 0xf33e5fb3c4), Term(c0, 0x08, 0xae2eabe2a8), Term(c0, 0x10, 0x1e4f43e470);
    Regroup(c, t1, t2, t3, t4, t5);
    c := AddIf(c, c0, 0x01, 0x98f2bc8e61);
    c := AddIf(c, c0, 0x02, 0x79b76d99e2);
    c := AddIf(c, c0, 0x04, 0xf33e5fb3c4);
    c := AddIf(c, c0, 0x08, 0xae2eabe2a8);
    c := AddIf(c, c0, 0x10, 0x1e4f43e470);
  }

  /** Add a multiple of the generator when a bit of the leading coefficient is set. */
  method AddIf(before: bv40, c0: Value, bit: Value, k: bv40) returns (c: bv40)
    ensures c == Add(before, Term(c0, bit, k))
  {
    c := before;
    if c0 & bit != 0 {
      c := c ^ k;
    }
  }

  lemma Associative(a: bv40, b: bv40, c: bv40)
    ensures Add(a, Add(b, c)) == Add(Add(a, b), c)
  {
  }

  lemma Regroup(a: bv40, b: bv40, c: bv40, d: bv40, e: bv40, f: bv40)
    ensures Add(Add(Add(Add(Add(a, b), c), d), e), f) == Add(a, Add(Add(Add(Add(b, c), d), e), f))
  {
    hide Add;
    Associative(a, b, c);
    Associative(a, Add(b, c), d);
    Associative(a, Add(Add(b, c), d), e);
    Associative(a, Add(Add(Add(b, c), d), e), f);
  }

  // ----- Linearity -----

  lemma Commutative(a: bv40, b: bv40)
    ensures Add(a, b) == Add(b, a)
  {
  }

  lemma Pairs(a: bv40, b: bv40, c: bv40, d: bv40)
    ensures Add(Add(a, b), Add(c, d)) == Add(Add(a, c), Add(b, d))
  {
    hide Add;
    Associative(a, b, Add(c, d));
    Associative(b, c, d);
    Commutative(b, c);
    Associative(c, b, d);
    Associative(a, c, Add(b, d));
  }

  lemma TermLinear(x: Value, y: Value, bit: Value, k: bv40)
    requires bit == 1 || bit == 2 || bit == 4 || bit == 8 || bit == 16
    ensures Term(x ^ y, bit, k) == Add(Term(x, bit, k), Term(y, bit, k))
  {
    hide Add;
    OneBitSet(x, y, bit);
    AddZero(k);
    AddZero(0);
  }

  lemma OneBitSet(x: Value, y: Value, bit: Value)
    requires bit == 1 || bit == 2 || bit == 4 || bit == 8 || bit == 16
    ensures (x ^ y) & bit != 0 <==> (x & bit != 0) != (y & bit != 0)
  {
  }

  lemma AddZero(k: bv40)
    ensures Add(k, k) == 0 && Add(k, 0) == k && Add(0, k) == k
  {
  }

  lemma FoldLinear(x: Value, y: Value)
    ensures Fold(x ^ y) == Add(Fold(x), Fold(y))
  {
    hide Term, Add;
    var x1, y1 := Term(x, 0x01, 0x98f2bc8e61), Term(y, 0x01, 0x98f2bc8e61);
    var x2, y2 := Term(x, 0x02, 0x79b76d99e2), Term(y, 0x02, 0x79b76d99e2);
    var x3, y3 := Term(x, 0x04, 0xf33e5fb3c4), Term(y, 0x04, 0xf33e5fb3c4);
    var x4, y4 := Term(x, 0x08, 0xae2eabe2a8), Term(y, 0x08, 0xae2eabe2a8);
    var x5, y5 := Term(x, 0x10, 0x1e4f43e470), Term(y, 0x10, 0x1e4f43e470);
    TermLinear(x, y, 0x01, 0x98f2bc8e61);
    TermLinear(x, y, 0x02, 0x79b76d99e2);
    TermLinear(x, y, 0x04, 0xf33e5fb3c4);
    TermLinear(x, y, 0x08, 0xae2eabe2a8);
    TermLinear(x, y, 0x10, 0x1e4f43e470);
    Pairs(x1, y1, x2, y2);
    Pairs(Add(x1, x2), Add(y1, y2), x3, y3);
    Pairs(Add(Add(x1, x2), x3), Add(Add(y1, y2), y3), x4, y4);
    Pairs(Add(Add(Add(x1, x2), x3), x4), Add(Add(Add(y1, y2), y3), y4), x5, y5);
  }

  lemma PartsLinear(a: bv40, b: bv40, d: Value, e: Value)
    ensures Top(Add(a, b)) == Top(a) ^ Top(b)
    ensures Shifted(Add(a, b)) == Add(Shifted(a), Shifted(b))
    ensures Wide(d ^ e) == Add(Wide(d), Wide(e))
  {
  }

  /** Appending is linear in the remainder and the coefficient. */
  lemma StepLinear(a: bv40, b: bv40, d: Value, e: Value)
    ensures Step(Add(a, b), d ^ e) == Add(Step(a, d), Step(b, e))
  {
    hide Fold, Top, Shifted, Wide, Add;
    PartsLinear(a, b, d, e);
    FoldLinear(Top(a), Top(b));
    Pairs(Shifted(a), Shifted(b), Wide(d), Wide(e));
    Pairs(Add(Shifted(a), Wide(d)), Add(Shifted(b), Wide(e)), Fold(Top(a)), Fold(Top(b)));
  }

  /** Appending zero keeps a non-zero remainder non-zero: x is invertible modulo the generator. */
  lemma StepInjective(c: bv40)
    requires Step(c, 0) == 0
    ensures c == 0
  {
  }

  // ----- Over whole lists -----

  lemma {:induction false} PolyConcat(c: bv40, v: seq<Value>, w: seq<Value>)
    ensures Poly(c, v + w) == Poly(Poly(c, v), w)
    decreases |w|
  {
    if w == [] {
      assert v + w == v;
    } else {
      PolyConcat(c, v, w[..|w| - 1]);
      assert (v + w)[..|v + w| - 1] == v + w[..|w| - 1];
    }
  }

  function Difference(v: seq<Value>, w: seq<Value>): seq<Value>
    requires |v| == |w|
  {
    seq(|v|, i requires 0 <= i < |v| => v[i] ^ w[i])
  }

  /** The difference of two checksums depends on the difference of the lists only. */
  lemma {:induction false} PolyLinear(a: bv40, b: bv40, v: seq<Value>, w: seq<Value>)
    requires |v| == |w|
    ensures Poly(Add(a, b), Difference(v, w)) == Add(Poly(a, v), Poly(b, w))
    decreases |v|
  {
    hide Add, Step;
    if v != [] {
      var n := |v| - 1;
      PolyLinear(a, b, v[..n], w[..n]);
      assert Difference(v, w)[..n] == Difference(v[..n], w[..n]);
      StepLinear(Poly(a, v[..n]), Poly(b, w[..n]), v[n], w[n]);
    }
  }

  predicate AllZero(v: seq<Value>) {
    forall i :: 0 <= i < |v| ==> v[i] == 0
  }

  lemma ZeroStep()
    ensures Step(0, 0) == 0
  {
  }

  /** Zeros keep a remainder of zero, and only that. */
  lemma {:induction false} PolyZeros(c: bv40, v: seq<Value>)
    requires AllZero(v)
    ensures Poly(c, v) == 0 <==> c == 0
    decreases |v|
  {
    hide Step;
    if v != [] {
      var c' := Poly(c, v[..|v| - 1]);
      PolyZeros(c, v[..|v| - 1]);
      ZeroStep();
      if Step(c', 0) == 0 { StepInjective(c'); }
    }
  }

  /** Below 32^k. */
  predicate Small(c: bv40, k: nat)
    requires k <= 8
  {
    match k
    case 0 => c == 0
    case 1 => c < 0x20
    case 2 => c < 0x400
    case 3 => c < 0x8000
    case 4 => c < 0x100000
    case 5 => c < 0x2000000
    case 6 => c < 0x40000000
    case 7 => c < 0x800000000
    case 8 => true
  }

  /** Nothing is reduced while there are fewer than eight coefficients. */
  lemma SmallStep(c: bv40, d: Value, k: nat)
    requires k < 8 && Small(c, k)
    ensures Small(Step(c, d), k + 1)
    ensures Step(c, d) == 0 <==> c == 0 && d == 0
  {
  }

  /** Up to eight coefficients are kept as they are: the remainder is zero only if they all are. */
  lemma {:induction false} ShortPoly(v: seq<Value>)
    requires |v| <= 8
    ensures Small(Poly(0, v), |v|)
    ensures Poly(0, v) == 0 <==> AllZero(v)
    decreases |v|
  {
    hide Step, Small;
    if v == [] {
      SmallZero();
    } else {
      var n := |v| - 1;
      ShortPoly(v[..n]);
      SmallStep(Poly(0, v[..n]), v[n], n);
      assert AllZero(v) <==> AllZero(v[..n]) && v[n] == 0;
    }
  }

  lemma SmallZero()
    ensures Small(0, 0)
  {
  }

  /** Lists that differ only inside a window of eight have different checksums, at any length. */
  lemma WindowDetected(c: bv40, v: seq<Value>, w: seq<Value>, start: nat)
    requires |v| == |w| && v != w && start <= |v|
    requires forall i :: 0 <= i < |v| && !(start <= i < start + 8) ==> v[i] == w[i]
    ensures Poly(c, v) != Poly(c, w)
  {
    hide Add, Step, Poly;
    var d := Difference(v, w);
    var end := if start + 8 < |v| then start + 8 else |v|;
    var head, middle, tail := d[..start], d[start..end], d[end..];
    assert AllZero(head) && AllZero(tail) by { SameIsZero(v, w); }
    assert d == head + middle + tail;
    PolyConcat(0, head + middle, tail);
    PolyConcat(0, head, middle);
    PolyZeros(0, head);
    ShortPoly(middle);
    PolyZeros(Poly(0, middle), tail);
    SomeDifference(v, w, start, end);
    PolyLinear(c, c, v, w);
    AddZero(c);
    AddZero(Poly(c, v));
  }

  lemma SameIsZero(v: seq<Value>, w: seq<Value>)
    requires |v| == |w|
    ensures forall i :: 0 <= i < |v| && v[i] == w[i] ==> Difference(v, w)[i] == 0
  {
    forall i | 0 <= i < |v| && v[i] == w[i] ensures Difference(v, w)[i] == 0 { XorSame(v[i]); }
  }

  lemma XorSame(x: Value)
    ensures x ^ x == 0
  {
  }

  lemma XorDiffers(x: Value, y: Value)
    requires x != y
    ensures x ^ y != 0
  {
  }

  lemma SomeDifference(v: seq<Value>, w: seq<Value>, start: nat, end: nat)
    requires |v| == |w| && v != w && start <= end <= |v|
    requires forall i :: 0 <= i < |v| && !(start <= i < end) ==> v[i] == w[i]
    ensures !AllZero(Difference(v, w)[start..end])
  {
    var i :| 0 <= i < |v| && v[i] != w[i];
    XorDiffers(v[i], w[i]);
    assert Difference(v, w)[start..end][i - start] != 0;
  }
}
