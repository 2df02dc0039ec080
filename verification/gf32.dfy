/** The field of 32 elements that the checksum of cash addresses is over (src/cashaddr.cpp:59-66):
  * polynomials over the bits, modulo a^5 + a^3 + 1. Addition is exclusive or.
  */
module GF32 {

  type Value = bv5

  /** Multiplication by a: a^5 is a^3 + 1. */
  function Double(b: Value): Value {
    if b & 0x10 != 0 then (b << 1) ^ 0x09 else b << 1
  }

  function Part(x: Value, bit: Value, b: Value): Value {
    if x & bit != 0 then b else 0
  }

  function Sum(a: Value, b: Value): Value { a ^ b }

  /** The sum of b times a^n over the bits n of x. */
  function Mul(x: Value, b: Value): Value {
    var b2 := Double(b);
    var b4 := Double(b2);
    var b8 := Double(b4);
    Five(Part(x, 1, b), Part(x, 2, b2), Part(x, 4, b4), Part(x, 8, b8), Part(x, 16, Double(b8)))
  }

  function Five(a: Value, b: Value, c: Value, d: Value, e: Value): Value {
    Sum(Sum(Sum(Sum(a, b), c), d), e)
  }

  /** The product worked out in the source. */
  lemma MulExample()
    ensures Mul(5, 26) == 9
  {
  }

  lemma MulUnits(x: Value)
    ensures Mul(0, x) == 0 && Mul(x, 0) == 0 && Mul(1, x) == x && Mul(x, 1) == x
  {
  }

  lemma PartSpreads(x: Value, bit: Value, y: Value, z: Value)
    ensures Part(x, bit, Sum(y, z)) == Sum(Part(x, bit, y), Part(x, bit, z))
  {
  }

  lemma DoubleSpreads(y: Value, z: Value)
    ensures Double(Sum(y, z)) == Sum(Double(y), Double(z))
  {
  }

  lemma SumPairs(a: Value, b: Value, c: Value, d: Value)
    ensures Sum(Sum(a, b), Sum(c, d)) == Sum(Sum(a, c), Sum(b, d))
  {
  }

  lemma FivePairs(a: Value, b: Value, c: Value, d: Value, e: Value, a': Value, b': Value, c': Value, d': Value,
                  e': Value)
    ensures Five(Sum(a, a'), Sum(b, b'), Sum(c, c'), Sum(d, d'), Sum(e, e')) ==
              Sum(Five(a, b, c, d, e), Five(a', b', c', d', e'))
  {
    hide Sum;
    SumPairs(a, a', b, b');
    SumPairs(Sum(a, b), Sum(a', b'), c, c');
    SumPairs(Sum(Sum(a, b), c), Sum(Sum(a', b'), c'), d, d');
    SumPairs(Sum(Sum(Sum(a, b), c), d), Sum(Sum(Sum(a', b'), c'), d'), e, e');
  }

  lemma MulSpreads(x: Value, y: Value, z: Value)
    ensures Mul(x, Sum(y, z)) == Sum(Mul(x, y), Mul(x, z))
  {
    hide Sum, Five, Part, Double;
    var y2, z2 := Double(y), Double(z);
    var y4, z4 := Double(y2), Double(z2);
    var y8, z8 := Double(y4), Double(z4);
    DoubleSpreads(y, z);
    DoubleSpreads(y2, z2);
    DoubleSpreads(y4, z4);
    DoubleSpreads(y8, z8);
    PartSpreads(x, 1, y, z);
    PartSpreads(x, 2, y2, z2);
    PartSpreads(x, 4, y4, z4);
    PartSpreads(x, 8, y8, z8);
    PartSpreads(x, 16, Double(y8), Double(z8));
    FivePairs(Part(x, 1, y), Part(x, 2, y2), Part(x, 4, y4), Part(x, 8, y8), Part(x, 16, Double(y8)),
              Part(x, 1, z), Part(x, 2, z2), Part(x, 4, z4), Part(x, 8, z8), Part(x, 16, Double(z8)));
  }

  ghost predicate OneBit(bit: Value) {
    bit == 1 || bit == 2 || bit == 4 || bit == 8 || bit == 16
  }

  lemma PartSum(x: Value, y: Value, bit: Value, b: Value)
    requires OneBit(bit)
    ensures Part(Sum(x, y), bit, b) == Sum(Part(x, bit, b), Part(y, bit, b))
  {
    assert (x ^ y) & bit != 0 <==> (x & bit != 0) != (y & bit != 0);
    assert Sum(b, b) == 0 && Sum(b, 0) == b && Sum(0, b) == b;
  }

  /** The same in the other factor. */
  lemma MulSpreadsLeft(x: Value, y: Value, z: Value)
    ensures Mul(Sum(x, y), z) == Sum(Mul(x, z), Mul(y, z))
  {
    hide Sum, Five, Part, Double;
    var z2 := Double(z);
    var z4 := Double(z2);
    var z8 := Double(z4);
    PartSum(x, y, 1, z);
    PartSum(x, y, 2, z2);
    PartSum(x, y, 4, z4);
    PartSum(x, y, 8, z8);
    PartSum(x, y, 16, Double(z8));
    FivePairs(Part(x, 1, z), Part(x, 2, z2), Part(x, 4, z4), Part(x, 8, z8), Part(x, 16, Double(z8)),
              Part(y, 1, z), Part(y, 2, z2), Part(y, 4, z4), Part(y, 8, z8), Part(y, 16, Double(z8)));
  }

  lemma Binary(x: Value)
    ensures x == Five(Part(x, 1, 1), Part(x, 2, 2), Part(x, 4, 4), Part(x, 8, 8), Part(x, 16, 16))
  {
  }

  lemma LowCommute(y: Value)
    ensures Mul(2, y) == Mul(y, 2) && Mul(4, y) == Mul(y, 4)
  {
  }

  lemma HighCommute(y: Value)
    ensures Mul(8, y) == Mul(y, 8) && Mul(16, y) == Mul(y, 16)
  {
  }

  lemma PartCommutes(x: Value, bit: Value, y: Value)
    requires OneBit(bit)
    ensures Mul(Part(x, bit, bit), y) == Mul(y, Part(x, bit, bit))
  {
    hide Mul;
    LowCommute(y);
    HighCommute(y);
    MulUnits(y);
  }

  lemma MulCommutes(x: Value, y: Value)
    ensures Mul(x, y) == Mul(y, x)
  {
    hide Mul, Sum, Part, Five;
    Binary(x);
    PartCommutes(x, 1, y);
    PartCommutes(x, 2, y);
    PartCommutes(x, 4, y);
    PartCommutes(x, 8, y);
    PartCommutes(x, 16, y);
    MulFive(Part(x, 1, 1), Part(x, 2, 2), Part(x, 4, 4), Part(x, 8, 8), Part(x, 16, 16), y);
    FiveMul(y, Part(x, 1, 1), Part(x, 2, 2), Part(x, 4, 4), Part(x, 8, 8), Part(x, 16, 16));
  }

  lemma FiveMul(z: Value, a: Value, b: Value, c: Value, d: Value, e: Value)
    ensures Mul(z, Five(a, b, c, d, e)) == Five(Mul(z, a), Mul(z, b), Mul(z, c), Mul(z, d), Mul(z, e))
  {
    hide Mul, Sum;
    MulSpreads(z, a, b);
    MulSpreads(z, Sum(a, b), c);
    MulSpreads(z, Sum(Sum(a, b), c), d);
    MulSpreads(z, Sum(Sum(Sum(a, b), c), d), e);
  }

  lemma DoublePart(x: Value, bit: Value, b: Value)
    ensures Double(Part(x, bit, b)) == Part(x, bit, Double(b))
  {
    assert Double(0) == 0;
  }

  lemma DoubleFive(a: Value, b: Value, c: Value, d: Value, e: Value)
    ensures Double(Five(a, b, c, d, e)) == Five(Double(a), Double(b), Double(c), Double(d), Double(e))
  {
    hide Double, Sum;
    DoubleSpreads(a, b);
    DoubleSpreads(Sum(a, b), c);
    DoubleSpreads(Sum(Sum(a, b), c), d);
    DoubleSpreads(Sum(Sum(Sum(a, b), c), d), e);
  }

  lemma MulDouble(y: Value, z: Value)
    ensures Double(Mul(y, z)) == Mul(Double(y), z)
  {
    hide Sum, Part, Double, Five;
    MulCommutes(y, z);
    MulCommutes(Double(y), z);
    var y2 := Double(y);
    var y4 := Double(y2);
    var y8 := Double(y4);
    DoublePart(z, 1, y);
    DoublePart(z, 2, y2);
    DoublePart(z, 4, y4);
    DoublePart(z, 8, y8);
    DoublePart(z, 16, Double(y8));
    DoubleFive(Part(z, 1, y), Part(z, 2, y2), Part(z, 4, y4), Part(z, 8, y8), Part(z, 16, Double(y8)));
  }

  lemma MulPart(x: Value, bit: Value, y: Value, z: Value)
    ensures Part(x, bit, Mul(y, z)) == Mul(Part(x, bit, y), z)
  {
    hide Mul;
    MulUnits(z);
  }

  lemma MulFive(a: Value, b: Value, c: Value, d: Value, e: Value, z: Value)
    ensures Mul(Five(a, b, c, d, e), z) == Five(Mul(a, z), Mul(b, z), Mul(c, z), Mul(d, z), Mul(e, z))
  {
    hide Mul, Sum;
    MulSpreadsLeft(a, b, z);
    MulSpreadsLeft(Sum(a, b), c, z);
    MulSpreadsLeft(Sum(Sum(a, b), c), d, z);
    MulSpreadsLeft(Sum(Sum(Sum(a, b), c), d), e, z);
  }

  lemma MulAssociates(x: Value, y: Value, z: Value)
    ensures Mul(x, Mul(y, z)) == Mul(Mul(x, y), z)
  {
    hide Sum, Five, Part, Double;
    var y2 := Double(y);
    var y4 := Double(y2);
    var y8 := Double(y4);
    MulDouble(y, z);
    MulDouble(y2, z);
    MulDouble(y4, z);
    MulDouble(y8, z);
    MulPart(x, 1, y, z);
    MulPart(x, 2, y2, z);
    MulPart(x, 4, y4, z);
    MulPart(x, 8, y8, z);
    MulPart(x, 16, Double(y8), z);
    MulFive(Part(x, 1, y), Part(x, 2, y2), Part(x, 4, y4), Part(x, 8, y8), Part(x, 16, Double(y8)), z);
  }

  /** No divisors of zero. */
  lemma MulZero(x: Value, y: Value)
    ensures Mul(x, y) == 0 <==> x == 0 || y == 0
  {
  }
}
