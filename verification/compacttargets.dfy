/** Numbers in compact form, as GetCompact writes them (src/arith_uint256.cpp:224-245) and SetCompact reads them. */
module CompactTargets {
  import opened Arith
  import opened BlockProof
  import opened Limbs
  import opened Numbers

  // ----- Bytes -----

  /** The weight of the n-th byte. */
  function Bytes(n: nat): (r: nat)
    ensures r > 0
  {
    Pow2(8 * n)
  }

  lemma BytesArePowers(n: nat)
    ensures Bytes(n) == Pow2(8 * n)
  {
  }

  lemma BytesAdd(a: nat, b: nat)
    ensures Bytes(a + b) == Bytes(a) * Bytes(b)
  {
    Pow2Add(8 * a, 8 * b);
    assert 8 * (a + b) == 8 * a + 8 * b;
  }

  lemma BytesGrow(a: nat, b: nat)
    requires a <= b
    ensures Bytes(a) <= Bytes(b)
  {
    Pow2Monotone(8 * a, 8 * b);
  }

  lemma SmallBytes()
    ensures Bytes(0) == 1 && Bytes(1) == 0x100 && Bytes(2) == 0x1_0000 && Bytes(3) == 0x100_0000
  {
    SmallPowers();
  }

  /** How many bytes a number has. */
  function ByteSize(v: nat): nat {
    if v == 0 then 0 else 1 + ByteSize(v / 256)
  }

  lemma {:induction false} ByteSizeMeans(v: nat)
    ensures v < Bytes(ByteSize(v)) && (v > 0 ==> ByteSize(v) > 0 && Bytes(ByteSize(v) - 1) <= v)
  {
    hide Bytes;
    SmallBytes();
    if v > 0 {
      var q, n := v / 256, ByteSize(v / 256);
      ByteSizeMeans(q);
      BytesAdd(n, 1);
      Times(q + 1, Bytes(n), 256);
      if n > 0 {
        BytesAdd(n - 1, 1);
        Times(Bytes(n - 1), q, 256);
      }
    }
  }

  lemma ByteSizeUnique(v: nat, n: nat)
    requires v < Bytes(n) && (n > 0 ==> Bytes(n - 1) <= v)
    ensures ByteSize(v) == n
  {
    hide Bytes;
    ByteSizeMeans(v);
    var m := ByteSize(v);
    SmallBytes();
    if m < n { BytesGrow(m, n - 1); } else if n < m { BytesGrow(n, m - 1); }
  }

  // ----- The compact form of a number -----

  /** A mantissa of three bytes and the size they are scaled to. */
  datatype Short = Short(word: nat, size: nat)

  /** The three leading bytes. */
  function Leading(v: nat): Short {
    var size := ByteSize(v);
    Short(if size <= 3 then v * Bytes(3 - size) else Quotient(v, Bytes(size - 3)), size)
  }

  /** The leading bytes that fit beside a sign bit. */
  function Shortened(v: nat): Short {
    var s := Leading(v);
    if s.word >= 0x80_0000 then Short(s.word / 256, s.size + 1) else s
  }

  function Packed(s: Short, negative: bool): nat {
    s.size * 0x100_0000 + (if negative && s.word != 0 then 0x80_0000 else 0) + s.word
  }

  function CompactOf(v: nat, negative: bool): nat {
    Packed(Shortened(v), negative)
  }

  /** The word is what three bytes can tell of the number. */
  ghost predicate Approximates(v: nat, s: Short) {
    s.word * Bytes(s.size) <= v * Bytes(3) < (s.word + 1) * Bytes(s.size)
  }

  /** A word that fits beside the sign bit, and has no zero byte in front. */
  predicate Full(word: nat) {
    0x8000 <= word < 0x80_0000
  }

  lemma LeadingRight(v: nat)
    ensures Approximates(v, Leading(v))
    ensures Leading(v).size <= 3 ==> Leading(v).word * Bytes(Leading(v).size) == v * Bytes(3)
    ensures Leading(v).word < 0x100_0000 && (v > 0 ==> Leading(v).word >= 0x1_0000)
  {
    hide Bytes, ByteSize, Quotient;
    var s := Leading(v);
    ByteSizeMeans(v);
    SmallBytes();
    if s.size <= 3 {
      BytesAdd(3 - s.size, s.size);
      Scaled(v, s.size);
    } else {
      BytesAdd(3, s.size - 3);
      BytesAdd(2, s.size - 3);
      Divided(v, Bytes(s.size - 3));
      assert Bytes(s.size - 1) == Bytes(2) * Bytes(s.size - 3);
    }
  }

  lemma Scaled(v: nat, size: nat)
    requires size <= 3 && v < Bytes(size) && (v > 0 ==> size > 0 && Bytes(size - 1) <= v)
    ensures var w := v * Bytes(3 - size);
            && w * Bytes(size) == v * Bytes(3) < (w + 1) * Bytes(size)
            && w < 0x100_0000 && (v > 0 ==> w >= 0x1_0000)
  {
    hide Bytes;
    var d := Bytes(3 - size);
    var w := v * d;
    SmallBytes();
    BytesAdd(size, 3 - size);
    Spread(w, 1, 0, Bytes(size));
    Regrouped(v, d, Bytes(size));
    assert v * d < Bytes(size) * d by { Times(v + 1, Bytes(size), d); Spread(v, 1, 0, d); }
    if v > 0 {
      BytesAdd(size - 1, 3 - size);
      Times(Bytes(size - 1), v, d);
    }
  }

  lemma Regrouped(v: nat, d: nat, e: nat)
    ensures (v * d) * e == v * (e * d)
  {
    assert (v * d) * e == v * (d * e);
  }

  lemma Divided(v: nat, d: nat)
    requires d > 0 && v < 0x100_0000 * d
    ensures var w := Quotient(v, d);
            && w * (0x100_0000 * d) <= v * 0x100_0000 < (w + 1) * (0x100_0000 * d)
            && w < 0x100_0000 && (0x1_0000 * d <= v ==> w >= 0x1_0000)
  {
    var w, r := v / d, v % d;
    assert v == w * d + r;
    Spread(w, 1, 0, d);
    Times(w * d, v, 0x100_0000);
    Times(v + 1, (w + 1) * d, 0x100_0000);
    assert w * (0x100_0000 * d) == (w * d) * 0x100_0000;
    assert (w + 1) * (0x100_0000 * d) == ((w + 1) * d) * 0x100_0000;
    Times(Min(w, 0x100_0000), w, d);
    Times(w + 1, Max(w + 1, 0x1_0000), d);
  }

  /** The compact form of a number tells it to three bytes, exactly when those are enough; and it is full. */
  lemma ShortRight(v: nat)
    ensures Approximates(v, Shortened(v)) && (if v == 0 then Shortened(v) == Short(0, 0) else Full(Shortened(v).word))
    ensures Shortened(v).size <= 3 ==> Shortened(v).word * Bytes(Shortened(v).size) == v * Bytes(3)
    ensures Shortened(v).size <= ByteSize(v) + 1
  {
    hide Bytes, ByteSize, Leading;
    var s := Leading(v);
    LeadingRight(v);
    LeadingSize(v);
    SmallBytes();
    if s.word >= 0x80_0000 {
      var q, r := s.word / 256, s.word % 256;
      BytesAdd(1, s.size);
      var d := Bytes(s.size);
      assert s.word == 256 * q + r;
      Halved(q, r, d);
      if s.size <= 2 { NoRemainder(v, s.size, q, r); }
    }
  }

  lemma LeadingSize(v: nat)
    ensures Leading(v).size == ByteSize(v) && (v == 0 ==> Leading(v) == Short(0, 0))
  {
  }

  lemma Halved(q: nat, r: nat, d: nat)
    requires r < 256
    ensures q * (256 * d) <= (256 * q + r) * d && (256 * q + r + 1) * d <= (q + 1) * (256 * d)
    ensures r == 0 ==> q * (256 * d) == (256 * q + r) * d
  {
    assert q * (256 * d) == (256 * q) * d;
    assert (q + 1) * (256 * d) == (256 * q + 256) * d;
    Times(256 * q, 256 * q + r, d);
    Times(256 * q + r + 1, 256 * q + 256, d);
  }

  /** The leading bytes of a number with fewer than three end in a zero byte. */
  lemma NoRemainder(v: nat, size: nat, q: nat, r: nat)
    requires size <= 2 && r < 256 && (256 * q + r) * Bytes(size) == v * Bytes(3)
    ensures r == 0
  {
    hide Bytes;
    BytesAdd(size, 3 - size);
    BytesAdd(2 - size, 1);
    SmallBytes();
    var d, e := Bytes(size), Bytes(2 - size);
    assert v * Bytes(3) == (v * e * 256) * d by { assert v * (d * (e * 256)) == (v * e * 256) * d; }
    Cancelled(256 * q + r, v * e * 256, d);
    Unique(256, q, r, v * e, 0);
  }

  lemma Cancelled(x: nat, y: nat, d: nat)
    requires d > 0 && x * d == y * d
    ensures x == y
  {
    Unique(d, x, 0, y, 0);
  }

  // ----- There and back -----

  /** The parts of a packed form. */
  lemma PackedParts(s: Short, negative: bool)
    requires s.word < 0x80_0000
    ensures var c := Packed(s, negative);
            Size(c) == s.size && Mantissa(c) == s.word && (SignBit(c) <==> negative && s.word != 0)
  {
    var c, sign := Packed(s, negative), if negative && s.word != 0 then 1 else 0;
    DivMod(c, 0x100_0000, s.size, sign * 0x80_0000 + s.word);
    DivMod(c, 0x80_0000, 2 * s.size + sign, s.word);
    assert (2 * s.size + sign) % 2 == sign;
  }

  /** What SetCompact makes of a mantissa and a size. */
  lemma TargetOf(c: nat)
    ensures var s := Short(Mantissa(c), Size(c));
            && (s.size > 3 ==>
                  Target(c) == s.word * Bytes(s.size - 3) && Target(c) * Bytes(3) == s.word * Bytes(s.size))
            && (s.size <= 3 ==> Target(c) == Quotient(s.word, Bytes(3 - s.size)) && Target(c) < 0x80_0000)
  {
    hide Pow2, Mantissa, Size;
    if Size(c) > 3 {
      BytesAdd(3, Size(c) - 3);
      Regrouped(Mantissa(c), Bytes(Size(c) - 3), Bytes(3));
    } else {
      SmallTarget(c);
    }
  }

  /** SetCompact of the compact form: the number with all but its leading bytes cleared, never too large, never
    * negative.
    */
  lemma CompactRounds(v: nat)
    ensures var c, unit := CompactOf(v, false), Bytes(Max(3, Shortened(v).size) - 3);
            && Target(c) <= v < Target(c) + unit && Target(c) % unit == 0 && !SignBit(c)
            && (Target(c) == 0 <==> v == 0)
  {
    hide Bytes, Shortened, Quotient, Target, Mantissa, Size, SignBit, Packed;
    var s, c := Shortened(v), CompactOf(v, false);
    ShortRight(v);
    PackedParts(s, false);
    TargetOf(c);
    SmallBytes();
    if s.size <= 3 {
      BytesAdd(s.size, 3 - s.size);
      ExactSmall(v, s.word, s.size);
    } else {
      var d := Bytes(s.size - 3);
      BytesAdd(3, s.size - 3);
      ExactLarge(v, s.word, d);
    }
  }

  lemma ExactSmall(v: nat, word: nat, size: nat)
    requires size <= 3 && word * Bytes(size) == v * Bytes(3)
    ensures word == v * Bytes(3 - size) && Quotient(word, Bytes(3 - size)) == v
  {
    hide Bytes;
    BytesAdd(size, 3 - size);
    Regrouped(v, Bytes(3 - size), Bytes(size));
    Cancelled(word, v * Bytes(3 - size), Bytes(size));
    DivMod(word, Bytes(3 - size), v, 0);
  }

  lemma ExactLarge(v: nat, word: nat, d: nat)
    requires d > 0 && word * (0x100_0000 * d) <= v * 0x100_0000 < (word + 1) * (0x100_0000 * d)
    ensures word * d <= v < word * d + d && (word * d) % d == 0
    ensures word > 0 ==> word * d > 0
  {
    assert word * (0x100_0000 * d) == (word * d) * 0x100_0000;
    assert (word + 1) * (0x100_0000 * d) == (word * d + d) * 0x100_0000 by { Spread(word, 1, 0, d); }
    DivMod(word * d, d, word, 0);
    if word > 0 { Times(1, word, d); }
  }

  /** The sign comes back, unless the number is zero. */
  lemma SignKept(v: nat, negative: bool)
    ensures SignBit(CompactOf(v, negative)) <==> negative && v != 0
    ensures Target(CompactOf(v, negative)) == Target(CompactOf(v, false))
  {
    hide Shortened, Packed, Size, Mantissa, SignBit, Bytes;
    ShortRight(v);
    PackedParts(Shortened(v), negative);
    PackedParts(Shortened(v), false);
  }

  /** Only one full word and size tell a number to three bytes. */
  lemma ApproximatesOnce(v: nat, s: Short, t: Short)
    requires Approximates(v, s) && Approximates(v, t) && Full(s.word) && Full(t.word)
    ensures s == t
  {
    hide Bytes;
    SizeNotBelow(v, s, t);
    SizeNotBelow(v, t, s);
    var d := Bytes(s.size);
    OneQuotient(v * Bytes(3), s.word, t.word, d);
  }

  lemma SizeNotBelow(v: nat, s: Short, t: Short)
    requires Approximates(v, s) && Approximates(v, t) && Full(s.word) && Full(t.word)
    ensures s.size >= t.size
  {
    hide Bytes;
    if s.size < t.size {
      BytesGrow(s.size + 1, t.size);
      BytesAdd(s.size, 1);
      SmallBytes();
      Times(s.word + 1, 0x80_0000, Bytes(s.size));
      Product(0x8000, t.word, Bytes(s.size + 1), Bytes(t.size));
      assert false;
    }
  }

  lemma OneQuotient(x: nat, a: nat, b: nat, d: nat)
    requires a * d <= x < (a + 1) * d && b * d <= x < (b + 1) * d
    ensures a == b
  {
    Spread(a, 1, 0, d);
    Spread(b, 1, 0, d);
    Unique(d, a, x - a * d, b, x - b * d);
  }

  /** The compact numbers that GetCompact writes for numbers that are not negative. */
  predicate Canonical(c: nat) {
    && !SignBit(c)
    && (c == 0 || Full(Mantissa(c)))
    && (Size(c) <= 3 ==> Mantissa(c) % Bytes(3 - Size(c)) == 0)
  }

  lemma CompactCanonical(v: nat)
    ensures Canonical(CompactOf(v, false))
  {
    hide Bytes, Shortened, Mantissa, Size, SignBit, Quotient;
    var s := Shortened(v);
    ShortRight(v);
    PackedParts(s, false);
    if s.size <= 3 {
      ExactSmall(v, s.word, s.size);
      DivMod(s.word, Bytes(3 - s.size), v, 0);
    }
  }

  /** A compact number is written back as it was read exactly when it is canonical. */
  lemma WrittenBack(c: nat)
    ensures CompactOf(Target(c), false) == c <==> Canonical(c)
  {
    hide Bytes, Shortened, Mantissa, Size, SignBit, Target, Quotient, Full, CompactOf;
    CompactCanonical(Target(c));
    if Canonical(c) { CanonicalBack(c); }
  }

  lemma CanonicalBack(c: nat)
    requires Canonical(c)
    ensures CompactOf(Target(c), false) == c
  {
    hide Bytes, Shortened, Mantissa, Size, SignBit, Target, Quotient;
    var v, s := Target(c), Short(Mantissa(c), Size(c));
    Parts(c);
    ShortRight(v);
    if c == 0 {
      ZeroTarget();
    } else {
      CanonicalApproximates(c);
      if v == 0 { ZeroWord(s); }
      ApproximatesOnce(v, s, Shortened(v));
    }
  }

  lemma ZeroTarget()
    ensures Target(0) == 0
  {
    DivMod(0, Pow2(24), 0, 0);
  }

  lemma ZeroWord(s: Short)
    requires Approximates(0, s)
    ensures s.word == 0
  {
    hide Bytes;
    Times(Min(1, s.word), s.word, Bytes(s.size));
  }

  lemma Parts(c: nat)
    ensures !SignBit(c) ==> c == Packed(Short(Mantissa(c), Size(c)), false)
  {
    var q, m := c / 0x80_0000, c % 0x80_0000;
    assert c == q * 0x80_0000 + m;
    if q % 2 == 0 { DivMod(c, 0x100_0000, q / 2, m); }
  }

  lemma CanonicalApproximates(c: nat)
    requires Canonical(c)
    ensures Approximates(Target(c), Short(Mantissa(c), Size(c)))
  {
    hide Bytes, Mantissa, Size, SignBit, Target, Full;
    var v, word, size := Target(c), Mantissa(c), Size(c);
    TargetOf(c);
    Spread(word, 1, 0, Bytes(size));
    if size <= 3 {
      var d := Bytes(3 - size);
      assert word == v * d by { assert word == word / d * d + word % d; }
      BytesAdd(size, 3 - size);
      Regrouped(v, d, Bytes(size));
    }
  }

  /** A target that SetCompact reads is told by its compact form exactly. */
  lemma TargetKept(c: nat)
    ensures Target(CompactOf(Target(c), false)) == Target(c)
  {
    hide Bytes, Shortened, Mantissa, Size, SignBit, Target, Quotient, CompactOf;
    var v, s := Target(c), Shortened(Target(c));
    CompactRounds(v);
    ShortRight(v);
    TargetOf(c);
    SmallBytes();
    if s.size > 3 && v > 0 {
      UnitDivides(c, s);
      SameMultiple(Target(CompactOf(v, false)), v, Bytes(s.size - 3));
    }
  }

  lemma SameMultiple(a: nat, b: nat, d: nat)
    requires d > 0 && a <= b < a + d && a % d == 0 && b % d == 0
    ensures a == b
  {
    var q := a / d;
    assert a == q * d;
    DivMod(b, d, q, b - a);
  }

  /** The unit of the compact form divides the target. */
  lemma UnitDivides(c: nat, s: Short)
    requires Approximates(Target(c), s) && Full(s.word) && s.size > 3
    ensures Target(c) % Bytes(s.size - 3) == 0
  {
    hide Bytes, Mantissa, Size, Target, Quotient;
    var v, d := Target(c), Bytes(s.size - 3);
    TargetOf(c);
    SmallBytes();
    BytesAdd(3, s.size - 3);
    ExactLarge(v, s.word, d);
    Times(0x8000, s.word, d);
    BytesGrow(1, s.size - 3);
    assert v >= 0x80_0000;
    var e, m := Size(c) - 3, Mantissa(c);
    MantissaBound(c);
    if s.size - 3 > e {
      BytesGrow(e + 1, s.size - 3);
      BytesAdd(e, 1);
      Times(m + 1, 0x80_0000, Bytes(e));
      Spread(m, 1, 0, Bytes(e));
    }
    assert s.size - 3 <= e;
    BytesAdd(e - (s.size - 3), s.size - 3);
    var k := Bytes(e - (s.size - 3));
    assert v == (m * k) * d by { assert m * (k * d) == (m * k) * d; }
    DivMod(v, d, m * k, 0);
  }

  lemma MantissaBound(c: nat)
    ensures Mantissa(c) < 0x80_0000
  {
  }

  // ----- GetCompact -----

  lemma LowSame(s: seq<Limb>)
    requires |s| >= 2 && Val(s) < BASE * BASE
    ensures s[0] + s[1] * BASE == Val(s)
  {
    hide Val, Weight;
    var low: seq<Limb> := [s[0], s[1]];
    assert s == low + s[2..];
    ValConcat(low, s[2..]);
    TwoLimbs(s[0], s[1]);
    WeightStep(1);
    WeightStep(0);
    FirstWeight();
    Times(Min(1, Val(s[2..])), Val(s[2..]), Weight(2));
  }

  lemma FirstWeight()
    ensures Weight(0) == 1
  {
  }

  /** GetLow64, of a number with no more than 64 bits. */
  method GetLow64(n: Uint256) returns (low: nat)
    requires n.Valid() && n.Value() < BASE * BASE
    ensures low == n.Value()
  {
    LowSame(n.pn[..]);
    low := n.pn[0] + n.pn[1] * BASE;
  }

  lemma BitsToBytes(v: nat, bits: nat)
    requires (bits == 0 <==> v == 0) && (bits > 0 ==> Pow2(bits - 1) <= v < Pow2(bits))
    ensures (bits + 7) / 8 == ByteSize(v)
  {
    hide Pow2, ByteSize;
    var n := (bits + 7) / 8;
    if bits > 0 {
      Pow2Monotone(bits, 8 * n);
      Pow2Monotone(8 * (n - 1), bits - 1);
    }
    Pow2Zero();
    ByteSizeUnique(v, n);
  }

  /** The first half of GetCompact: the leading three bytes. */
  method LeadingBytes(n: Uint256) returns (nCompact: nat, nSize: nat)
    requires n.Valid()
    ensures Short(nCompact, nSize) == Leading(n.Value()) && nSize <= 32
  {
    hide Pow2, Val, Quotient, ByteSize, Bytes;
    ghost var v := n.Value();
    var bits := n.Bits();
    BitsToBytes(v, bits);
    LeadingRight(v);
    ByteSizeMeans(v);
    SmallBytes();
    nSize := (bits + 7) / 8;
    if nSize <= 3 {
      BytesArePowers(3 - nSize);
      BytesGrow(nSize, 3);
      var low := GetLow64(n);
      nCompact := low * Pow2(8 * (3 - nSize)) % BASE;
      DivMod(Leading(v).word, BASE, 0, Leading(v).word);
    } else {
      BytesArePowers(nSize - 3);
      var bn := new Uint256.Copy(n);
      bn.ShiftRight(8 * (nSize - 3));
      var low := GetLow64(bn);
      nCompact := low % BASE;
      DivMod(Leading(v).word, BASE, 0, Leading(v).word);
    }
  }

  /** The parts of a compact number have no bit in common. */
  lemma Joined(word: nat, size: nat)
    requires word < 0x80_0000
    ensures Or(word, size * 0x100_0000) == word + size * 0x100_0000
    ensures Or(word + size * 0x100_0000, 0x80_0000) == word + size * 0x100_0000 + 0x80_0000
    ensures Or(word + size * 0x100_0000, 0) == word + size * 0x100_0000
  {
    hide Pow2, Or;
    SmallPowers();
    Pow2Step(23);
    OrAdds(word, size, 24);
    OrSetsBit(word, size, 23);
    OrNothing(word + size * 0x100_0000);
  }

  /** GetCompact. */
  method GetCompact(n: Uint256, fNegative: bool) returns (nCompact: nat)
    requires n.Valid()
    ensures nCompact == CompactOf(n.Value(), fNegative) && nCompact < BASE
  {
    hide Leading, Pow2, Val, Bytes, ByteSize, Or;
    LeadingRight(n.Value());
    var nSize;
    nCompact, nSize := LeadingBytes(n);
    if nCompact / 0x80_0000 % 2 == 1 {
      nCompact := nCompact / 256;
      nSize := nSize + 1;
    }
    assert nCompact < 0x80_0000;
    assert nSize < 256;
    Joined(nCompact, nSize);
    DivMod(nCompact + nSize * 0x100_0000, 0x80_0000, 2 * nSize, nCompact);
    nCompact := Or(nCompact, nSize * 0x100_0000);
    nCompact := Or(nCompact, if fNegative && Mantissa(nCompact) != 0 then 0x80_0000 else 0);
  }

  /** Writing a number and reading it back. */
  method WriteAndRead(n: Uint256, fNegative: bool) returns (m: Uint256, negative: bool, overflow: bool)
    requires n.Valid()
    ensures m.Valid() && fresh(m) && !overflow && (negative <==> fNegative && n.Value() != 0)
    ensures m.Value() == Target(CompactOf(n.Value(), false)) <= n.Value()
  {
    hide Pow2, Val, Quotient, CompactOf, Target, SignBit, Shortened, Bytes;
    var nCompact := GetCompact(n, fNegative);
    m := new Uint256(0);
    SignKept(n.Value(), fNegative);
    CompactRounds(n.Value());
    ValueBound(n);
    negative, overflow := SetCompact(m, nCompact);
    DivMod(Target(nCompact), MODULUS, 0, Target(nCompact));
  }

  lemma ValueBound(n: Uint256)
    requires n.Valid()
    ensures n.Value() < MODULUS
  {
    ValBound(n.pn[..]);
  }
}
