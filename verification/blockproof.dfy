/** Compact targets and the work of a block (src/arith_uint256.cpp:204-222, src/chain.cpp:122-135). */
module BlockProof {
  import opened Limbs
  import opened Arith
  import opened Numbers

  // ----- The compact form -----

  function Size(nCompact: nat): nat { nCompact / 0x100_0000 }

  function Mantissa(nCompact: nat): nat { nCompact % 0x80_0000 }

  function SignBit(nCompact: nat): bool { nCompact / 0x80_0000 % 2 == 1 }

  /** The whole number that a compact form stands for: mantissa times 256^(exponent - 3), rounded down. */
  function Target(nCompact: nat): nat {
    if Size(nCompact) <= 3 then Quotient(Mantissa(nCompact), Pow2(8 * (3 - Size(nCompact))))
    else Mantissa(nCompact) * Pow2(8 * (Size(nCompact) - 3))
  }

  /** Multiplying by 2^e exceeds 2^256 exactly from 2^(256 - e) on. */
  lemma Exceeds(m: nat, e: nat)
    requires e <= 256
    ensures m * Pow2(e) >= Pow2(256) <==> m >= Pow2(256 - e)
  {
    hide Pow2;
    Pow2Add(256 - e, e);
    var d := Pow2(256 - e);
    if m >= d { Times(d, m, Pow2(e)); } else { Times(m + 1, d, Pow2(e)); Spread(m, 1, 0, Pow2(e)); }
  }

  lemma SmallPowers()
    ensures Pow2(0) == 1 && Pow2(8) == 256 && Pow2(16) == 65536 && Pow2(24) == 0x100_0000
  {
    assert Pow2(4) == 16;
    assert Pow2(8) == 256;
    Pow2Add(8, 8);
    Pow2Add(16, 8);
  }

  /** The overflow test of the source is exact. */
  lemma OverflowExact(nCompact: nat)
    requires nCompact < BASE && Size(nCompact) > 3
    ensures var m, size := Mantissa(nCompact), Size(nCompact);
            (m != 0 && (size > 34 || (m > 0xff && size > 33) || (m > 0xffff && size > 32)))
            <==> Target(nCompact) >= Pow2(256)
  {
    hide Pow2, Quotient;
    var m, size := Mantissa(nCompact), Size(nCompact);
    SmallPowers();
    if size >= 35 {
      Pow2Monotone(256, 8 * (size - 3));
      if m > 0 { Times(1, m, Pow2(8 * (size - 3))); }
    } else {
      Exceeds(m, 8 * (size - 3));
      if size <= 32 { Pow2Monotone(24, 256 - 8 * (size - 3)); }
    }
  }

  lemma SmallTarget(nCompact: nat)
    requires Size(nCompact) <= 3
    ensures Target(nCompact) < 0x80_0000 && Target(nCompact) < MODULUS && Target(nCompact) % MODULUS == Target(nCompact)
  {
    hide Pow2;
    var m, d := Mantissa(nCompact), Pow2(8 * (3 - Size(nCompact)));
    assert m / d <= m by {
      var q := m / d;
      assert m == q * d + m % d;
      Times(1, d, q);
      assert d * q == q * d;
    }
    Pow2Monotone(24, 256);
    SmallPowers();
    DivMod(Target(nCompact), MODULUS, 0, Target(nCompact));
  }

  /** SetCompact. */
  method SetCompact(n: Uint256, nCompact: nat) returns (fNegative: bool, fOverflow: bool)
    requires n.Valid() && nCompact < BASE
    modifies n.pn
    ensures n.Value() == Target(nCompact) % MODULUS
    ensures fNegative <==> Target(nCompact) != 0 && SignBit(nCompact)
    ensures fOverflow <==> Target(nCompact) >= MODULUS
  {
    hide Pow2, Quotient, Val;
    var nSize := Size(nCompact);
    var nWord := Mantissa(nCompact);
    if nSize <= 3 {
      SmallTarget(nCompact);
      nWord := Quotient(nWord, Pow2(8 * (3 - nSize)));
      n.Assign(nWord);
    } else {
      OverflowExact(nCompact);
      n.Assign(nWord);
      n.ShiftLeft(8 * (nSize - 3));
      Vanishes(nWord, Pow2(8 * (nSize - 3)));
    }
    fNegative := nWord != 0 && SignBit(nCompact);
    fOverflow := nWord != 0 && (nSize > 34 || (nWord > 0xff && nSize > 33) || (nWord > 0xffff && nSize > 32));
  }

  lemma Vanishes(m: nat, d: nat)
    requires d > 0
    ensures m * d == 0 <==> m == 0
  {
  }

  // ----- The work of a block -----

  /** 2^256 / (T + 1), and zero for a target that is zero, negative or too large. */
  ghost function Proof(nBits: nat): nat {
    var t := Target(nBits);
    if t == 0 || SignBit(nBits) || t >= MODULUS then 0 else Quotient(MODULUS, t + 1)
  }

  /** A target is never the largest 256-bit number, so adding one does not wrap around. */
  lemma RoomAbove(nBits: nat)
    requires Target(nBits) < MODULUS
    ensures Target(nBits) + 1 < MODULUS
  {
    hide Pow2, Quotient;
    if Size(nBits) <= 3 {
      SmallTarget(nBits);
      Pow2Monotone(24, 256);
      SmallPowers();
    } else {
      var e := 8 * (Size(nBits) - 3);
      Pow2Step(e - 1);
      assert Target(nBits) == 2 * (Mantissa(nBits) * Pow2(e - 1)) by { Swap3(Mantissa(nBits), Pow2(e - 1)); }
      Pow2Step(255);
    }
  }

  /** The quotient can be computed without representing 2^256. */
  lemma WithoutOverflow(m: nat, t: nat)
    requires 0 < t && t + 1 < m
    ensures (m - 1 - t) / (t + 1) + 1 == Quotient(m, t + 1)
    ensures 0 < (m - 1 - t) / (t + 1) + 1 < m
  {
    var d := t + 1;
    var q, r := (m - d) / d, (m - d) % d;
    assert m - d == q * d + r;
    Spread(q, 1, 0, d);
    DivMod(m, d, q + 1, r);
    Times(2, d, q);
    assert d * q == q * d;
  }

  /** GetBlockProof. */
  method GetBlockProof(nBits: nat) returns (r: Uint256)
    requires nBits < BASE
    ensures r.Valid() && fresh(r) && r.Value() == Proof(nBits)
    ensures r.Value() == 0 <==> Target(nBits) == 0 || SignBit(nBits) || Target(nBits) >= MODULUS
  {
    hide Pow2, Quotient, Val, Target;
    var bnTarget := new Uint256(0);
    var fNegative, fOverflow := SetCompact(bnTarget, nBits);
    var isZero := bnTarget.IsZero();
    var t := Target(nBits);
    if t < MODULUS { DivMod(t, MODULUS, 0, t); }
    if fNegative || fOverflow || isZero {
      r := new Uint256(0);
      return;
    }
    RoomAbove(nBits);
    WithoutOverflow(MODULUS, t);
    r := bnTarget.Complement();
    var one := new Uint256(1);
    var next := new Uint256.Copy(bnTarget);
    next.AddAssign(one.pn[..]);
    DivMod(t + 1, MODULUS, 0, t + 1);
    var ok := r.DivAssign(next);
    r.AddAssign(one.pn[..]);
    DivMod((MODULUS - 1 - t) / (t + 1) + 1, MODULUS, 0, (MODULUS - 1 - t) / (t + 1) + 1);
  }
}
