/** Single bits of bytes, least significant first. */
module ByteBits {

  /** 1 << k. */
  function Mask(k: nat): bv8
    requires k < 8
  {
    match k
    case 0 => 1
    case 1 => 2
    case 2 => 4
    case 3 => 8
    case 4 => 16
    case 5 => 32
    case 6 => 64
    case 7 => 128
  }

  predicate Holds(x: bv8, k: nat)
    requires k < 8
  {
    x & Mask(k) != 0
  }

  function With(x: bv8, k: nat): bv8
    requires k < 8
  {
    x | Mask(k)
  }

  function Without(x: bv8, k: nat): bv8
    requires k < 8
  {
    x & !Mask(k)
  }

  /** Setting and clearing one bit of a byte leaves the others alone. */
  lemma OneBit(x: bv8, j: nat, k: nat)
    requires j < 8 && k < 8
    ensures Holds(With(x, j), k) <==> j == k || Holds(x, k)
    ensures Holds(Without(x, j), k) <==> j != k && Holds(x, k)
  {
  }

  lemma AllBits(k: nat)
    requires k < 8
    ensures Holds(0xFF, k)
  {
  }
}
