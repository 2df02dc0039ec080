/** Base58 encoding of byte strings (src/base58.cpp:19-106). */
module Base58 {
  import opened Digits
  import opened Numbers
  import opened Options

  // ----- Characters -----

  function CharOf(d: nat): char
    requires d < 58
  {
    if d < 9 then ('1' as int + d) as char
    else if d < 17 then ('A' as int + d - 9) as char
    else if d < 22 then ('J' as int + d - 17) as char
    else if d < 33 then ('P' as int + d - 22) as char
    else if d < 44 then ('a' as int + d - 33) as char
    else ('m' as int + d - 44) as char
  }

  /** The position of a character in the alphabet. */
  function DigitOf(c: char): Option<nat> {
    if '1' <= c <= '9' then Some(c as int - '1' as int)
    else if 'A' <= c <= 'H' then Some(c as int - 'A' as int + 9)
    else if 'J' <= c <= 'N' then Some(c as int - 'J' as int + 17)
    else if 'P' <= c <= 'Z' then Some(c as int - 'P' as int + 22)
    else if 'a' <= c <= 'k' then Some(c as int - 'a' as int + 33)
    else if 'm' <= c <= 'z' then Some(c as int - 'm' as int + 44)
    else None
  }

  predicate IsSpace(c: char) {
    c == ' ' || c == '\t' || c == '\n' || c == '\r' || c as int == 11 || c as int == 12
  }

  lemma CharRoundTrip(d: nat)
    requires d < 58
    ensures DigitOf(CharOf(d)) == Some(d) && !IsSpace(CharOf(d)) && (CharOf(d) == '1' <==> d == 0)
  {
  }

  /** The alphabet is in the order of the characters. */
  lemma AlphabetOrder(d: nat, e: nat)
    requires d < e < 58
    ensures CharOf(d) < CharOf(e)
  {
  }

  /** It has the digits and letters but for 0, O, I and l. */
  lemma AlphabetExact(c: char)
    ensures DigitOf(c).Some? <==>
              && ('0' <= c <= '9' || 'A' <= c <= 'Z' || 'a' <= c <= 'z')
              && c != '0' && c != 'O' && c != 'I' && c != 'l'
    ensures DigitOf(c).Some? ==> DigitOf(c).value < 58 && CharOf(DigitOf(c).value) == c
  {
  }

  // ----- Buffers are large enough -----

  lemma Powers58()
    ensures Pow(58, 11) == 24986644000165537792
    ensures Pow(58, 71) ==
              159730386663078066345306447337161584696769904898410078913243029577507397293846405390982563136983769384625594118558891106107392
  {
    assert Pow(58, 2) == 3364;
    PowAdd(58, 2, 2);
    PowAdd(58, 4, 4);
    assert Pow(58, 8) == 128063081718016;
    PowAdd(58, 8, 8);
    PowAdd(58, 16, 16);
    PowAdd(58, 32, 32);
    assert Pow(58, 64) ==
      72342179355466901471258927612150153907721848234316445933056526044582001260898145151856420451025374266490194231296;
    PowAdd(58, 8, 3);
    PowAdd(58, 4, 3);
    PowAdd(58, 64, 7);
  }

  lemma Powers256()
    ensures Pow(256, 8) == 18446744073709551616
    ensures Pow(256, 52) ==
              169230328010303641331690318856389386196071598838855992136870091590247882556495704531248437872567112920983350278405979725889536
  {
    assert Pow(256, 2) == 65536;
    PowAdd(256, 2, 2);
    PowAdd(256, 4, 4);
    PowAdd(256, 8, 8);
    PowAdd(256, 16, 16);
    PowAdd(256, 32, 16);
    PowAdd(256, 48, 4);
  }

  lemma Powers()
    ensures Pow(256, 8) <= Pow(58, 11) && Pow(58, 71) <= Pow(256, 52)
  {
    hide Pow;
    Powers58();
    Powers256();
  }

  /** 733/1000 of the number of characters, and one, is room enough for the bytes. */
  lemma BytesFit(n: nat)
    ensures Pow(58, n) <= Pow(256, n * 733 / 1000 + 1)
  {
    hide Pow;
    Powers();
    Enough(58, 256, 71, 52, n, n * 733 / 1000 + 1);
  }

  /** 138/100 of the number of bytes, and one, is room enough for the characters. */
  lemma CharsFit(n: nat)
    ensures Pow(256, n) <= Pow(58, n * 138 / 100 + 1)
  {
    hide Pow;
    Powers();
    Enough(256, 58, 8, 11, n, n * 138 / 100 + 1);
  }

  // ----- Multiplying a buffer in place -----

  /** One digit x of the buffer `was`, with the digits after it done: now the digits `now`, with a carry that makes x
    * into the digit r and the next carry q. */
  lemma CarryStep(base: nat, factor: nat, d: nat, x: nat, was: seq<nat>, now: seq<nat>, carry: nat, q: nat, r: nat)
    requires |was| == |now| && Big(base, now) + carry * Pow(base, |now|) == Big(base, was) * factor + d
    requires q * base + r == carry + factor * x
    ensures Big(base, [r] + now) + q * Pow(base, |now| + 1) == Big(base, [x] + was) * factor + d
  {
    hide Big, Pow;
    BigConcat(base, [r], now);
    BigConcat(base, [x], was);
    BigOne(base, x);
    BigOne(base, r);
    PowStep(base, |now|);
    CarryArithmetic(q, r, base, Pow(base, |now|), carry, factor, x, Big(base, now), Big(base, was), d);
  }

  lemma CarryArithmetic(q: nat, r: nat, base: nat, p: nat, carry: nat, factor: nat, x: nat, now: nat, was: nat, d: nat)
    requires q * base + r == carry + factor * x && now + carry * p == was * factor + d
    ensures (r * p + now) + q * (base * p) == (x * p + was) * factor + d
  {
    assert (q * base) * p == q * (base * p);
    Spread(q * base, r, 0, p);
    Spread(carry, factor * x, 0, p);
    assert (factor * x) * p == (x * p) * factor by { assert (factor * x) * p == factor * (x * p); }
    Spread(x * p, was, 0, factor);
  }

  lemma BigOne(base: nat, x: nat)
    ensures Big(base, [x]) == x
  {
    assert [x][..0] == [];
  }

  /** A carry out of the buffer would mean the number does not fit. */
  lemma NoCarry(v: nat, carry: nat, p: nat, total: nat)
    requires v + carry * p == total && total < p
    ensures carry == 0 && v == total
  {
    if carry > 0 {
      Times(1, carry, p);
      assert false;
    }
  }

  /** b256 = b256 * 58 + digit. */
  method Absorb256(b256: array<nat>, digit: nat)
    requires Below(256, b256[..]) && digit < 58 && Big(256, b256[..]) * 58 + digit < Pow(256, b256.Length)
    modifies b256
    ensures Below(256, b256[..]) && Big(256, b256[..]) == old(Big(256, b256[..])) * 58 + digit
  {
    hide Big, Pow;
    ghost var was := b256[..];
    var carry := digit;
    var j := b256.Length;
    CarryStart(256, 58, digit, b256[j..]);
    while j > 0
      invariant 0 <= j <= b256.Length && 0 <= carry < 58 && Below(256, b256[..])
      invariant b256[..j] == was[..j]
      invariant Big(256, b256[j..]) + carry * Pow(256, b256.Length - j) == Big(256, was[j..]) * 58 + digit
    {
      j := j - 1;
      ghost var now, x, before := b256[j + 1..], b256[j], carry;
      assert x == was[..j + 1][j];
      carry := carry + 58 * b256[j];
      b256[j] := carry % 256;
      carry := carry / 256;
      CarryStep(256, 58, digit, x, was[j + 1..], now, before, carry, b256[j]);
      assert b256[j..] == [b256[j]] + now && was[j..] == [x] + was[j + 1..];
    }
    assert b256[0..] == b256[..] && was[0..] == was;
    NoCarry(Big(256, b256[..]), carry, Pow(256, b256.Length), Big(256, was) * 58 + digit);
    assert carry == 0;
  }

  lemma CarryStart(base: nat, factor: nat, d: nat, s: seq<nat>)
    requires s == []
    ensures Big(base, s) + d * Pow(base, 0) == Big(base, s) * factor + d
  {
  }

  /** b58 = b58 * 256 + byte, on the last `length` digits and as far as the carry goes. */
  method Absorb58(b58: array<nat>, length: nat, byte: nat) returns (newLength: nat)
    requires Below(58, b58[..]) && byte < 256 && length <= b58.Length
    requires Big(58, b58[..]) * 256 + byte < Pow(58, b58.Length)
    requires forall k :: 0 <= k < b58.Length - length ==> b58[k] == 0
    modifies b58
    ensures Below(58, b58[..]) && Big(58, b58[..]) == old(Big(58, b58[..])) * 256 + byte
    ensures newLength <= b58.Length && forall k :: 0 <= k < b58.Length - newLength ==> b58[k] == 0
  {
    hide Big, Pow;
    ghost var was := b58[..];
    var size := b58.Length;
    var carry := byte;
    var i := 0;
    CarryStart(58, 256, byte, b58[size..]);
    while (carry != 0 || i < length) && i < size
      invariant 0 <= i <= size && 0 <= carry < 256 && Below(58, b58[..])
      invariant b58[..size - i] == was[..size - i]
      invariant Big(58, b58[size - i..]) + carry * Pow(58, i) == Big(58, was[size - i..]) * 256 + byte
      decreases size - i
    {
      var j := size - i - 1;
      ghost var now, x, before := b58[j + 1..], b58[j], carry;
      assert x == was[..j + 1][j];
      carry := carry + 256 * b58[j];
      b58[j] := carry % 58;
      carry := carry / 58;
      CarryStep(58, 256, byte, x, was[j + 1..], now, before, carry, b58[j]);
      assert b58[j..] == [b58[j]] + now && was[j..] == [x] + was[j + 1..];
      i := i + 1;
    }
    if i == size {
      assert b58[0..] == b58[..] && was[0..] == was;
      NoCarry(Big(58, b58[..]), carry, Pow(58, size), Big(58, was) * 256 + byte);
    } else {
      NoCarryLeft(b58[..], was, size - i);
    }
    assert carry == 0;
    newLength := i;
    forall k | 0 <= k < size - i ensures b58[k] == 0 { assert b58[k] == was[..size - i][k]; }
  }

  /** Zeros in front do not count. */
  lemma NoCarryLeft(s: seq<nat>, was: seq<nat>, n: nat)
    requires |s| == |was| && n <= |s| && s[..n] == was[..n] && forall k :: 0 <= k < n ==> was[k] == 0
    ensures Big(58, s) == Big(58, s[n..]) && Big(58, was) == Big(58, was[n..])
  {
    hide Big, Pow;
    forall k | 0 <= k < n ensures s[k] == 0 { assert s[..n][k] == was[..n][k]; }
    LeadingGone(s, n);
    LeadingGone(was, n);
  }

  lemma LeadingGone(s: seq<nat>, n: nat)
    requires n <= |s| && forall k :: 0 <= k < n ==> s[k] == 0
    ensures Big(58, s) == Big(58, s[n..])
  {
    hide Big, Pow;
    assert s == s[..n] + s[n..];
    BigConcat(58, s[..n], s[n..]);
    BigZeros(58, s[..n]);
  }

  // ----- Encoding -----

  ghost function Chars(digits: seq<nat>): string
    requires Below(58, digits)
  {
    seq(|digits|, i requires 0 <= i < |digits| => CharOf(digits[i]))
  }

  function Ones(n: nat): string { seq(n, _ => '1') }

  /** A '1' for every leading zero byte, then the number in base 58. */
  ghost function Encoded(v: seq<nat>): string {
    DigitsValue(58, Big(256, v));
    Ones(LeadingZeros(v)) + Chars(DigitsOf(58, Big(256, v)))
  }

  method EncodeBase58(v: seq<nat>) returns (str: string)
    requires Below(256, v)
    ensures str == Encoded(v)
  {
    hide Big, DigitsOf, Stripped;
    var zeroes := SkipLeadingZeros(v, 0);
    StrippedDigits(256, v);
    SameLength(v, zeroes);
    var b58, length := ToBase58(v[zeroes..]);
    SameValue(v, v[zeroes..]);
    str := Translate(zeroes, b58, |b58| - length);
  }

  /** The first place from `from` on with a digit that is not zero. */
  method SkipLeadingZeros(s: seq<nat>, from: nat) returns (it: nat)
    requires from <= |s| && forall k :: 0 <= k < from ==> s[k] == 0
    ensures it <= |s| && s[it..] == Stripped(s)
  {
    it := from;
    SkipZeros(s, from);
    while it < |s| && s[it] == 0
      invariant 0 <= it <= |s| && Stripped(s[it..]) == Stripped(s)
    {
      it := it + 1;
    }
  }

  lemma SameLength(s: seq<nat>, n: nat)
    requires n <= |s| && s[n..] == Stripped(s) && s == Zeros(LeadingZeros(s)) + Stripped(s)
    ensures n == LeadingZeros(s)
  {
  }

  /** The digits of a number given in bytes, in a buffer of which the last `length` may be other than zero. */
  method ToBase58(bytes: seq<nat>) returns (digits: seq<nat>, length: nat)
    requires Below(256, bytes)
    ensures Below(58, digits) && Big(58, digits) == Big(256, bytes)
    ensures length <= |digits| && forall k :: 0 <= k < |digits| - length ==> digits[k] == 0
  {
    hide Big, Pow;
    var size := |bytes| * 138 / 100 + 1;
    var b58 := new nat[size](_ => 0);
    BigZeros(58, b58[..]);
    CharsFit(|bytes|);
    EmptyBig(bytes);
    length := 0;
    for i := 0 to |bytes|
      invariant length <= size && fresh(b58)
      invariant Below(58, b58[..]) && Big(58, b58[..]) == Big(256, bytes[..i])
      invariant forall k :: 0 <= k < size - length ==> b58[k] == 0
    {
      NextFits(bytes, i, size);
      length := Absorb58(b58, length, bytes[i]);
    }
    assert bytes[..|bytes|] == bytes;
    digits := b58[..];
  }

  lemma EmptyBig(s: seq<nat>)
    ensures Big(256, s[..0]) == 0
  {
  }

  lemma SameValue(v: seq<nat>, rest: seq<nat>)
    requires Below(256, v) && rest == Stripped(v)
    ensures Big(256, rest) == Big(256, v)
  {
    hide Big, DigitsOf;
    StrippedDigits(256, v);
    DigitsValue(256, Big(256, v));
  }

  lemma NextFits(s: seq<nat>, n: nat, size: nat)
    requires Below(256, s) && n < |s| && Pow(256, |s|) <= Pow(58, size)
    ensures Big(256, s[..n + 1]) == Big(256, s[..n]) * 256 + s[n] < Pow(58, size)
  {
    hide Pow;
    assert s[..n + 1][..n] == s[..n];
    BigBound(256, s[..n + 1]);
    PowGrows(256, n + 1, |s|);
  }

  /** The string: skip leading zeros from the given place, translate the rest. */
  method Translate(zeroes: nat, b58: seq<nat>, from: nat) returns (str: string)
    requires Below(58, b58) && from <= |b58| && forall k :: 0 <= k < from ==> b58[k] == 0
    ensures Below(58, DigitsOf(58, Big(58, b58)))
    ensures str == Ones(zeroes) + Chars(DigitsOf(58, Big(58, b58)))
  {
    hide Big, DigitsOf, Stripped, CharOf;
    StrippedDigits(58, b58);
    var it := SkipLeadingZeros(b58, from);
    var digits := b58[it..];
    str := Ones(zeroes);
    for i := 0 to |digits|
      invariant Below(58, digits[..i]) && str == Ones(zeroes) + Chars(digits[..i])
    {
      assert digits[..i + 1] == digits[..i] + [digits[i]];
      assert Chars(digits[..i + 1]) == Chars(digits[..i]) + [CharOf(digits[i])];
      str := str + [CharOf(digits[i])];
    }
    assert digits[..|digits|] == digits;
  }

  lemma {:induction false} SkipZeros(s: seq<nat>, n: nat)
    requires n <= |s| && forall k :: 0 <= k < n ==> s[k] == 0
    ensures Stripped(s[n..]) == Stripped(s)
    decreases n
  {
    if n > 0 {
      SkipZeros(s[1..], n - 1);
      assert s[1..][n - 1..] == s[n..];
    } else {
      assert s[0..] == s;
    }
  }

  // ----- Decoding -----

  const SPACE: char -> bool := (c: char) => IsSpace(c)
  const OTHER: char -> bool := (c: char) => !IsSpace(c)
  const ONE: char -> bool := (c: char) => c == '1'

  /** The first place from i on where p fails. */
  function Past(s: string, i: nat, p: char -> bool): (r: nat)
    requires i <= |s|
    ensures i <= r <= |s|
    decreases |s| - i
  {
    if i < |s| && p(s[i]) then Past(s, i + 1, p) else i
  }

  ghost predicate AllDigits(s: string) {
    forall i :: 0 <= i < |s| ==> DigitOf(s[i]).Some?
  }

  ghost function DigitsIn(s: string): seq<nat>
    requires AllDigits(s)
  {
    seq(|s|, i requires 0 <= i < |s| => DigitOf(s[i]).value)
  }

  /** Spaces, a '1' for every zero byte, the number in base 58, spaces; nothing else. */
  ghost function Decoded(s: string): Option<seq<nat>> {
    var a := Past(s, 0, SPACE);
    var b := Past(s, a, ONE);
    var c := Past(s, b, OTHER);
    if !AllDigits(s[b..c]) || Past(s, c, SPACE) != |s| then None
    else Some(Zeros(b - a) + DigitsOf(256, Big(58, DigitsIn(s[b..c]))))
  }

  /** On the characters of a string without its terminating null. */
  method DecodeBase58(psz: string) returns (vch: Option<seq<nat>>)
    requires forall i :: 0 <= i < |psz| ==> psz[i] as int != 0
    ensures vch == Decoded(psz)
  {
    hide Big, Pow, DigitsOf, Stripped, DigitOf, Past;
    var a := Skip(psz, 0, SPACE);
    var b := Skip(psz, a, ONE);
    var zeroes := b - a;
    var size := (|psz| - b) * 733 / 1000 + 1;
    var b256 := new nat[size](_ => 0);
    BigZeros(256, b256[..]);
    ghost var c := Past(psz, b, OTHER);
    EmptyDigits(psz[b..b]);
    var p := b;
    PastStart(psz, b, OTHER);
    while p < |psz| && OTHER(psz[p])
      invariant b <= p <= c && fresh(b256) && Below(256, b256[..]) && Past(psz, p, OTHER) == c
      invariant AllDigits(psz[b..p]) && Big(256, b256[..]) == Big(58, DigitsIn(psz[b..p]))
    {
      PastStep(psz, p, OTHER);
      var ch := DigitOf(psz[p]);
      if ch.None? {
        assert psz[b..c][p - b] == psz[p];
        return None;
      }
      DigitSmall(psz[p]);
      NextDigit(psz, b, p, |psz| - b, size);
      Absorb256(b256, ch.value);
      p := p + 1;
    }
    PastStop(psz, p, OTHER);
    p := Skip(psz, p, SPACE);
    if p != |psz| {
      return None;
    }
    StrippedDigits(256, b256[..]);
    var it := SkipLeadingZeros(b256[..], 0);
    return Some(Zeros(zeroes) + b256[it..]);
  }

  method Skip(s: string, i: nat, p: char -> bool) returns (r: nat)
    requires i <= |s|
    ensures r == Past(s, i, p)
  {
    r := i;
    while r < |s| && p(s[r])
      invariant i <= r <= |s| && Past(s, r, p) == Past(s, i, p)
    {
      r := r + 1;
    }
  }

  lemma PastStart(s: string, i: nat, p: char -> bool)
    requires i <= |s|
    ensures Past(s, i, p) >= i
  {
  }

  lemma PastStep(s: string, i: nat, p: char -> bool)
    requires i < |s| && p(s[i])
    ensures Past(s, i, p) == Past(s, i + 1, p) && Past(s, i, p) > i
  {
  }

  lemma PastStop(s: string, i: nat, p: char -> bool)
    requires i <= |s| && (i == |s| || !p(s[i]))
    ensures Past(s, i, p) == i
  {
  }

  lemma EmptyDigits(s: string)
    requires s == []
    ensures AllDigits(s) && Big(58, DigitsIn(s)) == 0
  {
  }

  lemma DigitSmall(c: char)
    requires DigitOf(c).Some?
    ensures DigitOf(c).value < 58
  {
  }

  /** One more digit, and it fits in the buffer. */
  lemma NextDigit(s: string, b: nat, p: nat, n: nat, size: nat)
    requires b <= p < |s| && n == |s| - b && size == n * 733 / 1000 + 1
    requires AllDigits(s[b..p]) && DigitOf(s[p]).Some?
    ensures AllDigits(s[b..p + 1])
    ensures Big(58, DigitsIn(s[b..p + 1])) == Big(58, DigitsIn(s[b..p])) * 58 + DigitOf(s[p]).value < Pow(256, size)
  {
    hide Pow, DigitOf;
    assert s[b..p + 1] == s[b..p] + [s[p]];
    var now, next := DigitsIn(s[b..p]), DigitsIn(s[b..p + 1]);
    assert next == now + [DigitOf(s[p]).value];
    assert next[..|next| - 1] == now;
    assert Below(58, next) by {
      forall i | 0 <= i < |next| ensures next[i] < 58 { DigitSmall(s[b..p + 1][i]); }
    }
    BigBound(58, next);
    BytesFit(n);
    PowGrows(58, |next|, n);
  }

  // ----- Round trip -----

  lemma {:induction false} PastAll(s: string, i: nat, j: nat, p: char -> bool)
    requires i <= j <= |s| && (forall k :: i <= k < j ==> p(s[k])) && (j == |s| || !p(s[j]))
    ensures Past(s, i, p) == j
    decreases j - i
  {
    if i < j { PastAll(s, i + 1, j, p); }
  }

  /** Decoding an encoded byte string gives it back. */
  lemma RoundTrip(v: seq<nat>)
    requires Below(256, v)
    ensures Decoded(Encoded(v)) == Some(v)
  {
    hide Big, Pow, DigitsOf, Past, CharOf, DigitOf, IsSpace, Stripped, LeadingZeros;
    var n, z := Big(256, v), LeadingZeros(v);
    StrippedDigits(256, v);
    DigitsValue(58, n);
    var digits := DigitsOf(58, n);
    var chars, s := Chars(digits), Encoded(v);
    assert s == Ones(z) + chars;
    forall i | 0 <= i < |chars|
      ensures DigitOf(chars[i]) == Some(digits[i]) && !IsSpace(chars[i]) && (chars[i] == '1' <==> digits[i] == 0)
    {
      CharRoundTrip(digits[i]);
    }
    CharRoundTrip(0);
    OneIsDigit();
    ZeroDigits(58);
    forall i | 0 <= i < |s| ensures !IsSpace(s[i]) { if i >= z { assert s[i] == chars[i - z]; } }
    PastAll(s, 0, 0, SPACE);
    PastAll(s, 0, z, ONE);
    PastAll(s, z, |s|, OTHER);
    PastAll(s, |s|, |s|, SPACE);
    assert s[z..|s|] == chars;
    assert DigitsIn(chars) == digits;
  }

  lemma OneIsDigit()
    ensures CharOf(0) == '1'
  {
  }

  lemma ZeroDigits(base: nat)
    requires base >= 2
    ensures DigitsOf(base, 0) == []
  {
  }

  lemma DigitRoundTrip(c: char)
    requires DigitOf(c).Some?
    ensures DigitOf(c).value < 58 && CharOf(DigitOf(c).value) == c && (DigitOf(c).value == 0 <==> c == '1')
  {
  }

  lemma {:induction false} PastReached(s: string, i: nat, p: char -> bool)
    requires i <= |s|
    ensures forall k :: i <= k < Past(s, i, p) ==> p(s[k])
    ensures Past(s, i, p) < |s| ==> !p(s[Past(s, i, p)])
    decreases |s| - i
  {
    if i < |s| && p(s[i]) { PastReached(s, i + 1, p); }
  }

  lemma {:induction false} PastShift(l: string, s: string, r: string, i: nat, p: char -> bool)
    requires i <= |s| && (r == [] || !p(r[0]))
    ensures Past(l + s + r, |l| + i, p) == |l| + Past(s, i, p)
    decreases |s| - i
  {
    var t := l + s + r;
    if i < |s| {
      assert t[|l| + i] == s[i];
      if p(s[i]) { PastShift(l, s, r, i + 1, p); }
    } else {
      assert r != [] ==> t[|l| + i] == r[0];
    }
  }

  ghost predicate AllSpaces(s: string) {
    forall i :: 0 <= i < |s| ==> IsSpace(s[i])
  }

  /** Spaces before and after do not count. */
  lemma SpacesIgnored(l: string, s: string, r: string)
    requires s != [] && AllSpaces(l) && AllSpaces(r) && forall i :: 0 <= i < |s| ==> !IsSpace(s[i])
    ensures Decoded(l + s + r) == Decoded(s)
  {
    hide Past, AllDigits, DigitsIn, DigitsOf, Big;
    var t, n := l + s + r, |l| + |s|;
    assert t[|l|] == s[0] && forall i :: n <= i < |t| ==> t[i] == r[i - n];
    PastAll(t, 0, |l|, SPACE);
    PastAll(s, 0, 0, SPACE);
    PastShift(l, s, r, 0, ONE);
    var b := Past(s, 0, ONE);
    PastShift(l, s, r, b, OTHER);
    PastAll(s, b, |s|, OTHER);
    PastAll(t, n, |t|, SPACE);
    PastAll(s, |s|, |s|, SPACE);
    assert Past(t, |l|, ONE) == |l| + b && Past(t, |l| + b, OTHER) == n && Past(t, n, SPACE) == |t|;
    assert t[|l| + b..n] == s[b..|s|];
  }

  /** A space between other characters is refused. */
  lemma SpaceInside(s: string, i: nat, j: nat, k: nat)
    requires i < j < k < |s| && !IsSpace(s[i]) && IsSpace(s[j]) && !IsSpace(s[k])
    ensures Decoded(s) == None
  {
    hide Past, AllDigits, DigitsIn, DigitsOf, Big;
    var a := Past(s, 0, SPACE);
    PastReached(s, 0, SPACE);
    var b := Past(s, a, ONE);
    PastReached(s, a, ONE);
    var c := Past(s, b, OTHER);
    PastReached(s, b, OTHER);
    PastReached(s, c, SPACE);
  }

  /** Zeros in front and digits without leading zeros: each part is seen again. */
  lemma {:induction false} ZerosInFront(base: nat, z: nat, n: nat)
    requires base >= 2
    ensures Below(base, Zeros(z) + DigitsOf(base, n))
    ensures LeadingZeros(Zeros(z) + DigitsOf(base, n)) == z && Big(base, Zeros(z) + DigitsOf(base, n)) == n
  {
    hide Big, Pow, DigitsOf;
    DigitsValue(base, n);
    BigConcat(base, Zeros(z), DigitsOf(base, n));
    BigZeros(base, Zeros(z));
    ZeroDigits(base);
    LeadingCount(z, DigitsOf(base, n));
  }

  lemma {:induction false} LeadingCount(z: nat, s: seq<nat>)
    requires s == [] || s[0] != 0
    ensures LeadingZeros(Zeros(z) + s) == z
  {
    if z > 0 {
      LeadingCount(z - 1, s);
      assert (Zeros(z) + s)[1..] == Zeros(z - 1) + s;
    } else {
      assert Zeros(0) + s == s;
    }
  }

  /** A string without spaces decodes to at most one byte string, whose encoding it is. */
  lemma EncodesBack(s: string)
    requires Decoded(s).Some? && forall i :: 0 <= i < |s| ==> !IsSpace(s[i])
    ensures Encoded(Decoded(s).value) == s
  {
    hide Big, Pow, DigitsOf, Past, CharOf, DigitOf, IsSpace;
    PastAll(s, 0, 0, SPACE);
    var z := Past(s, 0, ONE);
    PastReached(s, 0, ONE);
    PastAll(s, z, |s|, OTHER);
    var body := s[z..];
    assert s[z..|s|] == body;
    var digits := DigitsIn(body);
    forall i | 0 <= i < |digits|
      ensures digits[i] < 58 && CharOf(digits[i]) == body[i] && (digits[i] == 0 <==> body[i] == '1')
    {
      DigitRoundTrip(body[i]);
    }
    DigitsUnique(58, digits);
    ZerosInFront(256, z, Big(58, digits));
    assert Chars(digits) == body;
    assert s == Ones(z) + body;
  }
}
