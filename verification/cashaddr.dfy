/** Cash addresses as strings (src/cashaddr.cpp:12-24, 152-324). */
module CashAddr {
  import opened GF32
  import opened Options
  import opened PolyMod

  // ----- Characters -----

  /** CHARSET. */
  function CharOf(v: Value): char {
    match v
    case 0 => 'q' case 1 => 'p' case 2 => 'z' case 3 => 'r'
    case 4 => 'y' case 5 => '9' case 6 => 'x' case 7 => '8'
    case 8 => 'g' case 9 => 'f' case 10 => '2' case 11 => 't'
    case 12 => 'v' case 13 => 'd' case 14 => 'w' case 15 => '0'
    case 16 => 's' case 17 => '3' case 18 => 'j' case 19 => 'n'
    case 20 => '5' case 21 => '4' case 22 => 'k' case 23 => 'h'
    case 24 => 'c' case 25 => 'e' case 26 => '6' case 27 => 'm'
    case 28 => 'u' case 29 => 'a' case 30 => '7' case 31 => 'l'
  }

  predicate IsLower(c: char) { 'a' <= c <= 'z' }

  predicate IsUpper(c: char) { 'A' <= c <= 'Z' }

  predicate IsDigit(c: char) { '0' <= c <= '9' }

  /** LowerCase, which sets one bit; on letters. */
  function LowerCase(c: char): char {
    if IsUpper(c) then (c as int + 32) as char else c
  }

  /** CHARSET_REV has the same values for upper-case and lower-case letters. */
  function ValueOf(c: char): Option<Value> {
    if IsDigit(c) then DigitValue(c)
    else if IsUpper(c) || IsLower(c) then LetterValue(LowerCase(c))
    else None
  }

  function DigitValue(c: char): Option<Value> {
    match c
    case '0' => Some(15) case '2' => Some(10) case '3' => Some(17) case '4' => Some(21) case '5' => Some(20)
    case '6' => Some(26) case '7' => Some(30) case '8' => Some(7) case '9' => Some(5)
    case _ => None
  }

  function LetterValue(c: char): Option<Value> {
    match c
    case 'a' => Some(29) case 'c' => Some(24) case 'd' => Some(13) case 'e' => Some(25) case 'f' => Some(9)
    case 'g' => Some(8) case 'h' => Some(23) case 'j' => Some(18) case 'k' => Some(22) case 'l' => Some(31)
    case 'm' => Some(27) case 'n' => Some(19) case 'p' => Some(1) case 'q' => Some(0) case 'r' => Some(3)
    case 's' => Some(16) case 't' => Some(11) case 'u' => Some(28) case 'v' => Some(12) case 'w' => Some(14)
    case 'x' => Some(6) case 'y' => Some(4) case 'z' => Some(2)
    case _ => None
  }

  /** The two tables are inverse to each other, and only lower-case letters and digits are written. */
  lemma CharRoundTrip(v: Value)
    ensures ValueOf(CharOf(v)) == Some(v)
    ensures IsLower(CharOf(v)) || IsDigit(CharOf(v))
  {
    hide CharOf, ValueOf;
    if v < 16 { LowChars(v); } else { HighChars(v); }
  }

  lemma LowChars(v: Value)
    requires v < 16
    ensures ValueOf(CharOf(v)) == Some(v) && (IsLower(CharOf(v)) || IsDigit(CharOf(v)))
  {
  }

  lemma HighChars(v: Value)
    requires 16 <= v
    ensures ValueOf(CharOf(v)) == Some(v) && (IsLower(CharOf(v)) || IsDigit(CharOf(v)))
  {
  }

  lemma ValueRoundTrip(c: char)
    requires ValueOf(c).Some? && !IsUpper(c)
    ensures CharOf(ValueOf(c).value) == c
  {
    hide CharOf, DigitValue, LetterValue;
    if IsDigit(c) { DigitRoundTrip(c); } else { LetterRoundTrip(c); }
  }

  lemma DigitRoundTrip(c: char)
    requires DigitValue(c).Some?
    ensures CharOf(DigitValue(c).value) == c
  {
  }

  lemma LetterRoundTrip(c: char)
    requires LetterValue(c).Some?
    ensures CharOf(LetterValue(c).value) == c
  {
  }

  // ----- The checksum -----

  /** The five low bits of a character. */
  function LowBits(c: char): Value { (c as nat % 32) as Value }

  function Expanded(prefix: string): seq<Value> {
    seq(|prefix|, i requires 0 <= i < |prefix| => LowBits(prefix[i])) + [0]
  }

  method ExpandPrefix(prefix: string) returns (ret: seq<Value>)
    ensures ret == Expanded(prefix)
  {
    ret := seq(|prefix| + 1, _ => 0);
    for i := 0 to |prefix|
      invariant |ret| == |prefix| + 1
      invariant forall j :: 0 <= j < i ==> ret[j] == LowBits(prefix[j])
    {
      ret := ret[i := LowBits(prefix[i])];
    }
    ret := ret[|prefix| := 0];
  }

  predicate Verified(prefix: string, values: seq<Value>) {
    Poly(1, Expanded(prefix) + values) == 1
  }

  /** Shift right by five bits, n times: by 5n bits. */
  function Down(mod: bv40, n: nat): bv40 {
    if n == 0 then mod else ByFive(Down(mod, n - 1))
  }

  function ByFive(x: bv40): bv40 { x >> 5 }

  function LowFive(x: bv40): Value { (x & 0x1f) as Value }

  /** The k-th group of five bits, from the top. */
  function Group(mod: bv40, k: nat): Value
    requires k < 8
  {
    LowFive(Down(mod, 7 - k))
  }

  lemma AllGone(mod: bv40)
    ensures Down(mod, 8) == 0
  {
    var x1 := ByFive(mod);
    var x2 := ByFive(x1);
    var x3 := ByFive(x2);
    var x4 := ByFive(x3);
    var x5 := ByFive(x4);
    var x6 := ByFive(x5);
    var x7 := ByFive(x6);
    assert Down(mod, 1) == x1;
    assert Down(mod, 2) == x2;
    assert Down(mod, 3) == x3;
    assert Down(mod, 4) == x4;
    assert Down(mod, 5) == x5;
    assert Down(mod, 6) == x6;
    assert Down(mod, 7) == x7;
    assert x1 < 0x8_0000_0000;
    assert x2 < 0x4000_0000;
    assert x3 < 0x200_0000;
    assert x4 < 0x10_0000;
    assert x5 < 0x8000;
    assert x6 < 0x400;
    assert x7 < 0x20;
    assert ByFive(x7) == 0;
  }

  /** Appending the five low bits to the rest gives the number back. */
  lemma Rejoin(y: bv40)
    ensures Step(ByFive(y), LowFive(y)) == y
  {
    hide Fold;
    assert Top(y >> 5) == 0;
    FoldZero();
    assert Shifted(y >> 5) ^ Wide((y & 0x1f) as Value) == y;
  }

  lemma FoldZero()
    ensures Fold(0) == 0
  {
  }

  function Groups(mod: bv40, n: nat): seq<Value>
    requires n <= 8
  {
    seq(n, k requires 0 <= k < n => Group(mod, k))
  }

  /** Eight groups are the number they were cut from. */
  lemma {:induction false} GroupsPoly(mod: bv40, n: nat)
    requires n <= 8
    ensures Poly(0, Groups(mod, n)) == Down(mod, 8 - n)
  {
    hide ByFive, LowFive, Step;
    if n == 0 {
      AllGone(mod);
    } else {
      GroupsPoly(mod, n - 1);
      assert Groups(mod, n)[..n - 1] == Groups(mod, n - 1);
      Rejoin(Down(mod, 8 - n));
    }
  }

  const ZEROS: seq<Value> := [0, 0, 0, 0, 0, 0, 0, 0]

  function Checksum(prefix: string, values: seq<Value>): seq<Value> {
    Groups(Add(Poly(1, Expanded(prefix) + values + ZEROS), 1), 8)
  }

  method CreateChecksum(prefix: string, values: seq<Value>) returns (ret: seq<Value>)
    ensures ret == Checksum(prefix, values)
  {
    var expanded := ExpandPrefix(prefix);
    var enc := expanded + values + ZEROS;
    var poly := ComputePolyMod(enc);
    var mod := Add(poly, 1);
    ret := [];
    for i := 0 to 8
      invariant ret == Groups(mod, i)
    {
      ret := ret + [Group(mod, i)];
    }
  }

  /** A list with its checksum passes. */
  lemma ChecksumVerifies(prefix: string, values: seq<Value>)
    ensures Verified(prefix, values + Checksum(prefix, values))
  {
    hide Poly, Step, Groups, Add, Difference;
    var enc, sum := Expanded(prefix) + values, Checksum(prefix, values);
    var p := Poly(1, enc);
    assert Expanded(prefix) + (values + sum) == enc + sum;
    assert |sum| == 8 by { GroupsSize(Add(Poly(1, enc + ZEROS), 1)); }
    PolyConcat(1, enc, sum);
    PolyConcat(1, enc, ZEROS);
    PolyLinear(p, 0, ZEROS, sum);
    AddZero(p);
    ZeroDifference(sum);
    GroupsPoly(Add(Poly(1, enc + ZEROS), 1), 8);
    Cancel(Poly(1, enc + ZEROS));
  }

  lemma GroupsSize(mod: bv40)
    ensures |Groups(mod, 8)| == 8
  {
  }

  lemma ZeroDifference(sum: seq<Value>)
    requires |sum| == 8
    ensures Difference(ZEROS, sum) == sum
  {
    forall i | 0 <= i < 8 ensures Difference(ZEROS, sum)[i] == sum[i] { XorZero(sum[i]); }
  }

  lemma XorZero(v: Value)
    ensures 0 ^ v == v
  {
  }

  lemma Cancel(x: bv40)
    ensures Add(x, Add(x, 1)) == 1
  {
  }

  /** No other eight values after the list pass. */
  lemma ChecksumUnique(prefix: string, values: seq<Value>, sum: seq<Value>)
    requires |sum| == 8 && Verified(prefix, values + sum)
    ensures sum == Checksum(prefix, values)
  {
    hide Poly;
    var right := Checksum(prefix, values);
    ChecksumVerifies(prefix, values);
    var v, w := Expanded(prefix) + (values + sum), Expanded(prefix) + (values + right);
    if v != w {
      WindowDetected(1, v, w, |Expanded(prefix)| + |values|);
    }
    assert sum == v[|v| - 8..] && right == w[|w| - 8..];
  }

  /** Changes within eight consecutive values of a valid list are always noticed. */
  lemma BurstDetected(prefix: string, v: seq<Value>, w: seq<Value>, start: nat)
    requires |v| == |w| && v != w && start <= |v| && Verified(prefix, v)
    requires forall i :: 0 <= i < |v| && !(start <= i < start + 8) ==> v[i] == w[i]
    ensures !Verified(prefix, w)
  {
    hide Poly;
    var x := Expanded(prefix);
    assert (x + v)[|x|..] == v && (x + w)[|x|..] == w;
    WindowDetected(1, x + v, x + w, |x| + start);
  }

  // ----- Encoding -----

  function Chars(values: seq<Value>): string {
    seq(|values|, i requires 0 <= i < |values| => CharOf(values[i]))
  }

  function Encoded(prefix: string, values: seq<Value>): string {
    prefix + ":" + Chars(values + Checksum(prefix, values))
  }

  method Encode(prefix: string, values: seq<Value>) returns (ret: string)
    ensures ret == Encoded(prefix, values)
  {
    var checksum := CreateChecksum(prefix, values);
    var combined := values + checksum;
    ret := prefix + ":";
    for i := 0 to |combined|
      invariant ret == prefix + ":" + Chars(combined[..i])
    {
      assert Chars(combined[..i + 1]) == Chars(combined[..i]) + [CharOf(combined[i])];
      ret := ret + [CharOf(combined[i])];
    }
    assert combined[..|combined|] == combined;
  }

  // ----- Decoding -----

  /** What decoding can end in. The source gives an empty pair for an invalid string; for a list that passes
    * the checksum with fewer than eight values it cuts off more than there is, which has no defined result. */
  datatype Result = Invalid | Undefined | Decoded(prefix: string, values: seq<Value>)

  datatype Scan = Rejected | Scan(lower: bool, upper: bool, hasNumber: bool, prefixSize: nat)

  function ScanOne(s: Scan, i: nat, c: char): Scan
    requires s.Scan?
  {
    if IsLower(c) then s.(lower := true)
    else if IsUpper(c) then s.(upper := true)
    else if IsDigit(c) then s.(hasNumber := true)
    else if c == ':' && !(s.hasNumber || i == 0 || s.prefixSize != 0) then s.(prefixSize := i)
    else Rejected
  }

  function ScanUpTo(str: string, n: nat): Scan
    requires n <= |str|
  {
    if n == 0 then Scan(false, false, false, 0)
    else var s := ScanUpTo(str, n - 1); if s.Rejected? then Rejected else ScanOne(s, n - 1, str[n - 1])
  }

  lemma {:induction false} RejectedStays(str: string, n: nat, m: nat)
    requires n <= m <= |str| && ScanUpTo(str, n).Rejected?
    ensures ScanUpTo(str, m).Rejected?
  {
    if n < m { RejectedStays(str, n, m - 1); }
  }

  lemma {:induction false} PrefixWithin(str: string, n: nat)
    requires n <= |str| && ScanUpTo(str, n).Scan?
    ensures ScanUpTo(str, n).prefixSize == 0 || ScanUpTo(str, n).prefixSize < n
  {
    if n > 0 { PrefixWithin(str, n - 1); }
  }

  function Lowered(s: string): string {
    seq(|s|, i requires 0 <= i < |s| => LowerCase(s[i]))
  }

  ghost predicate AllValues(s: string) {
    forall i :: 0 <= i < |s| ==> ValueOf(s[i]).Some?
  }

  ghost function Values(s: string): seq<Value>
    requires AllValues(s)
  {
    seq(|s|, i requires 0 <= i < |s| => ValueOf(s[i]).value)
  }

  ghost function Finish(prefix: string, chars: string): Result {
    if !AllValues(chars) || !Verified(prefix, Values(chars)) then Invalid
    else if |chars| < 8 then Undefined
    else Decoded(prefix, Values(chars)[..|chars| - 8])
  }

  /** The scan accepts the string, and it does not mix cases. */
  predicate Accepted(str: string) {
    var s := ScanUpTo(str, |str|);
    s.Scan? && !(s.upper && s.lower)
  }

  function PrefixIn(str: string, defaultPrefix: string): string
    requires Accepted(str)
  {
    var s := ScanUpTo(str, |str|);
    if s.prefixSize == 0 then defaultPrefix else PrefixWithin(str, |str|); Lowered(str[..s.prefixSize])
  }

  /** The characters after the separator, or all if there is none. */
  function Payload(str: string): string
    requires Accepted(str)
  {
    var s := ScanUpTo(str, |str|);
    if s.prefixSize == 0 then str else PrefixWithin(str, |str|); str[s.prefixSize + 1..]
  }

  ghost function DecodedFrom(str: string, defaultPrefix: string): Result {
    if Accepted(str) then Finish(PrefixIn(str, defaultPrefix), Payload(str)) else Invalid
  }

  method Decode(str: string, defaultPrefix: string) returns (r: Result)
    ensures r == DecodedFrom(str, defaultPrefix)
  {
    hide Finish;
    var lower, upper, hasNumber, prefixSize := false, false, false, 0;
    for i := 0 to |str|
      invariant ScanUpTo(str, i) == Scan(lower, upper, hasNumber, prefixSize)
    {
      var c := str[i];
      if 'a' <= c <= 'z' {
        lower := true;
        continue;
      }
      if 'A' <= c <= 'Z' {
        upper := true;
        continue;
      }
      if '0' <= c <= '9' {
        hasNumber := true;
        continue;
      }
      if c == ':' {
        if hasNumber || i == 0 || prefixSize != 0 {
          RejectedStays(str, i + 1, |str|);
          return Invalid;
        }
        prefixSize := i;
        continue;
      }
      RejectedStays(str, i + 1, |str|);
      return Invalid;
    }
    if upper && lower {
      return Invalid;
    }
    PrefixWithin(str, |str|);
    var prefix;
    if prefixSize == 0 {
      prefix := defaultPrefix;
      assert str == str[0..];
    } else {
      prefix := "";
      for i := 0 to prefixSize
        invariant prefix == Lowered(str[..i])
      {
        prefix := prefix + [LowerCase(str[i])];
      }
      prefixSize := prefixSize + 1;
    }
    r := DecodeValues(prefix, str[prefixSize..]);
  }

  /** Look up the values, verify the checksum and cut it off. */
  method DecodeValues(prefix: string, chars: string) returns (r: Result)
    ensures r == Finish(prefix, chars)
  {
    var values: seq<Value> := [];
    for i := 0 to |chars|
      invariant AllValues(chars[..i]) && values == Values(chars[..i])
    {
      var v := ValueOf(chars[i]);
      if v.None? {
        return Invalid;
      }
      assert chars[..i + 1] == chars[..i] + [chars[i]];
      values := values + [v.value];
    }
    assert chars[..|chars|] == chars;
    var expanded := ExpandPrefix(prefix);
    var mod := ComputePolyMod(expanded + values);
    if mod != 1 {
      return Invalid;
    }
    if |values| < 8 {
      return Undefined;
    }
    return Decoded(prefix, values[..|values| - 8]);
  }

  // ----- Where decoding is undefined -----

  /** What the scan accepts: letters, digits and at most one separator, not in front and with no digit before it. */
  ghost predicate Wellformed(str: string, n: nat)
    requires n <= |str|
  {
    && (forall i :: 0 <= i < n ==> IsLower(str[i]) || IsUpper(str[i]) || IsDigit(str[i]) || str[i] == ':')
    && (forall i :: 0 <= i < n && str[i] == ':' ==> i > 0 && NoneBefore(str, i))
  }

  /** No digit and no separator before position i. */
  ghost predicate NoneBefore(str: string, i: nat)
    requires i <= |str|
  {
    forall j :: 0 <= j < i ==> !IsDigit(str[j]) && str[j] != ':'
  }

  /** The scan accepts exactly the well-formed strings, and it finds the cases and the separator. */
  lemma {:induction false} ScanExact(str: string, n: nat)
    requires n <= |str|
    ensures ScanUpTo(str, n).Scan? <==> Wellformed(str, n)
    ensures ScanUpTo(str, n).Scan? ==> Noted(str, n, ScanUpTo(str, n))
  {
    hide Wellformed, Noted;
    if n == 0 {
      NotedNone(str);
    } else {
      ScanExact(str, n - 1);
      var s := ScanUpTo(str, n - 1);
      WellformedNext(str, n - 1);
      if s.Scan? {
        BeforeNoted(str, n - 1, s);
        if ScanOne(s, n - 1, str[n - 1]).Scan? { NotedNext(str, n - 1, s); }
      }
    }
  }

  /** What the variables of the scan say of the first n characters. */
  ghost predicate Noted(str: string, n: nat, s: Scan)
    requires n <= |str|
  {
    && s.Scan?
    && (s.lower <==> exists i :: 0 <= i < n && IsLower(str[i]))
    && (s.upper <==> exists i :: 0 <= i < n && IsUpper(str[i]))
    && (s.hasNumber <==> exists i :: 0 <= i < n && IsDigit(str[i]))
    && (if s.prefixSize == 0 then forall i :: 0 <= i < n ==> str[i] != ':'
        else s.prefixSize < n && str[s.prefixSize] == ':')
  }

  lemma NotedNone(str: string)
    ensures Wellformed(str, 0) && Noted(str, 0, Scan(false, false, false, 0))
  {
  }

  lemma NotedNext(str: string, n: nat, s: Scan)
    requires n < |str| && Noted(str, n, s) && ScanOne(s, n, str[n]).Scan?
    ensures Noted(str, n + 1, ScanOne(s, n, str[n]))
  {
  }

  lemma WellformedNext(str: string, n: nat)
    requires n < |str|
    ensures Wellformed(str, n + 1) <==>
              && Wellformed(str, n)
              && (IsLower(str[n]) || IsUpper(str[n]) || IsDigit(str[n]) || str[n] == ':')
              && (str[n] == ':' ==> n > 0 && NoneBefore(str, n))
  {
    hide NoneBefore, IsLower, IsUpper, IsDigit;
  }

  lemma BeforeNoted(str: string, n: nat, s: Scan)
    requires n <= |str| && Noted(str, n, s)
    ensures NoneBefore(str, n) <==> !s.hasNumber && s.prefixSize == 0
  {
  }

  /** Decoding has no defined result exactly for an accepted string whose payload has fewer than eight values and
    * passes the checksum.
    */
  lemma UndefinedExact(str: string, defaultPrefix: string)
    ensures DecodedFrom(str, defaultPrefix).Undefined? <==>
              && Accepted(str) && |Payload(str)| < 8 && AllValues(Payload(str))
              && Verified(PrefixIn(str, defaultPrefix), Values(Payload(str)))
    ensures Accepted(str) && |Payload(str)| >= 8 ==> !DecodedFrom(str, defaultPrefix).Undefined?
  {
    hide Accepted, Payload, PrefixIn, Verified, Values, AllValues;
  }

  /** Such strings are rare: for each prefix and each number of values up to eight, at most one list passes. */
  lemma OneShort(prefix: string, v: seq<Value>, w: seq<Value>)
    requires |v| == |w| <= 8 && Verified(prefix, v) && Verified(prefix, w)
    ensures v == w
  {
    if v != w { BurstDetected(prefix, v, w, 0); }
  }

  /** But they exist. */
  lemma UndefinedInput(defaultPrefix: string)
    ensures DecodedFrom("c:qvdy2z3", defaultPrefix).Undefined?
  {
    hide Poly, Wellformed;
    var str := "c:qvdy2z3";
    ShortScan();
    assert Lowered(str[..1]) == "c" && str[2..] == "qvdy2z3";
    ShortValues();
    ShortPasses();
  }

  lemma ShortScan()
    ensures Accepted("c:qvdy2z3") && ScanUpTo("c:qvdy2z3", 9).prefixSize == 1
  {
    var str := "c:qvdy2z3";
    assert ScanUpTo(str, 1) == Scan(true, false, false, 0);
    assert ScanUpTo(str, 2) == Scan(true, false, false, 1);
    assert ScanUpTo(str, 3) == Scan(true, false, false, 1);
    assert ScanUpTo(str, 4) == Scan(true, false, false, 1);
    assert ScanUpTo(str, 5) == Scan(true, false, false, 1);
    assert ScanUpTo(str, 6) == Scan(true, false, false, 1);
    assert ScanUpTo(str, 7) == Scan(true, false, true, 1);
    assert ScanUpTo(str, 8) == Scan(true, false, true, 1);
    assert ScanUpTo(str, 9) == Scan(true, false, true, 1);
  }

  const SHORT: seq<Value> := [0, 12, 13, 4, 10, 2, 17]

  lemma ShortValues()
    ensures AllValues("qvdy2z3") && Values("qvdy2z3") == SHORT
  {
    var chars := "qvdy2z3";
    forall i | 0 <= i < 7 ensures ValueOf(chars[i]) == Some(SHORT[i]) {
      CharRoundTrip(SHORT[i]);
    }
    assert Values(chars) == SHORT;
  }

  lemma ShortPasses()
    ensures Verified("c", SHORT)
  {
    hide Step, Poly;
    ShortSteps();
    var v := Expanded("c") + SHORT;
    assert v == [3, 0, 0, 12, 13, 4, 10, 2, 17];
    PolyEmpty(1, v[..0]);
    PolyNext(1, v, 0, 1, 0x23);
    PolyNext(1, v, 1, 0x23, 0x460);
    PolyNext(1, v, 2, 0x460, 0x8c00);
    PolyNext(1, v, 3, 0x8c00, 0x11800c);
    PolyNext(1, v, 4, 0x11800c, 0x230018d);
    PolyNext(1, v, 5, 0x230018d, 0x460031a4);
    PolyNext(1, v, 6, 0x460031a4, 0x8c006348a);
    PolyNext(1, v, 7, 0x8c006348a, 0x80f27a1f23);
    PolyNext(1, v, 8, 0x80f27a1f23, 1);
    assert v[..9] == v;
  }

  lemma ShortSteps()
    ensures Step(1, 3) == 0x23 && Step(0x23, 0) == 0x460 && Step(0x460, 0) == 0x8c00
    ensures Step(0x8c00, 12) == 0x11800c && Step(0x11800c, 13) == 0x230018d && Step(0x230018d, 4) == 0x460031a4
    ensures Step(0x460031a4, 10) == 0x8c006348a && Step(0x8c006348a, 2) == 0x80f27a1f23 && Step(0x80f27a1f23, 17) == 1
  {
  }

  lemma PolyEmpty(c: bv40, v: seq<Value>)
    requires v == []
    ensures Poly(c, v) == c
  {
  }

  lemma PolyNext(c: bv40, v: seq<Value>, n: nat, before: bv40, after: bv40)
    requires n < |v| && Poly(c, v[..n]) == before && Step(before, v[n]) == after
    ensures Poly(c, v[..n + 1]) == after
  {
    assert v[..n + 1][..n] == v[..n];
  }

  /** What passes under one prefix passes under another exactly if the two prefixes leave the same remainder. */
  lemma PrefixBinds(prefix: string, other: string, values: seq<Value>)
    requires Verified(prefix, values)
    ensures Verified(other, values) <==> Poly(1, Expanded(prefix)) == Poly(1, Expanded(other))
  {
    hide Poly, Add, Expanded;
    var a, b := Poly(1, Expanded(prefix)), Poly(1, Expanded(other));
    PolyConcat(1, Expanded(prefix), values);
    PolyConcat(1, Expanded(other), values);
    PolyLinear(a, b, values, values);
    SameIsZero(values, values);
    PolyZeros(Add(a, b), Difference(values, values));
    AddSame(a, b);
    AddSame(Poly(a, values), Poly(b, values));
  }

  lemma AddSame(a: bv40, b: bv40)
    ensures Add(a, b) == 0 <==> a == b
  {
  }

  // ----- Round trips -----

  ghost predicate LowerPrefix(prefix: string) {
    prefix != [] && forall i :: 0 <= i < |prefix| ==> IsLower(prefix[i])
  }

  /** How the scan goes over an encoded address. */
  lemma {:induction false} ScanEncoded(prefix: string, chars: string, n: nat)
    requires LowerPrefix(prefix) && n <= |prefix| + 1 + |chars|
    requires forall i :: 0 <= i < |chars| ==> IsLower(chars[i]) || IsDigit(chars[i])
    ensures var s := ScanUpTo(prefix + ":" + chars, n);
            && s.Scan? && !s.upper && s.prefixSize == (if n <= |prefix| then 0 else |prefix|)
            && (n <= |prefix| ==> !s.hasNumber)
  {
    if n > 0 {
      ScanEncoded(prefix, chars, n - 1);
      var c := (prefix + ":" + chars)[n - 1];
      if n - 1 < |prefix| {
        assert c == prefix[n - 1];
      } else if n - 1 > |prefix| {
        assert c == chars[n - 1 - |prefix| - 1];
      }
    }
  }

  /** Decoding an encoded address gives prefix and values back. */
  lemma RoundTrip(prefix: string, values: seq<Value>, defaultPrefix: string)
    requires LowerPrefix(prefix)
    ensures DecodedFrom(Encoded(prefix, values), defaultPrefix) == Decoded(prefix, values)
  {
    hide CharOf, ValueOf, Verified, Checksum;
    var all := values + Checksum(prefix, values);
    var chars, str := Chars(all), Encoded(prefix, values);
    forall i | 0 <= i < |chars| ensures (IsLower(chars[i]) || IsDigit(chars[i])) && ValueOf(chars[i]) == Some(all[i]) {
      CharRoundTrip(all[i]);
    }
    ScanEncoded(prefix, chars, |str|);
    assert str[..|prefix|] == prefix && str[|prefix| + 1..] == chars;
    assert Lowered(prefix) == prefix;
    assert Values(chars) == all;
    ChecksumVerifies(prefix, values);
    ChecksumSize(prefix, values);
    assert all[..|all| - 8] == values;
  }

  lemma ChecksumSize(prefix: string, values: seq<Value>)
    ensures |Checksum(prefix, values)| == 8
  {
  }

  /** Encoding what was decoded from characters in lower case gives those characters back. */
  lemma FinishEncodes(prefix: string, chars: string)
    requires Finish(prefix, chars).Decoded? && forall i :: 0 <= i < |chars| ==> !IsUpper(chars[i])
    ensures Finish(prefix, chars).prefix == prefix
    ensures Encoded(prefix, Finish(prefix, chars).values) == prefix + ":" + chars
  {
    hide CharOf, ValueOf, Verified, Checksum;
    var all := Values(chars);
    var values, sum := all[..|all| - 8], all[|all| - 8..];
    assert all == values + sum;
    ChecksumUnique(prefix, values, sum);
    forall i | 0 <= i < |chars| ensures CharOf(all[i]) == chars[i] { ValueRoundTrip(chars[i]); }
    assert Chars(all) == chars;
  }

  lemma {:induction false} NoUpper(str: string, n: nat)
    requires n <= |str| && ScanUpTo(str, n).Scan? && !ScanUpTo(str, n).upper
    ensures forall i :: 0 <= i < n ==> !IsUpper(str[i])
  {
    if n > 0 { NoUpper(str, n - 1); }
  }

  lemma {:induction false} ColonAt(str: string, n: nat)
    requires n <= |str| && ScanUpTo(str, n).Scan? && ScanUpTo(str, n).prefixSize != 0
    ensures ScanUpTo(str, n).prefixSize < n && str[ScanUpTo(str, n).prefixSize] == ':'
  {
    if n > 0 {
      PrefixWithin(str, n - 1);
      if ScanUpTo(str, n - 1).prefixSize != 0 { ColonAt(str, n - 1); }
    }
  }

  /** A lower-case string decodes to at most one thing: encoding the result gives it back, up to a prefix left out. */
  lemma DecodeEncodes(str: string, defaultPrefix: string)
    requires DecodedFrom(str, defaultPrefix).Decoded? && !ScanUpTo(str, |str|).upper
    ensures var r := DecodedFrom(str, defaultPrefix);
            Encoded(r.prefix, r.values) ==
              if ScanUpTo(str, |str|).prefixSize == 0 then defaultPrefix + ":" + str else str
  {
    hide Finish, Encoded, IsUpper, Accepted, PrefixIn, Payload, ScanUpTo;
    LowerParts(str, defaultPrefix);
    FinishEncodes(PrefixIn(str, defaultPrefix), Payload(str));
  }

  /** A lower-case string is its prefix, the separator and the payload. */
  lemma LowerParts(str: string, defaultPrefix: string)
    requires Accepted(str) && !ScanUpTo(str, |str|).upper
    ensures forall i :: 0 <= i < |Payload(str)| ==> !IsUpper(Payload(str)[i])
    ensures PrefixIn(str, defaultPrefix) + ":" + Payload(str) ==
              if ScanUpTo(str, |str|).prefixSize == 0 then defaultPrefix + ":" + str else str
  {
    hide ScanUpTo, IsUpper;
    NoUpper(str, |str|);
    var n := ScanUpTo(str, |str|).prefixSize;
    if n != 0 {
      PrefixWithin(str, |str|);
      ColonAt(str, |str|);
      assert Lowered(str[..n]) == str[..n];
      assert str == str[..n] + ":" + str[n + 1..];
    }
  }
}
