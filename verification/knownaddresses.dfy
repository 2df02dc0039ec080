/** Addresses of the repository's own tests (src/test/cashaddr_tests.cpp:47-63), worked out.
  *
  * The one with every character carries the checksum of another prefix: its characters are
  * right under that prefix, and fail under the one the test gives it.
  */
module KnownAddresses {
  import opened CashAddr
  import opened GF32
  import opened PolyMod

  /** Values followed by eight more that pass are the values followed by their checksum. */
  lemma EncodedFrom(prefix: string, values: seq<Value>, sum: seq<Value>)
    requires |sum| == 8 && Verified(prefix, values + sum)
    ensures Encoded(prefix, values) == prefix + ":" + Chars(values + sum)
  {
    hide Verified, Checksum, Chars;
    ChecksumUnique(prefix, values, sum);
  }

  lemma CharsConcat(v: seq<Value>, w: seq<Value>)
    ensures Chars(v + w) == Chars(v) + Chars(w)
  {
    hide CharOf;
  }

  // ----- No values -----

  lemma KnownPrefixSteps()
    ensures Step(1, 16) == 0x30 && Step(0x30, 18) == 0x612
    ensures Step(0x612, 5) == 0xc245 && Step(0xc245, 6) == 0x1848a6
    ensures Step(0x1848a6, 9) == 0x30914c9 && Step(0x30914c9, 24) == 0x61229938
    ensures Step(0x61229938, 0) == 0xc24532700
  {
  }

  lemma KnownPrefix()
    ensures Poly(1, [16, 18, 5, 6, 9, 24, 0]) == 0xc24532700
  {
    hide Step, Poly;
    KnownPrefixSteps();
    var v: seq<Value> := [16, 18, 5, 6, 9, 24, 0];
    PolyEmpty(1, v[..0]);
    PolyNext(1, v, 0, 1, 0x30);
    PolyNext(1, v, 1, 0x30, 0x612);
    PolyNext(1, v, 2, 0x612, 0xc245);
    PolyNext(1, v, 3, 0xc245, 0x1848a6);
    PolyNext(1, v, 4, 0x1848a6, 0x30914c9);
    PolyNext(1, v, 5, 0x30914c9, 0x61229938);
    PolyNext(1, v, 6, 0x61229938, 0xc24532700);
    assert v[..7] == v;
  }

  lemma KnownSumSteps()
    ensures Step(0xc24532700, 6) == 0x1c78d86e67 && Step(0x1c78d86e67, 26) == 0x6e5edcdb79
    ensures Step(0x6e5edcdb79, 21) == 0xe39d3b038 && Step(0xe39d3b038, 19) == 0x5fc8ca8972
    ensures Step(0x5fc8ca8972, 6) == 0xb6722bdb6d && Step(0xb6722bdb6d, 26) == 0x5a830aa3ec
    ensures Step(0x5a830aa3ec, 23) == 0x1f0a2e88bc && Step(0x1f0a2e88bc, 2) == 1
  {
  }

  lemma KnownSum()
    ensures Poly(0xc24532700, [6, 26, 21, 19, 6, 26, 23, 2]) == 1
    ensures Chars([6, 26, 21, 19, 6, 26, 23, 2]) == "x64nx6hz"
  {
    hide Step, Poly;
    KnownSumSteps();
    var v: seq<Value> := [6, 26, 21, 19, 6, 26, 23, 2];
    PolyEmpty(0xc24532700, v[..0]);
    PolyNext(0xc24532700, v, 0, 0xc24532700, 0x1c78d86e67);
    PolyNext(0xc24532700, v, 1, 0x1c78d86e67, 0x6e5edcdb79);
    PolyNext(0xc24532700, v, 2, 0x6e5edcdb79, 0xe39d3b038);
    PolyNext(0xc24532700, v, 3, 0xe39d3b038, 0x5fc8ca8972);
    PolyNext(0xc24532700, v, 4, 0x5fc8ca8972, 0xb6722bdb6d);
    PolyNext(0xc24532700, v, 5, 0xb6722bdb6d, 0x5a830aa3ec);
    PolyNext(0xc24532700, v, 6, 0x5a830aa3ec, 0x1f0a2e88bc);
    PolyNext(0xc24532700, v, 7, 0x1f0a2e88bc, 1);
    assert v[..8] == v;
  }

  lemma KnownBits()
    ensures Expanded("prefix") == [16, 18, 5, 6, 9, 24, 0]
  {
    assert LowBits('p') == 16 && LowBits('r') == 18 && LowBits('e') == 5 && LowBits('f') == 6 && LowBits('i') == 9
           && LowBits('x') == 24;
  }

  /** The prefix "prefix" with no values. */
  lemma KnownAddress()
    ensures Encoded("prefix", []) == "prefix" + ":" + "x64nx6hz"
  {
    hide Poly, Expanded, Chars, Encoded;
    var sum: seq<Value> := [6, 26, 21, 19, 6, 26, 23, 2];
    KnownBits();
    KnownPrefix();
    KnownSum();
    PolyConcat(1, Expanded("prefix"), sum);
    assert [] + sum == sum;
    EncodedFrom("prefix", [], sum);
  }

  // ----- Every value -----

  lemma EveryPrefixSteps()
    ensures Step(1, 2) == 0x22 && Step(0x22, 9) == 0x449
    ensures Step(0x449, 20) == 0x8934 && Step(0x8934, 3) == 0x112683
    ensures Step(0x112683, 15) == 0x224d06f && Step(0x224d06f, 9) == 0x449a0de9
    ensures Step(0x449a0de9, 14) == 0x89341bd2e && Step(0x89341bd2e, 3) == 0x8a9a8b2ba2
    ensures Step(0x8a9a8b2ba2, 1) == 0xd5ec9a1e50 && Step(0xd5ec9a1e50, 19) == 0x7445c65529
    ensures Step(0x7445c65529, 8) == 0xac1f536da6 && Step(0xac1f536da6, 0) == 0xf669cd6d15
  {
  }

  lemma EveryPrefix()
    ensures Poly(1, [2, 9, 20, 3, 15, 9, 14, 3, 1, 19, 8, 0]) == 0xf669cd6d15
  {
    hide Step, Poly;
    EveryPrefixSteps();
    var v: seq<Value> := [2, 9, 20, 3, 15, 9, 14, 3, 1, 19, 8, 0];
    PolyEmpty(1, v[..0]);
    PolyNext(1, v, 0, 1, 0x22);
    PolyNext(1, v, 1, 0x22, 0x449);
    PolyNext(1, v, 2, 0x449, 0x8934);
    PolyNext(1, v, 3, 0x8934, 0x112683);
    PolyNext(1, v, 4, 0x112683, 0x224d06f);
    PolyNext(1, v, 5, 0x224d06f, 0x449a0de9);
    PolyNext(1, v, 6, 0x449a0de9, 0x89341bd2e);
    PolyNext(1, v, 7, 0x89341bd2e, 0x8a9a8b2ba2);
    PolyNext(1, v, 8, 0x8a9a8b2ba2, 0xd5ec9a1e50);
    PolyNext(1, v, 9, 0xd5ec9a1e50, 0x7445c65529);
    PolyNext(1, v, 10, 0x7445c65529, 0xac1f536da6);
    PolyNext(1, v, 11, 0xac1f536da6, 0xf669cd6d15);
    assert v[..12] == v;
  }

  lemma OtherPrefixSteps()
    ensures Step(1, 10) == 0x2a && Step(0x2a, 21) == 0x555
    ensures Step(0x555, 13) == 0xaaad && Step(0xaaad, 16) == 0x1555b0
    ensures Step(0x1555b0, 3) == 0x2aab603 && Step(0x2aab603, 15) == 0x5556c06f
    ensures Step(0x5556c06f, 9) == 0xaaad80de9 && Step(0xaaad80de9, 14) == 0xcda9bd334f
    ensures Step(0xcda9bd334f, 0) == 0x9da4f2e159
  {
  }

  lemma OtherPrefix()
    ensures Poly(1, [10, 21, 13, 16, 3, 15, 9, 14, 0]) == 0x9da4f2e159
  {
    hide Step, Poly;
    OtherPrefixSteps();
    var v: seq<Value> := [10, 21, 13, 16, 3, 15, 9, 14, 0];
    PolyEmpty(1, v[..0]);
    PolyNext(1, v, 0, 1, 0x2a);
    PolyNext(1, v, 1, 0x2a, 0x555);
    PolyNext(1, v, 2, 0x555, 0xaaad);
    PolyNext(1, v, 3, 0xaaad, 0x1555b0);
    PolyNext(1, v, 4, 0x1555b0, 0x2aab603);
    PolyNext(1, v, 5, 0x2aab603, 0x5556c06f);
    PolyNext(1, v, 6, 0x5556c06f, 0xaaad80de9);
    PolyNext(1, v, 7, 0xaaad80de9, 0xcda9bd334f);
    PolyNext(1, v, 8, 0xcda9bd334f, 0x9da4f2e159);
    assert v[..9] == v;
  }

  lemma EveryFirstSteps()
    ensures Step(0xf669cd6d15, 0) == 0xf7d1778e5e && Step(0xf7d1778e5e, 1) == 0xc0c62be73f
    ensures Step(0xc0c62be73f, 2) == 0xa8a494e13a && Step(0xa8a494e13a, 3) == 0x61113cfe96
    ensures Step(0x61113cfe96, 4) == 0x7f376b83a8 && Step(0x7f376b83a8, 5) == 0x5ab85533ea
    ensures Step(0x5ab85533ea, 6) == 0x1861dc886d && Step(0x1861dc886d, 7) == 0xed7e401a24
    ensures Step(0xed7e401a24, 8) == 0x7465087ff5 && Step(0x7465087ff5, 9) == 0xa806963627
    ensures Step(0xa806963627, 10) == 0x7551661d3f
  {
  }

  lemma EveryFirst()
    ensures Poly(0xf669cd6d15, [0, 1, 2, 3, 4, 5, 6, 7, 8, 9, 10]) == 0x7551661d3f
    ensures Chars([0, 1, 2, 3, 4, 5, 6, 7, 8, 9, 10]) == "qpzry9x8gf2"
  {
    hide Step, Poly;
    EveryFirstSteps();
    var v: seq<Value> := [0, 1, 2, 3, 4, 5, 6, 7, 8, 9, 10];
    PolyEmpty(0xf669cd6d15, v[..0]);
    PolyNext(0xf669cd6d15, v, 0, 0xf669cd6d15, 0xf7d1778e5e);
    PolyNext(0xf669cd6d15, v, 1, 0xf7d1778e5e, 0xc0c62be73f);
    PolyNext(0xf669cd6d15, v, 2, 0xc0c62be73f, 0xa8a494e13a);
    PolyNext(0xf669cd6d15, v, 3, 0xa8a494e13a, 0x61113cfe96);
    PolyNext(0xf669cd6d15, v, 4, 0x61113cfe96, 0x7f376b83a8);
    PolyNext(0xf669cd6d15, v, 5, 0x7f376b83a8, 0x5ab85533ea);
    PolyNext(0xf669cd6d15, v, 6, 0x5ab85533ea, 0x1861dc886d);
    PolyNext(0xf669cd6d15, v, 7, 0x1861dc886d, 0xed7e401a24);
    PolyNext(0xf669cd6d15, v, 8, 0xed7e401a24, 0x7465087ff5);
    PolyNext(0xf669cd6d15, v, 9, 0x7465087ff5, 0xa806963627);
    PolyNext(0xf669cd6d15, v, 10, 0xa806963627, 0x7551661d3f);
    assert v[..11] == v;
  }

  lemma EverySecondSteps()
    ensures Step(0x7551661d3f, 11) == 0x8e8b5a6f65 && Step(0x8e8b5a6f65, 12) == 0x57d6b286bd
    ensures Step(0x57d6b286bd, 13) == 0x2d4f96ace7 && Step(0x2d4f96ace7, 14) == 0xc23e36a14b
    ensures Step(0xc23e36a14b, 15) == 0xf7a73c2fb7 && Step(0xf7a73c2fb7, 16) == 0xce0f5fda0e
    ensures Step(0xce0f5fda0e, 17) == 0xe978afc968 && Step(0xe978afc968, 18) == 0xf4b8f2166f
    ensures Step(0xf4b8f2166f, 19) == 0xadf698e10d && Step(0xadf698e10d, 20) == 0xcb50bcf861
    ensures Step(0xcb50bcf861, 21) == 0x4284cb848c
  {
  }

  lemma EverySecond()
    ensures Poly(0x7551661d3f, [11, 12, 13, 14, 15, 16, 17, 18, 19, 20, 21]) == 0x4284cb848c
    ensures Chars([11, 12, 13, 14, 15, 16, 17, 18, 19, 20, 21]) == "tvdw0s3jn54"
  {
    hide Step, Poly;
    EverySecondSteps();
    var v: seq<Value> := [11, 12, 13, 14, 15, 16, 17, 18, 19, 20, 21];
    PolyEmpty(0x7551661d3f, v[..0]);
    PolyNext(0x7551661d3f, v, 0, 0x7551661d3f, 0x8e8b5a6f65);
    PolyNext(0x7551661d3f, v, 1, 0x8e8b5a6f65, 0x57d6b286bd);
    PolyNext(0x7551661d3f, v, 2, 0x57d6b286bd, 0x2d4f96ace7);
    PolyNext(0x7551661d3f, v, 3, 0x2d4f96ace7, 0xc23e36a14b);
    PolyNext(0x7551661d3f, v, 4, 0xc23e36a14b, 0xf7a73c2fb7);
    PolyNext(0x7551661d3f, v, 5, 0xf7a73c2fb7, 0xce0f5fda0e);
    PolyNext(0x7551661d3f, v, 6, 0xce0f5fda0e, 0xe978afc968);
    PolyNext(0x7551661d3f, v, 7, 0xe978afc968, 0xf4b8f2166f);
    PolyNext(0x7551661d3f, v, 8, 0xf4b8f2166f, 0xadf698e10d);
    PolyNext(0x7551661d3f, v, 9, 0xadf698e10d, 0xcb50bcf861);
    PolyNext(0x7551661d3f, v, 10, 0xcb50bcf861, 0x4284cb848c);
    assert v[..11] == v;
  }

  lemma EveryThirdSteps()
    ensures Step(0x4284cb848c, 22) == 0xfeb7db733e && Step(0xfeb7db733e, 23) == 0x74e108c548
    ensures Step(0x74e108c548, 24) == 0xb886816196 && Step(0xb886816196, 25) == 0x1ce4e172ee
    ensures Step(0x1ce4e172ee, 26) == 0x7dd9ff4a59 && Step(0x7dd9ff4a59, 27) == 0x76acc0dd4
    ensures Step(0x76acc0dd4, 28) == 0xed5981ba9c && Step(0xed5981ba9c, 29) == 0x709d3c68e0
    ensures Step(0x709d3c68e0, 30) == 0x370014d490 && Step(0x370014d490, 31) == 0x6a8ba8b839
  {
  }

  lemma EveryThird()
    ensures Poly(0x4284cb848c, [22, 23, 24, 25, 26, 27, 28, 29, 30, 31]) == 0x6a8ba8b839
    ensures Chars([22, 23, 24, 25, 26, 27, 28, 29, 30, 31]) == "khce6mua7l"
  {
    hide Step, Poly;
    EveryThirdSteps();
    var v: seq<Value> := [22, 23, 24, 25, 26, 27, 28, 29, 30, 31];
    PolyEmpty(0x4284cb848c, v[..0]);
    PolyNext(0x4284cb848c, v, 0, 0x4284cb848c, 0xfeb7db733e);
    PolyNext(0x4284cb848c, v, 1, 0xfeb7db733e, 0x74e108c548);
    PolyNext(0x4284cb848c, v, 2, 0x74e108c548, 0xb886816196);
    PolyNext(0x4284cb848c, v, 3, 0xb886816196, 0x1ce4e172ee);
    PolyNext(0x4284cb848c, v, 4, 0x1ce4e172ee, 0x7dd9ff4a59);
    PolyNext(0x4284cb848c, v, 5, 0x7dd9ff4a59, 0x76acc0dd4);
    PolyNext(0x4284cb848c, v, 6, 0x76acc0dd4, 0xed5981ba9c);
    PolyNext(0x4284cb848c, v, 7, 0xed5981ba9c, 0x709d3c68e0);
    PolyNext(0x4284cb848c, v, 8, 0x709d3c68e0, 0x370014d490);
    PolyNext(0x4284cb848c, v, 9, 0x370014d490, 0x6a8ba8b839);
    assert v[..10] == v;
  }

  lemma EverySumSteps()
    ensures Step(0x6a8ba8b839, 24) == 0x94975fd835 && Step(0x94975fd835, 14) == 0xf513d57b3c
    ensures Step(0xf513d57b3c, 10) == 0x9892754b74 && Step(0x9892754b74, 15) == 0xed443b9d7c
    ensures Step(0xed443b9d7c, 29) == 0x732a7894e0 && Step(0x732a7894e0, 4) == 0x41e88b548a
    ensures Step(0x41e88b548a, 4) == 0x933fc173ec && Step(0x933fc173ec, 19) == 1
  {
  }

  lemma EverySum()
    ensures Poly(0x6a8ba8b839, [24, 14, 10, 15, 29, 4, 4, 19]) == 1
    ensures Chars([24, 14, 10, 15, 29, 4, 4, 19]) == "cw20ayyn"
  {
    hide Step, Poly;
    EverySumSteps();
    var v: seq<Value> := [24, 14, 10, 15, 29, 4, 4, 19];
    PolyEmpty(0x6a8ba8b839, v[..0]);
    PolyNext(0x6a8ba8b839, v, 0, 0x6a8ba8b839, 0x94975fd835);
    PolyNext(0x6a8ba8b839, v, 1, 0x94975fd835, 0xf513d57b3c);
    PolyNext(0x6a8ba8b839, v, 2, 0xf513d57b3c, 0x9892754b74);
    PolyNext(0x6a8ba8b839, v, 3, 0x9892754b74, 0xed443b9d7c);
    PolyNext(0x6a8ba8b839, v, 4, 0xed443b9d7c, 0x732a7894e0);
    PolyNext(0x6a8ba8b839, v, 5, 0x732a7894e0, 0x41e88b548a);
    PolyNext(0x6a8ba8b839, v, 6, 0x41e88b548a, 0x933fc173ec);
    PolyNext(0x6a8ba8b839, v, 7, 0x933fc173ec, 1);
    assert v[..8] == v;
  }

  lemma PrefixBits()
    ensures Expanded("bitcoincash") == [2, 9, 20, 3, 15, 9, 14, 3, 1, 19, 8, 0]
    ensures Expanded("jumpcoin") == [10, 21, 13, 16, 3, 15, 9, 14, 0]
  {
    LetterBits();
    MoreBits();
  }

  lemma LetterBits()
    ensures LowBits('b') == 2 && LowBits('i') == 9 && LowBits('t') == 20 && LowBits('c') == 3 && LowBits('o') == 15
    ensures LowBits('n') == 14
  {
  }

  lemma MoreBits()
    ensures LowBits('a') == 1 && LowBits('s') == 19 && LowBits('h') == 8 && LowBits('j') == 10 && LowBits('u') == 21
    ensures LowBits('m') == 13 && LowBits('p') == 16
  {
  }

  lemma PiecesPass(prefix: string, a: seq<Value>, b: seq<Value>, c: seq<Value>, d: seq<Value>, ra: bv40, rb: bv40,
                   rc: bv40)
    requires Poly(Poly(1, Expanded(prefix)), a) == ra && Poly(ra, b) == rb && Poly(rb, c) == rc && Poly(rc, d) == 1
    ensures Verified(prefix, a + b + c + d)
  {
    hide Poly, Expanded;
    var start := Poly(1, Expanded(prefix));
    PolyConcat(1, Expanded(prefix), a + b + c + d);
    PolyConcat(start, a + b + c, d);
    PolyConcat(start, a + b, c);
    PolyConcat(start, a, b);
  }

  lemma PiecesEncode(prefix: string, a: seq<Value>, b: seq<Value>, c: seq<Value>, d: seq<Value>)
    requires |d| == 8 && Verified(prefix, a + b + c + d)
    ensures Encoded(prefix, a + b + c) == prefix + ":" + (Chars(a) + Chars(b) + Chars(c) + Chars(d))
  {
    hide Verified, Chars, Encoded;
    EncodedFrom(prefix, a + b + c, d);
    CharsConcat(a, b);
    CharsConcat(a + b, c);
    CharsConcat(a + b + c, d);
  }

  /** All 32 values in order under the prefix that the checksum belongs to; under the prefix of the repository's test,
    * the same characters do not pass.
    */
  lemma EveryCharacter(a: seq<Value>, b: seq<Value>, c: seq<Value>, sum: seq<Value>)
    requires a == [0, 1, 2, 3, 4, 5, 6, 7, 8, 9, 10] && b == [11, 12, 13, 14, 15, 16, 17, 18, 19, 20, 21]
    requires c == [22, 23, 24, 25, 26, 27, 28, 29, 30, 31] && sum == [24, 14, 10, 15, 29, 4, 4, 19]
    ensures Encoded("bitcoincash", a + b + c) ==
              "bitcoincash" + ":" + ("qpzry9x8gf2" + "tvdw0s3jn54" + "khce6mua7l" + "cw20ayyn")
    ensures !Verified("jumpcoin", a + b + c + sum)
  {
    hide Poly, Expanded, Chars, Encoded, Verified;
    PrefixBits();
    EveryPrefix();
    OtherPrefix();
    EveryFirst();
    EverySecond();
    EveryThird();
    EverySum();
    PiecesPass("bitcoincash", a, b, c, sum, 0x7551661d3f,
               0x4284cb848c, 0x6a8ba8b839);
    PiecesEncode("bitcoincash", a, b, c, sum);
    PrefixBinds("bitcoincash", "jumpcoin", a + b + c + sum);
  }
}
