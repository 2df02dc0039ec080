/** The rolling Bloom filter (src/bloom.cpp:219-315).
  *
  * Every position has a generation from 0 to 3, in two bits that are kept in two words.
  * Inserting sets positions to the current generation; a new generation first wipes the
  * positions that still carry its number from three generations ago.
  */
module RollingBloom {
  import opened Numbers

  type Key(!new)

  /** RollingBloomHash: function number, tweak and key. */
  type Hashing = (nat, bv32, Key) -> bv32

  // ----- Bits -----

  function Bit(x: bv64, b: bv64): bool
    requires b < 64
  {
    (x >> b) & 1 == 1
  }

  function WithBit(x: bv64, b: bv64, v: bool): bv64
    requires b < 64
  {
    (x & !(1 << b)) | ((if v then 1 else 0) << b)
  }

  lemma WithBitAt(x: bv64, b: bv64, v: bool, c: bv64)
    requires b < 64 && c < 64
    ensures Bit(WithBit(x, b, v), c) == if b == c then v else Bit(x, c)
  {
  }

  /** All bits equal to v. */
  function All(v: bool): bv64 { if v then 0xFFFF_FFFF_FFFF_FFFF else 0 }

  function And(x: bv64, y: bv64): bv64 { x & y }

  function Or(x: bv64, y: bv64): bv64 { x | y }

  function Xor(x: bv64, y: bv64): bv64 { x ^ y }

  function Mask(p1: bv64, p2: bv64, o1: bool, o2: bool): bv64 {
    Or(Xor(p1, All(o1)), Xor(p2, All(o2)))
  }

  lemma BitOfOr(x: bv64, y: bv64, c: bv64)
    requires c < 64
    ensures Bit(Or(x, y), c) == (Bit(x, c) || Bit(y, c))
  {
    assert ((x | y) >> c) & 1 == ((x >> c) & 1) | ((y >> c) & 1);
  }

  lemma BitOfXor(x: bv64, v: bool, c: bv64)
    requires c < 64
    ensures Bit(Xor(x, All(v)), c) == (Bit(x, c) != v)
  {
  }

  lemma DeMorgan(x: bv64, y: bv64)
    ensures And(x, y) == Xor(Or(Xor(x, All(true)), Xor(y, All(true))), All(true))
  {
  }

  lemma BitOfAnd(x: bv64, y: bv64, c: bv64)
    requires c < 64
    ensures Bit(And(x, y), c) == (Bit(x, c) && Bit(y, c))
  {
    hide Bit, All, And, Or, Xor;
    var nx, ny := Xor(x, All(true)), Xor(y, All(true));
    DeMorgan(x, y);
    BitOfXor(x, true, c);
    BitOfXor(y, true, c);
    BitOfOr(nx, ny, c);
    BitOfXor(Or(nx, ny), true, c);
  }

  /** The mask clears exactly the positions whose two bits are o1 and o2. */
  lemma MaskAt(p1: bv64, p2: bv64, o1: bool, o2: bool, c: bv64)
    requires c < 64
    ensures Bit(And(p1, Mask(p1, p2, o1, o2)), c) == (Bit(p1, c) && (Bit(p1, c) != o1 || Bit(p2, c) != o2))
    ensures Bit(And(p2, Mask(p1, p2, o1, o2)), c) == (Bit(p2, c) && (Bit(p1, c) != o1 || Bit(p2, c) != o2))
  {
    hide Bit, All, And, Or, Xor;
    BitOfAnd(p1, Mask(p1, p2, o1, o2), c);
    BitOfAnd(p2, Mask(p1, p2, o1, o2), c);
    BitOfOr(Xor(p1, All(o1)), Xor(p2, All(o2)), c);
    BitOfXor(p1, o1, c);
    BitOfXor(p2, o2, c);
  }

  // ----- Positions -----

  function Gen(p1: bv64, p2: bv64, b: bv64): nat
    requires b < 64
  {
    (if Bit(p1, b) then 1 else 0) + (if Bit(p2, b) then 2 else 0)
  }

  ghost predicate Paired(words: seq<bv64>) {
    |words| > 0 && |words| % 2 == 0
  }

  /** The first of the two words for a hash; the bit in both. */
  function Word(h: bv32, size: nat): nat
    requires size > 0 && size % 2 == 0
    ensures Word(h, size) + 1 < size && Word(h, size) % 2 == 0
  {
    EvenBelow((h >> 6) as nat, size)
  }

  /** The remainder, made even. */
  function EvenBelow(n: nat, size: nat): (r: nat)
    requires size > 0 && size % 2 == 0
    ensures r + 1 < size && r % 2 == 0
  {
    n % size - n % size % 2
  }

  /** Below the size, two numbers give the same pair of words exactly when they differ in the last bit at most. */
  lemma SamePair(n: nat, m: nat, size: nat)
    requires size > 0 && size % 2 == 0 && n < size && m < size
    ensures EvenBelow(n, size) == EvenBelow(m, size) <==> n / 2 == m / 2
  {
    hide EvenBelow;
    BelowSize(n, size);
    BelowSize(m, size);
  }

  lemma BelowSize(n: nat, size: nat)
    requires size > 0 && size % 2 == 0 && n < size
    ensures EvenBelow(n, size) == n / 2 * 2
  {
    DivMod(n, size, 0, n);
  }

  /** Every pair of words is chosen by some hash. */
  lemma EveryPair(size: nat, w: nat)
    requires 0 < size <= 0x400_0000 && size % 2 == 0 && w < size && w % 2 == 0
    ensures exists h: bv32 :: Word(h, size) == w
  {
    hide EvenBelow;
    var h := HashFor(w);
    BelowSize(w, size);
    assert Word(h, size) == w;
  }

  lemma HashFor(n: nat) returns (h: bv32)
    requires n < 0x400_0000
    ensures (h >> 6) as nat == n
  {
    var b := Numeral(n);
    BelowAsBits(b);
    ShiftedBack(b);
    h := b << 6;
  }

  /** The bits of a number, from the top. */
  lemma {:induction false} Numeral(n: nat) returns (b: bv32)
    requires n < 0x400_0000
    ensures b as nat == n
    decreases n
  {
    if n == 0 {
      b := 0;
    } else {
      var half := Numeral(n / 2);
      HalfAsBits(half);
      Doubled(half);
      b := if n % 2 == 0 then half << 1 else (half << 1) | 1;
    }
  }

  lemma HalfAsBits(b: bv32)
    requires b as nat < 0x200_0000
    ensures b < 0x200_0000
  {
  }

  lemma Doubled(b: bv32)
    requires b < 0x200_0000
    ensures (b << 1) as nat == 2 * (b as nat) && ((b << 1) | 1) as nat == 2 * (b as nat) + 1
  {
  }

  lemma BelowAsBits(b: bv32)
    requires b as nat < 0x400_0000
    ensures b < 0x400_0000
  {
  }

  lemma ShiftedBack(b: bv32)
    requires b < 0x400_0000
    ensures (b << 6) >> 6 == b
  {
  }

  function Place(h: bv32): bv64
    ensures Place(h) < 64
  {
    (h & 0x3F) as bv64
  }

  /** The generation at the position of a hash. */
  function Cell(words: seq<bv64>, h: bv32): nat
    requires Paired(words)
  {
    Gen(words[Word(h, |words|)], words[Word(h, |words|) + 1], Place(h))
  }

  function Odd(g: nat): bool { g % 2 == 1 }

  function Upper(g: nat): bool { g / 2 % 2 == 1 }

  lemma OddUpper(g: nat)
    requires 1 <= g <= 3
    ensures (if Odd(g) then 1 else 0) + (if Upper(g) then 2 else 0) == g
  {
  }

  function Write(words: seq<bv64>, h: bv32, g: nat): (r: seq<bv64>)
    requires Paired(words)
    ensures |r| == |words|
  {
    var w := Word(h, |words|);
    words[w := WithBit(words[w], Place(h), Odd(g))][w + 1 := WithBit(words[w + 1], Place(h), Upper(g))]
  }

  lemma WrittenCell(words: seq<bv64>, h: bv32, g: nat, h': bv32)
    requires Paired(words) && 1 <= g <= 3
    ensures Cell(Write(words, h, g), h') ==
              if Word(h, |words|) == Word(h', |words|) && Place(h) == Place(h') then g else Cell(words, h')
  {
    hide Bit, WithBit, Word, Place, Odd, Upper;
    var w := Word(h, |words|);
    OddUpper(g);
    WithBitAt(words[w], Place(h), Odd(g), Place(h'));
    WithBitAt(words[w + 1], Place(h), Upper(g), Place(h'));
  }

  function WipedWord(words: seq<bv64>, i: nat, g: nat): bv64
    requires Paired(words) && i < |words|
  {
    var p := i - i % 2;
    And(words[i], Mask(words[p], words[p + 1], Odd(g), Upper(g)))
  }

  lemma WipedPair(words: seq<bv64>, p: nat, g: nat)
    requires Paired(words) && p < |words| && p % 2 == 0
    ensures p + 1 < |words|
    ensures WipedWord(words, p, g) == And(words[p], Mask(words[p], words[p + 1], Odd(g), Upper(g)))
    ensures WipedWord(words, p + 1, g) == And(words[p + 1], Mask(words[p], words[p + 1], Odd(g), Upper(g)))
  {
    hide And, Mask;
  }

  function Wiped(words: seq<bv64>, g: nat): (r: seq<bv64>)
    requires Paired(words)
    ensures |r| == |words|
  {
    seq(|words|, i requires 0 <= i < |words| => WipedWord(words, i, g))
  }

  lemma WipedCell(words: seq<bv64>, g: nat, h: bv32)
    requires Paired(words) && 1 <= g <= 3
    ensures Cell(Wiped(words, g), h) == if Cell(words, h) == g then 0 else Cell(words, h)
  {
    hide Bit, And, Mask, WipedWord;
    var w := Word(h, |words|);
    MaskAt(words[w], words[w + 1], Odd(g), Upper(g), Place(h));
    WipedPair(words, w, g);
  }

  // ----- What is remembered -----

  /** The generations after and before one. */
  function Next(g: nat): nat { if g == 3 then 1 else g + 1 }

  function Before(g: nat): nat { if g <= 1 then 3 else g - 1 }

  /** What a position of a key inserted `age` insertions ago may hold, with n entries in the current generation g of
    * up to e.
    */
  ghost predicate Kept(cell: nat, age: nat, n: nat, e: nat, g: nat) {
    if age < n then cell == g
    else if age < n + e then cell == g || cell == Before(g)
    else cell != 0
  }

  ghost predicate KeyKept(hash: Hashing, funcs: nat, tweak: bv32, words: seq<bv64>, key: Key, age: nat, n: nat, e: nat,
                          g: nat)
    requires Paired(words)
  {
    forall k: nat :: k < funcs ==> Kept(Cell(words, hash(k, tweak, key)), age, n, e, g)
  }

  /** Every position of every one of the last n + 2e keys still holds a generation not older than the key. */
  ghost predicate Remembers(hash: Hashing, funcs: nat, tweak: bv32, words: seq<bv64>, keys: seq<Key>, n: nat, e: nat,
                            g: nat)
    requires Paired(words)
  {
    forall i :: 0 <= i < |keys| && |keys| - 1 - i < n + 2 * e ==>
      KeyKept(hash, funcs, tweak, words, keys[i], |keys| - 1 - i, n, e, g)
  }

  ghost predicate Reported(hash: Hashing, funcs: nat, tweak: bv32, words: seq<bv64>, key: Key)
    requires Paired(words)
  {
    forall k: nat :: k < funcs ==> Cell(words, hash(k, tweak, key)) != 0
  }

  /** So these keys are reported as present. */
  lemma RememberedReported(hash: Hashing, funcs: nat, tweak: bv32, words: seq<bv64>, keys: seq<Key>, n: nat, e: nat,
                           g: nat, i: nat)
    requires Paired(words) && 1 <= g <= 3 && Remembers(hash, funcs, tweak, words, keys, n, e, g)
    requires i < |keys| && |keys| - 1 - i < n + 2 * e
    ensures Reported(hash, funcs, tweak, words, keys[i])
  {
    hide Cell;
    assert KeyKept(hash, funcs, tweak, words, keys[i], |keys| - 1 - i, n, e, g);
  }

  /** Starting a generation keeps the two before it. */
  lemma WipeRemembers(hash: Hashing, funcs: nat, tweak: bv32, words: seq<bv64>, keys: seq<Key>, e: nat, g: nat)
    requires Paired(words) && 1 <= g <= 3 && Remembers(hash, funcs, tweak, words, keys, e, e, g)
    ensures Remembers(hash, funcs, tweak, Wiped(words, Next(g)), keys, 0, e, Next(g))
  {
    hide KeyKept;
    var words', g' := Wiped(words, Next(g)), Next(g);
    forall i | 0 <= i < |keys| && |keys| - 1 - i < 2 * e
      ensures KeyKept(hash, funcs, tweak, words', keys[i], |keys| - 1 - i, 0, e, g')
    {
      WipeKey(hash, funcs, tweak, words, keys[i], |keys| - 1 - i, e, g);
    }
  }

  lemma WipeKey(hash: Hashing, funcs: nat, tweak: bv32, words: seq<bv64>, key: Key, age: nat, e: nat, g: nat)
    requires Paired(words) && 1 <= g <= 3 && age < 2 * e && KeyKept(hash, funcs, tweak, words, key, age, e, e, g)
    ensures KeyKept(hash, funcs, tweak, Wiped(words, Next(g)), key, age, 0, e, Next(g))
  {
    hide Cell, Wiped;
    forall k: nat | k < funcs ensures Kept(Cell(Wiped(words, Next(g)), hash(k, tweak, key)), age, 0, e, Next(g)) {
      assert Kept(Cell(words, hash(k, tweak, key)), age, e, e, g);
      WipedCell(words, Next(g), hash(k, tweak, key));
    }
  }

  /** Writing the current generation anywhere forgets nothing. */
  lemma WriteRemembers(hash: Hashing, funcs: nat, tweak: bv32, words: seq<bv64>, keys: seq<Key>, n: nat, e: nat, g: nat,
                       h: bv32)
    requires Paired(words) && 1 <= g <= 3 && Remembers(hash, funcs, tweak, words, keys, n, e, g)
    ensures Remembers(hash, funcs, tweak, Write(words, h, g), keys, n, e, g)
  {
    hide KeyKept, Write;
    forall i | 0 <= i < |keys| && |keys| - 1 - i < n + 2 * e
      ensures KeyKept(hash, funcs, tweak, Write(words, h, g), keys[i], |keys| - 1 - i, n, e, g)
    {
      WriteKey(hash, funcs, tweak, words, keys[i], |keys| - 1 - i, n, e, g, h);
    }
  }

  lemma WriteKey(hash: Hashing, funcs: nat, tweak: bv32, words: seq<bv64>, key: Key, age: nat, n: nat, e: nat, g: nat,
                 h: bv32)
    requires Paired(words) && 1 <= g <= 3 && KeyKept(hash, funcs, tweak, words, key, age, n, e, g)
    ensures KeyKept(hash, funcs, tweak, Write(words, h, g), key, age, n, e, g)
  {
    hide Cell, Write, Word, Place;
    forall k: nat | k < funcs ensures Kept(Cell(Write(words, h, g), hash(k, tweak, key)), age, n, e, g) {
      assert Kept(Cell(words, hash(k, tweak, key)), age, n, e, g);
      WrittenCell(words, h, g, hash(k, tweak, key));
    }
  }

  /** The first funcs positions of the key hold the current generation. */
  ghost predicate Marked(hash: Hashing, funcs: nat, tweak: bv32, words: seq<bv64>, key: Key, g: nat)
    requires Paired(words)
  {
    forall k: nat :: k < funcs ==> Cell(words, hash(k, tweak, key)) == g
  }

  lemma WriteMarks(hash: Hashing, n: nat, tweak: bv32, words: seq<bv64>, key: Key, g: nat)
    requires Paired(words) && 1 <= g <= 3 && Marked(hash, n, tweak, words, key, g)
    ensures Marked(hash, n + 1, tweak, Write(words, hash(n, tweak, key), g), key, g)
  {
    var h := hash(n, tweak, key);
    forall k: nat | k < n + 1 ensures Cell(Write(words, h, g), hash(k, tweak, key)) == g {
      WrittenCell(words, h, g, hash(k, tweak, key));
    }
  }

  /** A new key joins those remembered. */
  lemma KeyRemembered(hash: Hashing, funcs: nat, tweak: bv32, words: seq<bv64>, keys: seq<Key>, n: nat, e: nat, g: nat,
                      key: Key)
    requires Paired(words) && Remembers(hash, funcs, tweak, words, keys, n, e, g)
    requires Marked(hash, funcs, tweak, words, key, g)
    ensures Remembers(hash, funcs, tweak, words, keys + [key], n + 1, e, g)
  {
    hide Cell;
    var keys' := keys + [key];
    forall i | 0 <= i < |keys'| && |keys'| - 1 - i < n + 1 + 2 * e
      ensures KeyKept(hash, funcs, tweak, words, keys'[i], |keys'| - 1 - i, n + 1, e, g)
    {
      if i < |keys| {
        assert KeyKept(hash, funcs, tweak, words, keys[i], |keys| - 1 - i, n, e, g);
        OneOlder(hash, funcs, tweak, words, keys[i], |keys| - 1 - i, n, e, g);
      }
    }
  }

  lemma OneOlder(hash: Hashing, funcs: nat, tweak: bv32, words: seq<bv64>, key: Key, age: nat, n: nat, e: nat, g: nat)
    requires Paired(words) && KeyKept(hash, funcs, tweak, words, key, age, n, e, g)
    ensures KeyKept(hash, funcs, tweak, words, key, age + 1, n + 1, e, g)
  {
    hide Cell;
  }

  // ----- What is reported -----

  /** Two hashes select the same position. */
  predicate SamePlace(h: bv32, h': bv32, size: nat)
    requires size > 0 && size % 2 == 0
  {
    Word(h, size) == Word(h', size) && Place(h) == Place(h')
  }

  /** The position of h is one of those of the i-th key, which is one of the last `span`. */
  ghost predicate TouchedBy(hash: Hashing, funcs: nat, tweak: bv32, size: nat, keys: seq<Key>, h: bv32, span: nat,
                            i: nat, k: nat)
    requires size > 0 && size % 2 == 0
  {
    i < |keys| && k < funcs && |keys| - 1 - i < span && SamePlace(hash(k, tweak, keys[i]), h, size)
  }

  ghost predicate Touched(hash: Hashing, funcs: nat, tweak: bv32, size: nat, keys: seq<Key>, h: bv32, span: nat)
    requires size > 0 && size % 2 == 0
  {
    exists i: nat, k: nat :: TouchedBy(hash, funcs, tweak, size, keys, h, span, i, k)
  }

  /** The keys that may have left a generation in a position. */
  function Span(cell: nat, n: nat, e: nat, g: nat): nat {
    if cell == g then n else if cell == Before(g) then n + e else n + 2 * e
  }

  /** Whatever a position holds was left there by one of the keys of that generation. */
  ghost predicate Explained(hash: Hashing, funcs: nat, tweak: bv32, words: seq<bv64>, keys: seq<Key>, n: nat, e: nat,
                            g: nat)
    requires Paired(words)
  {
    forall h: bv32 :: Cell(words, h) != 0 ==>
      Touched(hash, funcs, tweak, |words|, keys, h, Span(Cell(words, h), n, e, g))
  }

  lemma NothingToExplain(hash: Hashing, funcs: nat, tweak: bv32, words: seq<bv64>, n: nat, e: nat, g: nat)
    requires Paired(words) && forall i :: 0 <= i < |words| ==> words[i] == 0
    ensures Explained(hash, funcs, tweak, words, [], n, e, g)
  {
    forall h: bv32 ensures Cell(words, h) == 0 { NoBits(Place(h)); }
  }

  lemma NoBits(b: bv64)
    requires b < 64
    ensures !Bit(0, b)
  {
  }

  lemma CellBound(words: seq<bv64>, h: bv32)
    requires Paired(words)
    ensures Cell(words, h) <= 3
  {
  }

  /** A larger span and one more key. */
  lemma TouchedLater(hash: Hashing, funcs: nat, tweak: bv32, size: nat, keys: seq<Key>, h: bv32, span: nat, span': nat,
                     key: Key)
    requires size > 0 && size % 2 == 0 && Touched(hash, funcs, tweak, size, keys, h, span) && span <= span'
    ensures Touched(hash, funcs, tweak, size, keys, h, span')
    ensures Touched(hash, funcs, tweak, size, keys + [key], h, span' + 1)
  {
    hide SamePlace;
    var i: nat, k: nat :| TouchedBy(hash, funcs, tweak, size, keys, h, span, i, k);
    assert TouchedBy(hash, funcs, tweak, size, keys, h, span', i, k);
    assert (keys + [key])[i] == keys[i];
    assert TouchedBy(hash, funcs, tweak, size, keys + [key], h, span' + 1, i, k);
  }

  lemma WipeExplained(hash: Hashing, funcs: nat, tweak: bv32, words: seq<bv64>, keys: seq<Key>, e: nat, g: nat)
    requires Paired(words) && 1 <= g <= 3 && Explained(hash, funcs, tweak, words, keys, e, e, g)
    ensures Explained(hash, funcs, tweak, Wiped(words, Next(g)), keys, 0, e, Next(g))
  {
    hide Cell, Wiped, Touched;
    var words' := Wiped(words, Next(g));
    forall h: bv32 | Cell(words', h) != 0
      ensures Touched(hash, funcs, tweak, |words'|, keys, h, Span(Cell(words', h), 0, e, Next(g)))
    {
      WipedCell(words, Next(g), h);
      CellBound(words, h);
      assert Span(Cell(words', h), 0, e, Next(g)) == Span(Cell(words, h), e, e, g);
    }
  }

  /** Before the positions of a key are written, it joins the others. */
  lemma JoinExplained(hash: Hashing, funcs: nat, tweak: bv32, words: seq<bv64>, keys: seq<Key>, n: nat, e: nat, g: nat,
                      key: Key)
    requires Paired(words) && Explained(hash, funcs, tweak, words, keys, n, e, g)
    ensures Explained(hash, funcs, tweak, words, keys + [key], n + 1, e, g)
  {
    hide Cell, Touched;
    forall h: bv32 | Cell(words, h) != 0
      ensures Touched(hash, funcs, tweak, |words|, keys + [key], h, Span(Cell(words, h), n + 1, e, g))
    {
      var span := Span(Cell(words, h), n, e, g);
      TouchedLater(hash, funcs, tweak, |words|, keys, h, span, span, key);
    }
  }

  /** Writing one of its positions. */
  lemma WriteExplained(hash: Hashing, funcs: nat, tweak: bv32, words: seq<bv64>, keys: seq<Key>, n: nat, e: nat, g: nat,
                       k: nat)
    requires Paired(words) && 1 <= g <= 3 && k < funcs && keys != [] && n > 0
    requires Explained(hash, funcs, tweak, words, keys, n, e, g)
    ensures Explained(hash, funcs, tweak, Write(words, hash(k, tweak, keys[|keys| - 1]), g), keys, n, e, g)
  {
    hide Cell, Write, Word, Place;
    var last := |keys| - 1;
    var h := hash(k, tweak, keys[last]);
    var words' := Write(words, h, g);
    forall h': bv32 | Cell(words', h') != 0
      ensures Touched(hash, funcs, tweak, |words'|, keys, h', Span(Cell(words', h'), n, e, g))
    {
      WrittenCell(words, h, g, h');
      if SamePlace(h, h', |words|) {
        assert TouchedBy(hash, funcs, tweak, |words|, keys, h', n, last, k);
      }
    }
  }

  /** A position holds something exactly when it is one of those of the last n + 2e keys. */
  lemma CellExact(hash: Hashing, funcs: nat, tweak: bv32, words: seq<bv64>, keys: seq<Key>, n: nat, e: nat, g: nat,
                  h: bv32, key: Key)
    requires Paired(words) && 1 <= g <= 3 && Remembers(hash, funcs, tweak, words, keys, n, e, g)
    requires Explained(hash, funcs, tweak, words, keys, n, e, g)
    ensures Cell(words, h) != 0 <==> Touched(hash, funcs, tweak, |words|, keys, h, n + 2 * e)
  {
    hide Word, Place, Gen;
    if Cell(words, h) != 0 {
      TouchedLater(hash, funcs, tweak, |words|, keys, h, Span(Cell(words, h), n, e, g), n + 2 * e, key);
    }
    if Touched(hash, funcs, tweak, |words|, keys, h, n + 2 * e) {
      var i: nat, k: nat :| TouchedBy(hash, funcs, tweak, |words|, keys, h, n + 2 * e, i, k);
      assert KeyKept(hash, funcs, tweak, words, keys[i], |keys| - 1 - i, n, e, g);
      assert Cell(words, hash(k, tweak, keys[i])) == Cell(words, h);
    }
  }

  // ----- The filter -----

  class CRollingBloomFilter {
    const hash: Hashing
    const nHashFuncs: nat
    const nEntriesPerGeneration: nat
    const data: array<bv64>
    var nEntriesThisGeneration: nat
    var nGeneration: nat
    var nTweak: bv32
    /** The keys inserted since the last reset. */
    ghost var keys: seq<Key>

    ghost predicate Valid()
      reads this, data
    {
      && Paired(data[..])
      && 1 <= nGeneration <= 3
      && 1 <= nEntriesPerGeneration
      && nEntriesThisGeneration <= nEntriesPerGeneration
      && Remembers(hash, nHashFuncs, nTweak, data[..], keys, nEntriesThisGeneration, nEntriesPerGeneration, nGeneration)
      && Explained(hash, nHashFuncs, nTweak, data[..], keys, nEntriesThisGeneration, nEntriesPerGeneration, nGeneration)
    }

    /** A filter of any size that its false-positive rate asks for. Both sums are 32-bit ones: a generation has
      * half the elements for every number but the last, and there is data for all sizes but zero and the last 63.
      */
    constructor (hash: Hashing, nElements: nat, nHashFuncs: nat, nFilterBits: nat, tweak: bv32)
      requires nElements < TWO32 && nFilterBits < TWO32
      ensures Valid() <==> 1 <= nElements < TWO32 - 1 && 1 <= nFilterBits <= TWO32 - 64
      ensures fresh(data) && keys == [] && this.hash == hash
      ensures 2 * nEntriesPerGeneration >= nElements <==> nElements < TWO32 - 1
    {
      this.hash, this.nHashFuncs := hash, nHashFuncs;
      nEntriesPerGeneration := (nElements + 1) % TWO32 / 2;
      data := new bv64[(nFilterBits + 63) % TWO32 / 64 * 2];
      nTweak, nEntriesThisGeneration, nGeneration, keys := 0, 0, 1, [];
      new;
      Reset(tweak);
    }

    /** reset: nothing is remembered any more. */
    method Reset(tweak: bv32)
      modifies this, data
      ensures Valid() <==> Paired(data[..]) && nEntriesPerGeneration >= 1
      ensures keys == [] && nTweak == tweak && forall i :: 0 <= i < data.Length ==> data[i] == 0
    {
      nTweak := tweak;
      nEntriesThisGeneration := 0;
      nGeneration := 1;
      for i := 0 to data.Length
        invariant nTweak == tweak && nEntriesThisGeneration == 0 && nGeneration == 1
        invariant forall j :: 0 <= j < i ==> data[j] == 0
      {
        data[i] := 0;
      }
      keys := [];
      if Paired(data[..]) {
        NothingToExplain(hash, nHashFuncs, nTweak, data[..], 0, nEntriesPerGeneration, 1);
      }
    }

    /** insert: the last keys, two generations and those of the current one, stay remembered. */
    method Insert(vKey: Key)
      requires Valid()
      modifies this, data
      ensures Valid() && keys == old(keys) + [vKey] && nTweak == old(nTweak)
      ensures nEntriesThisGeneration >= 1
    {
      hide Remembers, Explained, Paired, Cell;
      if nEntriesThisGeneration == nEntriesPerGeneration {
        WipeRemembers(hash, nHashFuncs, nTweak, data[..], keys, nEntriesPerGeneration, nGeneration);
        WipeExplained(hash, nHashFuncs, nTweak, data[..], keys, nEntriesPerGeneration, nGeneration);
        nEntriesThisGeneration := 0;
        nGeneration := nGeneration + 1;
        if nGeneration == 4 {
          nGeneration := 1;
        }
        Wipe();
      }
      JoinExplained(hash, nHashFuncs, nTweak, data[..], keys, nEntriesThisGeneration, nEntriesPerGeneration,
                    nGeneration, vKey);
      Mark(vKey);
      KeyRemembered(hash, nHashFuncs, nTweak, data[..], keys, nEntriesThisGeneration, nEntriesPerGeneration,
                    nGeneration, vKey);
      nEntriesThisGeneration := nEntriesThisGeneration + 1;
      keys := keys + [vKey];
    }

    /** Wipe the positions that carry the number of the new generation. */
    method Wipe()
      requires Paired(data[..]) && 1 <= nGeneration <= 3
      modifies data
      ensures data[..] == Wiped(old(data[..]), nGeneration) && Paired(data[..])
    {
      hide And, Mask, WipedWord;
      ghost var words := data[..];
      var p := 0;
      while p < data.Length
        invariant 0 <= p <= data.Length && p % 2 == 0
        invariant forall i :: 0 <= i < p ==> data[i] == WipedWord(words, i, nGeneration)
        invariant forall i :: p <= i < data.Length ==> data[i] == words[i]
      {
        WipedPair(words, p, nGeneration);
        var p1, p2 := data[p], data[p + 1];
        var mask := Mask(p1, p2, Odd(nGeneration), Upper(nGeneration));
        data[p] := And(p1, mask);
        data[p + 1] := And(p2, mask);
        p := p + 2;
      }
    }

    /** Set every position of the key to the current generation. */
    method Mark(vKey: Key)
      requires Paired(data[..]) && 1 <= nGeneration <= 3
      requires Remembers(hash, nHashFuncs, nTweak, data[..], keys, nEntriesThisGeneration,
                         nEntriesPerGeneration, nGeneration)
      requires Explained(hash, nHashFuncs, nTweak, data[..], keys + [vKey], nEntriesThisGeneration + 1,
                         nEntriesPerGeneration, nGeneration)
      modifies data
      ensures Paired(data[..])
      ensures Explained(hash, nHashFuncs, nTweak, data[..], keys + [vKey], nEntriesThisGeneration + 1,
                        nEntriesPerGeneration, nGeneration)
      ensures Remembers(hash, nHashFuncs, nTweak, data[..], keys, nEntriesThisGeneration,
                        nEntriesPerGeneration, nGeneration)
      ensures Marked(hash, nHashFuncs, nTweak, data[..], vKey, nGeneration)
    {
      hide Remembers, Explained, Cell, WithBit, Place;
      for n := 0 to nHashFuncs
        invariant Paired(data[..])
        invariant Explained(hash, nHashFuncs, nTweak, data[..], keys + [vKey], nEntriesThisGeneration + 1,
                            nEntriesPerGeneration, nGeneration)
        invariant Remembers(hash, nHashFuncs, nTweak, data[..], keys, nEntriesThisGeneration,
                            nEntriesPerGeneration, nGeneration)
        invariant Marked(hash, n, nTweak, data[..], vKey, nGeneration)
      {
        var h := hash(n, nTweak, vKey);
        ghost var words := data[..];
        WriteRemembers(hash, nHashFuncs, nTweak, words, keys, nEntriesThisGeneration, nEntriesPerGeneration,
                       nGeneration, h);
        WriteMarks(hash, n, nTweak, words, vKey, nGeneration);
        WriteExplained(hash, nHashFuncs, nTweak, words, keys + [vKey], nEntriesThisGeneration + 1,
                       nEntriesPerGeneration, nGeneration, n);
        var w := Word(h, data.Length);
        data[w] := WithBit(data[w], Place(h), Odd(nGeneration));
        data[w + 1] := WithBit(data[w + 1], Place(h), Upper(nGeneration));
        assert data[..] == Write(words, h, nGeneration);
      }
    }

    /** contains: true exactly when each position of the key is one of those of the last keys; so true for each of
      * the last keys.
      */
    method Contains(vKey: Key) returns (present: bool)
      requires Valid()
      ensures present <==>
                forall k: nat :: k < nHashFuncs ==>
                  Touched(hash, nHashFuncs, nTweak, data.Length, keys, hash(k, nTweak, vKey),
                          nEntriesThisGeneration + 2 * nEntriesPerGeneration)
      ensures present <==> Reported(hash, nHashFuncs, nTweak, data[..], vKey)
      ensures forall i :: 0 <= i < |keys| && |keys| - i <= 2 * nEntriesPerGeneration + nEntriesThisGeneration ==>
                keys[i] == vKey ==> present
    {
      hide Remembers, Explained, Bit, Or, Touched;
      forall k: nat | k < nHashFuncs ensures
        Cell(data[..], hash(k, nTweak, vKey)) != 0 <==>
          Touched(hash, nHashFuncs, nTweak, data.Length, keys, hash(k, nTweak, vKey),
                  nEntriesThisGeneration + 2 * nEntriesPerGeneration)
      {
        CellExact(hash, nHashFuncs, nTweak, data[..], keys, nEntriesThisGeneration, nEntriesPerGeneration, nGeneration,
                  hash(k, nTweak, vKey), vKey);
      }
      forall i | 0 <= i < |keys| && |keys| - i <= 2 * nEntriesPerGeneration + nEntriesThisGeneration
        ensures Reported(hash, nHashFuncs, nTweak, data[..], keys[i])
      {
        RememberedReported(hash, nHashFuncs, nTweak, data[..], keys, nEntriesThisGeneration, nEntriesPerGeneration,
                           nGeneration, i);
      }
      for n := 0 to nHashFuncs
        invariant forall k: nat :: k < n ==> Cell(data[..], hash(k, nTweak, vKey)) != 0
      {
        var h := hash(n, nTweak, vKey);
        var w := Word(h, data.Length);
        BitOfOr(data[w], data[w + 1], Place(h));
        if !Bit(Or(data[w], data[w + 1]), Place(h)) {
          return false;
        }
      }
      return true;
    }
  }
}
