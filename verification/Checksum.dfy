/**
  The 32-bit trace checksum: a murmur-style hash over the words of a coverage
  map. Words are integers below 2^32; every product and sum wraps explicitly.
 */
module Checksum {
  import opened Bytes
  import opened Words

  const C1: u32 := 0xcc9e2d51
  const C2: u32 := 0x1b873593
  const C3: u32 := 0xe6546b64
  const C4: u32 := 0x85ebca6b
  const C5: u32 := 0xc2b2ae35

  function Mul(x: u32, c: u32): u32 {
    (x * c) % M32
  }

  function Rol15(x: u32): u32 { (x * 0x8000) % M32 + x / 0x20000 }

  function Rol13(x: u32): u32 { (x * 0x2000) % M32 + x / 0x80000 }

  function Xor32(a: u32, b: u32): u32 {
    Xor32Bound(a, b);
    Xor(a, b)
  }

  lemma Xor32Bound(a: u32, b: u32)
    ensures Xor(a, b) < M32
  {
    Powers();
    XorBound(a, b, 32);
  }

  function Shake16(x: u32): u32 { Xor32(x, x / 0x10000) }

  function Shake13(x: u32): u32 { Xor32(x, x / 0x2000) }

  /** What one map word contributes. */
  function Mix(k: u32): u32 {
    Mul(Rol15(Mul(k, C1)), C2)
  }

  /** One round: the state after taking in a word. */
  function Round(h: u32, k: u32): u32 {
    (Rol13(Xor32(h, Mix(k))) * 5 + C3) % M32
  }

  function Finish(h: u32): u32 {
    Shake16(Mul(Shake13(Mul(Shake16(h), C4)), C5))
  }

  function Absorb(h: u32, words: seq<u32>): u32 {
    if words == [] then h else Round(Absorb(h, words[..|words| - 1]), words[|words| - 1])
  }

  /** The checksum of a map given as words; its length in bytes goes into the starting state. */
  function Hash(words: seq<u32>, len: u32, seed: u32): u32 {
    Finish(Absorb(Xor32(seed, len), words))
  }

  method Hash32(key: array<u32>, len: u32, seed: u32) returns (h1: u32)
    requires len / 4 <= key.Length
    ensures h1 == Hash(key[..len / 4], len, seed)
  {
    h1 := Xor32(seed, len);
    var i := 0;
    while i < len / 4
      invariant 0 <= i <= len / 4
      invariant h1 == Absorb(Xor32(seed, len), key[..i])
    {
      var k1 := key[i];
      k1 := Mul(k1, C1);
      k1 := Rol15(k1);
      k1 := Mul(k1, C2);
      assert key[..i + 1][..i] == key[..i];
      h1 := Xor32(h1, k1);
      h1 := Rol13(h1);
      h1 := (h1 * 5 + C3) % M32;
      i := i + 1;
    }
    h1 := Shake16(h1);
    h1 := Mul(h1, C4);
    h1 := Shake13(h1);
    h1 := Mul(h1, C5);
    h1 := Shake16(h1);
  }

  // ---------- every step can be undone ----------

  function Ror15(x: u32): u32 { (x * 0x20000) % M32 + x / 0x8000 }

  function Ror13(x: u32): u32 { (x * 0x80000) % M32 + x / 0x2000 }

  function Unshake13(x: u32): u32 { Xor32(Xor32(x, x / 0x2000), x / 0x4000000) }

  function Unmix(m: u32): u32 { Mul(Ror15(Mul(m, 0x56ed309b)), 0xdee13bb1) }

  /** Undoes the multiply-and-add at the end of a round. */
  function Unscale(h: u32): u32 { Mul((h - C3) % M32, 0xcccccccd) }

  function Unround(h: u32, k: u32): u32 { Xor32(Ror13(Unscale(h)), Mix(k)) }

  /** The word that takes the state h to the state r. */
  function WordBetween(h: u32, r: u32): u32 { Unmix(Xor32(Ror13(Unscale(r)), h)) }

  function Unfinish(h: u32): u32 {
    Shake16(Mul(Unshake13(Mul(Shake16(h), 0x7ed1b41d)), 0xa5cb9243))
  }

  lemma MulBacks(x: u32)
    ensures Mul(Mul(x, C1), 0xdee13bb1) == x == Mul(Mul(x, 0xdee13bb1), C1)
    ensures Mul(Mul(x, C2), 0x56ed309b) == x == Mul(Mul(x, 0x56ed309b), C2)
    ensures Mul(Mul(x, C4), 0xa5cb9243) == x == Mul(Mul(x, 0xa5cb9243), C4)
    ensures Mul(Mul(x, C5), 0x7ed1b41d) == x == Mul(Mul(x, 0x7ed1b41d), C5)
    ensures Mul(Mul(x, 5), 0xcccccccd) == x == Mul(Mul(x, 0xcccccccd), 5)
  {
    MulBack(x, C1, 0xdee13bb1, M32); MulBack(x, 0xdee13bb1, C1, M32);
    MulBack(x, C2, 0x56ed309b, M32); MulBack(x, 0x56ed309b, C2, M32);
    MulBack(x, C4, 0xa5cb9243, M32); MulBack(x, 0xa5cb9243, C4, M32);
    MulBack(x, C5, 0x7ed1b41d, M32); MulBack(x, 0x7ed1b41d, C5, M32);
    MulBack(x, 5, 0xcccccccd, M32); MulBack(x, 0xcccccccd, 5, M32);
  }

  /** Swapping the two parts of a word is what a rotation does. */
  lemma RotateParts(hi: nat, lo: nat, h: nat, l: nat)
    requires hi < h && lo < l && h * l == M32
    ensures 0 <= hi * l + lo < M32
    ensures ((hi * l + lo) * h) % M32 == lo * h && (hi * l + lo) / l == hi
  {
    assert hi * l <= (h - 1) * l == M32 - l;
    assert lo * h <= (l - 1) * h == M32 - h;
    assert (hi * l + lo) * h == hi * M32 + lo * h;
    DivUnique((hi * l + lo) * h, M32, hi, lo * h);
    DivUnique(hi * l + lo, l, hi, lo);
  }

  lemma RotateBack15(x: u32)
    ensures Ror15(Rol15(x)) == x && Rol15(Ror15(x)) == x
  {
    RotateParts(x / 0x20000, x % 0x20000, 0x8000, 0x20000);
    RotateParts(x % 0x20000, x / 0x20000, 0x20000, 0x8000);
    RotateParts(x / 0x8000, x % 0x8000, 0x20000, 0x8000);
    RotateParts(x % 0x8000, x / 0x8000, 0x8000, 0x20000);
  }

  lemma RotateBack13(x: u32)
    ensures Ror13(Rol13(x)) == x && Rol13(Ror13(x)) == x
  {
    RotateParts(x / 0x80000, x % 0x80000, 0x2000, 0x80000);
    RotateParts(x % 0x80000, x / 0x80000, 0x80000, 0x2000);
    RotateParts(x / 0x2000, x % 0x2000, 0x80000, 0x2000);
    RotateParts(x % 0x2000, x / 0x2000, 0x2000, 0x80000);
  }

  lemma ShiftedXor(a: u32, b: u32)
    ensures Xor(a, b) / 0x10000 == Xor(a / 0x10000, b / 0x10000)
    ensures Xor(a, b) / 0x2000 == Xor(a / 0x2000, b / 0x2000)
    ensures Xor(a, b) / 0x4000000 == Xor(a / 0x4000000, b / 0x4000000)
  {
    ShiftsDivide(a); ShiftsDivide(b); ShiftsDivide(Xor(a, b));
    ShrXor(a, b, 16);
    ShrXor(a, b, 13);
    ShrXor(a, b, 26);
  }

  lemma ShiftsDivide(x: nat)
    ensures Shr(x, 16) == x / 0x10000 && Shr(x, 13) == x / 0x2000 && Shr(x, 26) == x / 0x4000000
  {
    Powers();
    ShrDivides(x, 16, 0x10000);
    ShrDivides(x, 13, 0x2000);
    ShrDivides(x, 26, 0x4000000);
  }

  lemma Shifts(x: u32)
    ensures (x / 0x10000) / 0x10000 == 0
    ensures (x / 0x2000) / 0x2000 == x / 0x4000000
    ensures (x / 0x2000) / 0x4000000 == 0 && (x / 0x4000000) / 0x2000 == 0
  {}

  /** The top bits survive a shake. */
  lemma ShakeKeeps(x: u32)
    ensures Shake16(x) / 0x10000 == x / 0x10000
    ensures Shake13(x) / 0x2000 == Xor(x / 0x2000, x / 0x4000000)
    ensures Shake13(x) / 0x4000000 == x / 0x4000000
  {
    Shifts(x);
    ShiftedXor(x, x / 0x10000);
    XorSelf(x / 0x10000);
    ShiftedXor(x, x / 0x2000);
    XorSelf(x / 0x4000000);
  }

  lemma ShakeBack16(x: u32)
    ensures Shake16(Shake16(x)) == x
  {
    ShakeKeeps(x);
    XorCancels(x, x / 0x10000);
  }

  /** (x ^ y) ^ (y ^ z) ^ z == x */
  lemma XorChain(x: nat, y: nat, z: nat)
    ensures Xor(Xor(Xor(x, y), Xor(y, z)), z) == x
  {
    XorAssociates(Xor(x, y), Xor(y, z), z);
    XorCancels(y, z);
    XorCancels(x, y);
  }

  lemma ShakeBack13(x: u32)
    ensures Unshake13(Shake13(x)) == x
  {
    ShakeKeeps(x);
    XorChain(x, x / 0x2000, x / 0x4000000);
  }

  lemma UnshakeKeeps(x: u32)
    ensures Unshake13(x) / 0x2000 == Xor(x / 0x2000, x / 0x4000000)
  {
    var y, z := x / 0x2000, x / 0x4000000;
    Shifts(x);
    ShiftedXor(x, y);
    ShiftedXor(Xor32(x, y), z);
    XorSelf(Xor(y, z));
  }

  lemma UnshakeBack13(x: u32)
    ensures Shake13(Unshake13(x)) == x
  {
    var y, z := x / 0x2000, x / 0x4000000;
    UnshakeKeeps(x);
    XorAssociates(x, y, z);
    XorCancels(x, Xor(y, z));
  }

  lemma MixBijective(x: u32)
    ensures Unmix(Mix(x)) == x && Mix(Unmix(x)) == x
  {
    MulBacks(x); MulBacks(Rol15(Mul(x, C1))); RotateBack15(Mul(x, C1));
    MulBacks(Ror15(Mul(x, 0x56ed309b))); RotateBack15(Mul(x, 0x56ed309b));
  }

  lemma ScaleBack(x: u32)
    ensures Unscale((x * 5 + C3) % M32) == x && (Unscale(x) * 5 + C3) % M32 == x
  {
    MulBacks(x);
    AddBack(x * 5);
    MulBacks((x - C3) % M32);
    AddBack(Unscale(x) * 5);
    SubtractBack(x);
  }

  lemma AddBack(a: int)
    ensures ((a + C3) % M32 - C3) % M32 == a % M32
    ensures (a % M32 + C3) % M32 == (a + C3) % M32
  {}

  lemma SubtractBack(x: u32)
    ensures ((x - C3) % M32 + C3) % M32 == x
  {}

  /** A round is a bijection of the running state, whatever the word. */
  lemma RoundBijective(h: u32, k: u32)
    ensures Unround(Round(h, k), k) == h && Round(Unround(h, k), k) == h
  {
    UnroundRound(h, Mix(k));
    RoundUnround(h, Mix(k));
  }

  lemma UnroundRound(h: u32, m: u32)
    ensures Xor32(Ror13(Unscale((Rol13(Xor32(h, m)) * 5 + C3) % M32)), m) == h
  {
    ScaleBack(Rol13(Xor32(h, m)));
    RotateBack13(Xor32(h, m));
    XorCancels(h, m);
  }

  lemma RoundUnround(h: u32, m: u32)
    ensures (Rol13(Xor32(Xor32(Ror13(Unscale(h)), m), m)) * 5 + C3) % M32 == h
  {
    ScaleBack(h);
    RotateBack13(Unscale(h));
    XorCancels(Ror13(Unscale(h)), m);
  }

  /** And a bijection of the word, whatever the state. */
  lemma RoundBijectiveInWord(h: u32, k: u32, r: u32)
    ensures WordBetween(h, Round(h, k)) == k && Round(h, WordBetween(h, r)) == r
  {
    UndoRound(h, Mix(k));
    MixBijective(k);
    var y := Ror13(Unscale(r));
    RedoRound(h, r);
    MixBijective(Xor32(y, h));
  }

  lemma UndoRound(h: u32, m: u32)
    ensures Xor32(Ror13(Unscale((Rol13(Xor32(h, m)) * 5 + C3) % M32)), h) == m
  {
    var x := Xor32(h, m);
    ScaleBack(Rol13(x));
    RotateBack13(x);
    XorCommutes(h, m);
    XorCancels(m, h);
  }

  lemma RedoRound(h: u32, r: u32)
    ensures (Rol13(Xor32(h, Xor32(Ror13(Unscale(r)), h))) * 5 + C3) % M32 == r
  {
    var y := Ror13(Unscale(r));
    ScaleBack(r);
    RotateBack13(Unscale(r));
    XorCancels(y, h);
    XorCommutes(h, Xor32(y, h));
  }

  lemma FinishBijective(h: u32)
    ensures Unfinish(Finish(h)) == h && Finish(Unfinish(h)) == h
  {
    var a := Shake16(h);
    var b := Shake13(Mul(a, C4));
    ShakeBack16(h); MulBacks(a); ShakeBack13(Mul(a, C4)); MulBacks(b); ShakeBack16(Mul(b, C5));
    var d := Unshake13(Mul(a, 0x7ed1b41d));
    UnshakeBack13(Mul(a, 0x7ed1b41d)); MulBacks(d); ShakeBack16(Mul(d, 0xa5cb9243));
  }

  // ---------- what the checksum tells apart ----------

  lemma {:induction false} AbsorbAppend(h: u32, a: seq<u32>, b: seq<u32>)
    ensures Absorb(h, a + b) == Absorb(Absorb(h, a), b)
  {
    if b == [] {
      assert a + b == a;
    } else {
      var n := |b| - 1;
      assert (a + b)[..|a + b| - 1] == a + b[..n];
      AbsorbAppend(h, a, b[..n]);
    }
  }

  /** Taking in one more word in the middle. */
  lemma AbsorbAround(h: u32, a: seq<u32>, w: u32, b: seq<u32>)
    ensures Absorb(h, a + [w] + b) == Absorb(Round(Absorb(h, a), w), b)
  {
    AbsorbAppend(h, a + [w], b);
    AbsorbAppend(h, a, [w]);
    assert [w][..0] == [];
    assert Absorb(Absorb(h, a), [w]) == Round(Absorb(Absorb(h, a), []), w);
  }

  /** Taking in the same words keeps different states different. */
  lemma {:induction false} AbsorbInjective(g: u32, h: u32, words: seq<u32>)
    requires g != h
    ensures Absorb(g, words) != Absorb(h, words)
  {
    if words != [] {
      var n := |words| - 1;
      AbsorbInjective(g, h, words[..n]);
      RoundBijective(Absorb(g, words[..n]), words[n]);
      RoundBijective(Absorb(h, words[..n]), words[n]);
    }
  }

  /** Maps that differ in exactly one word always get different checksums. */
  lemma OneWordChangesHash(a: seq<u32>, b: seq<u32>, at: nat, len: u32, seed: u32)
    requires |a| == |b| && at < |a| && a[at] != b[at]
    requires forall i | 0 <= i < |a| && i != at :: a[i] == b[i]
    ensures Hash(a, len, seed) != Hash(b, len, seed)
  {
    var rest, start := a[at + 1..], Xor32(seed, len);
    var h := Absorb(start, a[..at]);
    assert a == a[..at] + [a[at]] + rest && b == a[..at] + [b[at]] + rest;
    AbsorbAround(start, a[..at], a[at], rest);
    AbsorbAround(start, a[..at], b[at], rest);
    RoundBijectiveInWord(h, a[at], 0);
    RoundBijectiveInWord(h, b[at], 0);
    AbsorbInjective(Round(h, a[at]), Round(h, b[at]), rest);
    FinishBijective(Absorb(start, a));
    FinishBijective(Absorb(start, b));
  }

  function Unabsorb(h: u32, words: seq<u32>): u32
    decreases |words|
  {
    if words == [] then h else Unabsorb(Unround(h, words[|words| - 1]), words[..|words| - 1])
  }

  lemma {:induction false} UnabsorbInverse(h: u32, words: seq<u32>)
    ensures Absorb(Unabsorb(h, words), words) == h
    decreases |words|
  {
    if words != [] {
      var n := |words| - 1;
      UnabsorbInverse(Unround(h, words[n]), words[..n]);
      RoundBijective(h, words[n]);
    }
  }

  /** At every position some word, and by OneWordChangesHash only one, gives a wanted checksum. */
  lemma EveryHashReachable(words: seq<u32>, at: nat, len: u32, seed: u32, target: u32) returns (w: u32)
    requires at < |words|
    ensures Hash(words[at := w], len, seed) == target
  {
    var start := Xor32(seed, len);
    w := WordFor(start, words[..at], words[at + 1..], Unfinish(target));
    assert words[at := w] == words[..at] + [w] + words[at + 1..];
    FinishBijective(target);
  }

  lemma WordFor(start: u32, a: seq<u32>, b: seq<u32>, goal: u32) returns (w: u32)
    ensures Absorb(start, a + [w] + b) == goal
  {
    var h, r := Absorb(start, a), Unabsorb(goal, b);
    w := WordBetween(h, r);
    RoundBijectiveInWord(h, 0, r);
    UnabsorbInverse(goal, b);
    AbsorbAround(start, a, w, b);
  }

  // ---------- a known answer ----------

  /** The last four digits of c are those of the exclusive or. */
  predicate FourDigits(a: nat, b: nat, c: nat) {
    && (a + b) % 2 == c % 2 && (a / 2 + b / 2) % 2 == c / 2 % 2
    && (a / 4 + b / 4) % 2 == c / 4 % 2 && (a / 8 + b / 8) % 2 == c / 8 % 2
  }

  lemma XorNibble(a: nat, b: nat, c: nat)
    requires Xor(a / 16, b / 16) == c / 16 && FourDigits(a, b, c)
    ensures Xor(a, b) == c
  {
    hide Xor;
    Quarters(a);
    Quarters(b);
    Quarters(c);
    XorFromHalves(a / 8, b / 8, a / 8, b / 8, c / 8);
    XorFromHalves(a / 4, b / 4, a / 4, b / 4, c / 4);
    XorFromHalves(a / 2, b / 2, a / 2, b / 2, c / 2);
    XorFromHalves(a, b, a, b, c);
  }

  lemma Quarters(a: nat)
    ensures a / 8 / 2 == a / 16 && a / 4 / 2 == a / 8 && a / 2 / 2 == a / 4
  {}

  /** One more byte of an exclusive or. */
  lemma XorByte(a: nat, b: nat, c: nat)
    requires Xor(a / 16 / 16, b / 16 / 16) == c / 16 / 16
    requires FourDigits(a, b, c) && FourDigits(a / 16, b / 16, c / 16)
    ensures Xor(a, b) == c
  {
    hide Xor, FourDigits;
    XorNibble(a / 16, b / 16, c / 16);
    XorNibble(a, b, c);
  }

  lemma StartUpper()
    ensures Xor(0xa5b3, 0x0) == 0xa5b3
  {
    hide Xor;
    XorSelf(0);
    XorByte(0xa5, 0x0, 0xa5);
    XorByte(0xa5b3, 0x0, 0xa5b3);
  }

  lemma AnswerStart()
    ensures Xor(0xa5b35705, 0x4) == 0xa5b35701
  {
    hide Xor;
    StartUpper();
    XorByte(0xa5b357, 0x0, 0xa5b357);
    XorByte(0xa5b35705, 0x4, 0xa5b35701);
  }

  lemma WordUpper()
    ensures Xor(0xa5b3, 0x5b94) == 0xfe27
  {
    hide Xor;
    XorSelf(0);
    XorByte(0xa5, 0x5b, 0xfe);
    XorByte(0xa5b3, 0x5b94, 0xfe27);
  }

  lemma AnswerWord()
    ensures Xor(0xa5b35701, 0x5b9433b7) == 0xfe2764b6
  {
    hide Xor;
    WordUpper();
    XorByte(0xa5b357, 0x5b9433, 0xfe2764);
    XorByte(0xa5b35701, 0x5b9433b7, 0xfe2764b6);
  }

  lemma FinishAUpper()
    ensures Xor(0x8546, 0x0) == 0x8546
  {
    hide Xor;
    XorSelf(0);
    XorByte(0x85, 0x0, 0x85);
    XorByte(0x8546, 0x0, 0x8546);
  }

  lemma AnswerFinishA()
    ensures Xor(0x8546ca38, 0x8546) == 0x85464f7e
  {
    hide Xor;
    FinishAUpper();
    XorByte(0x8546ca, 0x85, 0x85464f);
    XorByte(0x8546ca38, 0x8546, 0x85464f7e);
  }

  lemma FinishBUpper()
    ensures Xor(0x9dc6, 0x4) == 0x9dc2
  {
    hide Xor;
    XorSelf(0);
    XorByte(0x9d, 0x0, 0x9d);
    XorByte(0x9dc6, 0x4, 0x9dc2);
  }

  lemma AnswerFinishB()
    ensures Xor(0x9dc6a5aa, 0x4ee35) == 0x9dc24b9f
  {
    hide Xor;
    FinishBUpper();
    XorByte(0x9dc6a5, 0x4ee, 0x9dc24b);
    XorByte(0x9dc6a5aa, 0x4ee35, 0x9dc24b9f);
  }

  lemma FinishCUpper()
    ensures Xor(0xcb2d, 0x0) == 0xcb2d
  {
    hide Xor;
    XorSelf(0);
    XorByte(0xcb, 0x0, 0xcb);
    XorByte(0xcb2d, 0x0, 0xcb2d);
  }

  lemma AnswerFinishC()
    ensures Xor(0xcb2db9eb, 0xcb2d) == 0xcb2d72c6
  {
    hide Xor;
    FinishCUpper();
    XorByte(0xcb2db9, 0xcb, 0xcb2d72);
    XorByte(0xcb2db9eb, 0xcb2d, 0xcb2d72c6);
  }

  /** The checksum of the four bytes "abcd", with the seed of the fuzzer. */
  lemma KnownAnswer()
    ensures Hash([0x64636261], 4, 0xa5b35705) == 0xcb2d72c6
  {
    hide Xor;
    var words: seq<u32> := [0x64636261];
    assert words[..0] == [];
    AnswerStart();
    AnswerRound();
    AnswerFinish();
  }

  lemma AnswerRound()
    ensures Round(0xa5b35701, 0x64636261) == 0x8546ca38
  {
    hide Xor;
    assert Mul(0x64636261, C1) == 0x3f9b2db1;
    assert Rol15(0x3f9b2db1) == 0x96d89fcd;
    assert Mul(0x96d89fcd, C2) == 0x5b9433b7;
    AnswerWord();
    assert Rol13(0xfe2764b6) == 0xec96dfc4;
  }

  lemma AnswerFinish()
    ensures Finish(0x8546ca38) == 0xcb2d72c6
  {
    hide Xor;
    AnswerFinishA();
    assert Mul(0x85464f7e, C4) == 0x9dc6a5aa;
    AnswerFinishB();
    assert Mul(0x9dc24b9f, C5) == 0xcb2db9eb;
    AnswerFinishC();
  }
}
