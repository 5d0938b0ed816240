/** Counting over a map a word at a time. */
module PopCount {
  import opened Bytes
  import opened Words
  import opened CoverageMap

  lemma {:induction false} PristineAppendOne(a: seq<byte>, b: byte)
    ensures Pristine(a + [b]) == Pristine(a) + if b == 255 then 1 else 0
  {
    if a == [] {
      assert a + [b] == [b];
      assert [b][1..] == [];
    } else {
      assert (a + [b])[1..] == a[1..] + [b];
      PristineAppendOne(a[1..], b);
    }
  }

  lemma FullWord(s: seq<byte>)
    requires |s| == 4
    ensures ToWord(s) == 0xffffffff <==> forall k | 0 <= k < 4 :: s[k] == 255
  {
    var b0: nat, b1: nat, b2: nat, b3: nat := s[0], s[1], s[2], s[3];
    assert s[1..][1..] == s[2..] && s[2..][1..] == s[3..] && s[3..][1..] == [];
    assert ToWord(s[3..]) == b3;
    assert ToWord(s[2..]) == b2 + 256 * b3;
    assert ToWord(s[1..]) == b1 + 256 * (b2 + 256 * b3);
    assert ToWord(s) == b0 + 256 * (b1 + 256 * (b2 + 256 * b3));
  }

  lemma FullWordAt(s: seq<byte>, at: nat)
    requires at + 4 <= |s|
    ensures ToWord(s[at..at + 4]) == 0xffffffff <==>
            s[at] == 255 && s[at + 1] == 255 && s[at + 2] == 255 && s[at + 3] == 255
  {
    hide ToWord;
    var w := s[at..at + 4];
    FullWord(w);
    assert w[0] == s[at] && w[1] == s[at + 1] && w[2] == s[at + 2] && w[3] == s[at + 3];
  }

  /** Counts the bytes that are no longer 0xff; untouched words are skipped. */
  method CountNon255Bytes(mem: seq<byte>) returns (ret: nat)
    requires Aligned(|mem|, 4)
    ensures ret == |mem| - Pristine(mem)
  {
    hide ToWord, Pristine;
    ret := 0;
    PristineOfNothing();
    assert mem[..0] == [];
    var at := 0;
    while at < |mem|
      invariant 0 <= at <= |mem| && Aligned(at, 4)
      invariant ret == at - Pristine(mem[..at])
    {
      var v := ToWord(mem[at..at + 4]);
      FullWordAt(mem, at);
      FourMore(mem, at);
      if v != 0xffffffff {
        if mem[at] != 255 { ret := ret + 1; }
        if mem[at + 1] != 255 { ret := ret + 1; }
        if mem[at + 2] != 255 { ret := ret + 1; }
        if mem[at + 3] != 255 { ret := ret + 1; }
      }
      at := at + 4;
    }
    assert mem[..at] == mem;
  }

  lemma PristineOfNothing()
    ensures Pristine([]) == 0
  {}

  function One(b: bool): nat { if b then 1 else 0 }

  lemma FourMore(s: seq<byte>, at: nat)
    requires at + 4 <= |s|
    ensures Pristine(s[..at + 4]) == Pristine(s[..at])
      + One(s[at] == 255) + One(s[at + 1] == 255) + One(s[at + 2] == 255) + One(s[at + 3] == 255)
  {
    assert s[..at + 1] == s[..at] + [s[at]];
    assert s[..at + 2] == s[..at + 1] + [s[at + 1]];
    assert s[..at + 3] == s[..at + 2] + [s[at + 2]];
    assert s[..at + 4] == s[..at + 3] + [s[at + 3]];
    PristineAppendOne(s[..at], s[at]);
    PristineAppendOne(s[..at + 1], s[at + 1]);
    PristineAppendOne(s[..at + 2], s[at + 2]);
    PristineAppendOne(s[..at + 3], s[at + 3]);
  }

  // ---------- set bits ----------

  /** A pattern repeated in n fields, 4, 16 or 256 wide. */
  function Mask4(n: nat): nat { if n == 0 then 0 else 1 + 4 * Mask4(n - 1) }

  function Mask16(n: nat): nat { if n == 0 then 0 else 3 + 16 * Mask16(n - 1) }

  function Mask256(n: nat): nat { if n == 0 then 0 else 15 + 256 * Mask256(n - 1) }

  /** Each two-bit field replaced by its number of set bits. */
  function Pop4(w: nat): nat { if w == 0 then 0 else Pop(w % 4) + 4 * Pop4(w / 4) }

  function Pop16(w: nat): nat { if w == 0 then 0 else Pop(w % 16) + 16 * Pop16(w / 16) }

  function Pop256(w: nat): nat { if w == 0 then 0 else Pop(w % 256) + 256 * Pop256(w / 256) }

  lemma PopOfTwo(r: nat)
    requires r < 4
    ensures Pop(r) == r - r / 2 && r / 2 < 2
  {}

  lemma AndOne(x: nat)
    ensures And(x, 1) == x % 2
  {
    AndDigits(x, 1);
    assert And(x / 2, 0) == 0;
  }

  lemma AndThree(x: nat)
    ensures And(x, 3) == x % 4
  {
    hide And;
    AndDigits(x, 3);
    AndOne(x / 2);
    LastTwo(x);
    SameDigits(And(x, 3), x % 4);
  }

  lemma LastTwo(x: nat)
    ensures x % 4 % 2 == x % 2 == Both(x, 3) && x % 4 / 2 == x / 2 % 2
  {}

  lemma SmallPowers()
    ensures Pow2(2) == 4 && Pow2(4) == 16 && Pow2(8) == 256
  {
    assert Pow2(6) == 64;
  }

  lemma SplitAnd4(x: nat, low: nat, m: nat)
    requires low < 4
    ensures And(x, low + 4 * m) == And(x % 4, low) + 4 * And(x / 4, m)
  {
    hide And, Pow2;
    SmallPowers();
    AndSplits(x % 4, x / 4, low, m, 2);
  }

  lemma SplitAnd16(x: nat, low: nat, m: nat)
    requires low < 16
    ensures And(x, low + 16 * m) == And(x % 16, low) + 16 * And(x / 16, m)
  {
    hide And, Pow2;
    SmallPowers();
    AndSplits(x % 16, x / 16, low, m, 4);
  }

  lemma SplitAnd256(x: nat, low: nat, m: nat)
    requires low < 256
    ensures And(x, low + 256 * m) == And(x % 256, low) + 256 * And(x / 256, m)
  {
    hide And, Pow2;
    SmallPowers();
    AndSplits(x % 256, x / 256, low, m, 8);
  }

  lemma AndFifteen(x: nat)
    ensures And(x, 15) == x % 16
  {
    hide And;
    SplitAnd4(x, 3, 3);
    AndThree(x % 4);
    AndThree(x / 4);
    FourFours(x);
  }

  lemma FourFours(x: nat)
    ensures x % 4 % 4 + 4 * (x / 4 % 4) == x % 16
  {
    TwoFields4(x);
    SmallRemainder(x % 4);
  }

  lemma SmallRemainder(r: nat)
    requires r < 4
    ensures r % 4 == r
  {}

  /** w has at most n fields, 4, 16 or 256 wide. */
  predicate Fits4(w: nat, n: nat) { if n == 0 then w == 0 else Fits4(w / 4, n - 1) }

  predicate Fits16(w: nat, n: nat) { if n == 0 then w == 0 else Fits16(w / 16, n - 1) }

  predicate Fits256(w: nat, n: nat) { if n == 0 then w == 0 else Fits256(w / 256, n - 1) }

  /** v - ((v >> 1) & 0x5...5) counts in each two-bit field. */
  lemma {:induction false} PairStep(w: nat, n: nat)
    requires Fits4(w, n)
    ensures w - And(w / 2, Mask4(n)) == Pop4(w)
  {
    hide And, Pop;
    if n > 0 {
      var r, w' := w % 4, w / 4;
      PairStep(w', n - 1);
      SplitAnd4(w / 2, 1, Mask4(n - 1));
      AndOne((w / 2) % 4);
      HalfOfFields(w);
      PopOfTwo(r);
      PopUnfold4(w);
    } else {
      NothingCounted();
    }
  }

  lemma HalfOfFields(w: nat)
    ensures (w / 2) % 4 % 2 == w % 4 / 2 && w / 2 / 4 == w / 4 / 2
  {}

  lemma PopUnfold4(w: nat)
    ensures Pop4(w) == Pop(w % 4) + 4 * Pop4(w / 4)
  {}

  /** (v & 0x3...3) + ((v >> 2) & 0x3...3) adds the two fields of each nibble. */
  lemma {:induction false} NibbleStep(w: nat, n: nat)
    requires Fits16(w, n)
    ensures var v := Pop4(w);
            And(v, Mask16(n)) + And(v / 4, Mask16(n)) == Pop16(w)
  {
    hide And, Pop, Pop4;
    if n > 0 {
      var v, w' := Pop4(w), w / 16;
      NibbleStep(w', n - 1);
      var a, b := NibbleFields(w);
      SplitAnd16(v, 3, Mask16(n - 1));
      SplitAnd16(v / 4, 3, Mask16(n - 1));
      AndThree(v % 16);
      AndThree(v / 4 % 16);
      NibbleParts(v, a, b, Pop4(w'));
      PopUnfold16(w);
    } else {
      NothingCounted();
    }
  }

  lemma NothingCounted()
    ensures And(0, 0) == 0 && Pop4(0) == 0
  {}

  lemma TwoFields4(w: nat)
    ensures w / 4 / 4 == w / 16 && w % 16 == w % 4 + 4 * (w / 4 % 4)
  {
    var q := w / 4;
    DivUnique(w, 16, q / 4, w % 4 + 4 * (q % 4));
  }

  lemma TwoFields16(w: nat)
    ensures w / 16 / 16 == w / 256 && w % 256 == w % 16 + 16 * (w / 16 % 16)
  {}

  /** The two fields of the lowest nibble. */
  lemma NibbleFields(w: nat) returns (a: nat, b: nat)
    ensures a < 4 && b < 4 && Pop4(w) == a + 4 * b + 16 * Pop4(w / 16) && a + b == Pop(w % 16)
  {
    hide Pop, Pop4;
    a, b := Pop(w % 4), Pop(w / 4 % 4);
    PopOfTwo(w % 4);
    PopOfTwo(w / 4 % 4);
    PopUnfold4(w);
    PopUnfold4(w / 4);
    NibblePop(w % 4, w / 4 % 4);
    TwoFields4(w);
  }

  /** The bits of the low k digits and of the rest are counted independently. */
  lemma {:induction false} PopSplits(x: nat, y: nat, k: nat)
    requires x < Pow2(k)
    ensures Pop(x + Pow2(k) * y) == Pop(x) + Pop(y)
    decreases k
  {
    hide Pop;
    if k > 0 {
      var p := Pow2(k - 1);
      PopSplits(x / 2, y, k - 1);
      PopSplitsStep(x, p * y, Pop(y));
      Doubled(p, y);
    } else {
      PopOfTwo(0);
    }
  }

  lemma PopSplitsStep(x: nat, h: nat, rest: nat)
    requires Pop(x / 2 + h) == Pop(x / 2) + rest
    ensures Pop(x + 2 * h) == Pop(x) + rest
  {
    hide Pop;
    HalfOfSum(x, h);
    PopHalf(x + 2 * h);
    PopHalf(x);
  }

  lemma PopHalf(x: nat)
    ensures Pop(x) == x % 2 + Pop(x / 2)
  {}

  lemma NibblePop(a: nat, b: nat)
    requires a < 4
    ensures Pop(a + 4 * b) == Pop(a) + Pop(b)
  {
    assert Pow2(2) == 4;
    PopSplits(a, b, 2);
  }

  lemma BytePop(a: nat, b: nat)
    requires a < 16
    ensures Pop(a + 16 * b) == Pop(a) + Pop(b)
  {
    assert Pow2(2) == 4;
    assert Pow2(4) == 16;
    PopSplits(a, b, 4);
  }

  lemma NibbleParts(v: nat, a: nat, b: nat, rest: nat)
    requires a < 4 && b < 4 && v == a + 4 * b + 16 * rest
    ensures v % 16 % 4 == a && v / 16 == rest && v / 4 % 16 % 4 == b && v / 4 / 16 == rest / 4
  {
    var q, r := rest / 4, rest % 4;
    DivUnique(v, 16, rest, a + 4 * b);
    DivUnique(v, 4, b + 4 * rest, a);
    DivUnique(b + 4 * rest, 16, q, b + 4 * r);
    DivUnique(a + 4 * b, 4, b, a);
    DivUnique(b + 4 * r, 4, r, b);
  }

  lemma PopUnfold16(w: nat)
    ensures Pop16(w) == Pop(w % 16) + 16 * Pop16(w / 16)
  {}

  /** (v + (v >> 4)) & 0x0F...0F adds the two nibbles of each byte. */
  lemma {:induction false} ByteStep(w: nat, n: nat)
    requires Fits256(w, n)
    ensures var x := Pop16(w);
            And(x + x / 16, Mask256(n)) == Pop256(w)
  {
    hide And, Pop, Pop16;
    if n > 0 {
      var x, w' := Pop16(w), w / 256;
      ByteStep(w', n - 1);
      var a, b := ByteNibbles(w);
      LowNibble(w');
      ByteParts(x, a, b, Pop16(w'));
      SplitAnd256(x + x / 16, 15, Mask256(n - 1));
      AndFifteen((x + x / 16) % 256);
      PopUnfold256(w);
    } else {
      NothingCounted16();
    }
  }

  lemma NothingCounted16()
    ensures And(0, 0) == 0 && Pop16(0) == 0
  {}

  lemma PopOfFour(x: nat)
    requires x < 16
    ensures Pop(x) <= 4
  {
    hide Pop;
    NibblePop(x % 4, x / 4);
    PopOfTwo(x % 4);
    PopOfTwo(x / 4);
  }

  lemma LowNibble(w: nat)
    ensures Pop16(w) % 16 <= 4
  {
    hide Pop, Pop16;
    PopUnfold16(w);
    PopOfFour(w % 16);
    assert (Pop(w % 16) + 16 * Pop16(w / 16)) % 16 == Pop(w % 16);
  }

  lemma ByteNibbles(w: nat) returns (a: nat, b: nat)
    ensures a <= 4 && b <= 4 && Pop16(w) == a + 16 * b + 256 * Pop16(w / 256) && a + b == Pop(w % 256)
  {
    hide Pop, Pop16;
    a, b := Pop(w % 16), Pop(w / 16 % 16);
    PopOfFour(w % 16);
    PopOfFour(w / 16 % 16);
    PopUnfold16(w);
    PopUnfold16(w / 16);
    BytePop(w % 16, w / 16 % 16);
    TwoFields16(w);
  }

  lemma ByteParts(x: nat, a: nat, b: nat, rest: nat)
    requires a <= 4 && b <= 4 && rest % 16 <= 4 && x == a + 16 * b + 256 * rest
    ensures (x + x / 16) % 256 % 16 == a + b && (x + x / 16) / 256 == rest + rest / 16
  {
    assert x / 16 == b + 16 * rest;
    SumParts(x + x / 16, a + b, b + rest % 16, rest / 16, rest);
  }

  lemma SumParts(s: nat, low: nat, mid: nat, q: nat, rest: nat)
    requires low <= 8 && mid <= 8 && s == low + 16 * mid + 256 * (rest + q)
    ensures s % 256 % 16 == low && s / 256 == rest + q
  {
    DivUnique(s, 256, rest + q, low + 16 * mid);
    DivUnique(low + 16 * mid, 16, mid, low);
  }

  lemma PopUnfold256(w: nat)
    ensures Pop256(w) == Pop(w % 256) + 256 * Pop256(w / 256)
  {}

  // ---------- the whole word ----------

  lemma {:induction false} WordFits(s: seq<byte>)
    ensures Fits256(ToWord(s), |s|)
  {
    if s != [] {
      WordFits(s[1..]);
      assert (s[0] + 256 * ToWord(s[1..])) / 256 == ToWord(s[1..]);
    }
  }

  lemma {:induction false} Fits256Fits16(w: nat, n: nat)
    requires Fits256(w, n)
    ensures Fits16(w, 2 * n)
  {
    if n > 0 {
      Fits256Fits16(w / 256, n - 1);
      assert w / 16 / 16 == w / 256;
    }
  }

  lemma {:induction false} Fits16Fits4(w: nat, n: nat)
    requires Fits16(w, n)
    ensures Fits4(w, 2 * n)
  {
    if n > 0 {
      Fits16Fits4(w / 16, n - 1);
      assert w / 4 / 4 == w / 16;
    }
  }

  lemma {:induction false} PopOfWord(s: seq<byte>)
    ensures Pop256(ToWord(s)) == PopBytes(s)
  {
    hide Pop;
    if s == [] {
      assert Pop256(0) == 0;
    } else {
      PopOfWord(s[1..]);
      var w := ToWord(s);
      assert w % 256 == s[0] && w / 256 == ToWord(s[1..]);
      PopUnfold256(w);
    }
  }

  /** The counts of the bytes of a word, side by side. */
  function PopBytes(s: seq<byte>): nat {
    if s == [] then 0 else Pop(s[0]) + 256 * PopBytes(s[1..])
  }

  lemma PopOfByte(b: byte)
    ensures Pop(b) <= 8
  {
    BytePop(b % 16, b / 16);
    PopOfFour(b % 16);
    PopOfFour(b / 16);
  }

  /** The multiplication adds up the four counts in the highest byte. */
  lemma SumInTopByte(c0: nat, c1: nat, c2: nat, c3: nat, y: nat)
    requires c0 <= 8 && c1 <= 8 && c2 <= 8 && c3 <= 8
    requires y == c0 + 0x100 * c1 + 0x1_0000 * c2 + 0x100_0000 * c3
    ensures y * 0x0101_0101 % M32 / 0x100_0000 == c0 + c1 + c2 + c3
  {
    var low := c0 + 0x100 * (c0 + c1) + 0x1_0000 * (c0 + c1 + c2);
    var all := c0 + c1 + c2 + c3;
    var high := c1 + c2 + c3 + 0x100 * (c2 + c3) + 0x1_0000 * c3;
    DivUnique(y * 0x0101_0101, M32, high, low + 0x100_0000 * all);
    DivUnique(low + 0x100_0000 * all, 0x100_0000, all, low);
  }

  lemma Masks()
    ensures Mask4(16) == 0x5555_5555 && Mask16(8) == 0x3333_3333 && Mask256(4) == 0x0F0F_0F0F
  {
    assert Mask4(4) == 0x55;
    assert Mask4(8) == 0x5555;
    assert Mask4(12) == 0x55_5555;
    assert Mask16(4) == 0x3333;
  }

  lemma FourCounts(s: seq<byte>)
    requires |s| == 4
    ensures PopBytes(s) == Pop(s[0]) + 0x100 * Pop(s[1]) + 0x1_0000 * Pop(s[2]) + 0x100_0000 * Pop(s[3])
  {
    hide Pop;
    assert s[1..][1..] == s[2..] && s[2..][1..] == s[3..] && s[3..][1..] == [];
    assert PopBytes(s[3..]) == Pop(s[3]);
    assert PopBytes(s[2..]) == Pop(s[2]) + 256 * PopBytes(s[3..]);
    assert PopBytes(s[1..]) == Pop(s[1]) + 256 * PopBytes(s[2..]);
  }

  /** Shifts, masks and one multiplication count the bits of a word. */
  method WordBits(s: seq<byte>) returns (count: nat)
    requires |s| == 4
    ensures count == Pop(s[0]) + Pop(s[1]) + Pop(s[2]) + Pop(s[3])
  {
    hide Pop, Pop4, Pop16, Pop256, And, Mask4, Mask16, Mask256, ToWord;
    ghost var w := ToWord(s);
    WordFits(s);
    Fits256Fits16(w, 4);
    Fits16Fits4(w, 8);
    Masks();
    PairStep(w, 16);
    NibbleStep(w, 8);
    ByteStep(w, 4);
    PopOfWord(s);
    FourCounts(s);
    PopOfByte(s[0]);
    PopOfByte(s[1]);
    PopOfByte(s[2]);
    PopOfByte(s[3]);
    SumInTopByte(Pop(s[0]), Pop(s[1]), Pop(s[2]), Pop(s[3]), PopBytes(s));
    var v: int := ToWord(s);
    v := v - And(v / 2, 0x5555_5555);
    v := And(v, 0x3333_3333) + And(v / 4, 0x3333_3333);
    count := And(v + v / 16, 0x0F0F_0F0F) * 0x0101_0101 % M32 / 0x100_0000;
  }

  lemma OnesFourMore(s: seq<byte>, at: nat)
    requires at + 4 <= |s|
    ensures Ones(s[..at + 4]) == Ones(s[..at]) + Pop(s[at]) + Pop(s[at + 1]) + Pop(s[at + 2]) + Pop(s[at + 3])
  {
    hide Pop;
    assert s[..at + 1] == s[..at] + [s[at]];
    assert s[..at + 2] == s[..at + 1] + [s[at + 1]];
    assert s[..at + 3] == s[..at + 2] + [s[at + 2]];
    assert s[..at + 4] == s[..at + 3] + [s[at + 3]];
    OnesAppendOne(s[..at], s[at]);
    OnesAppendOne(s[..at + 1], s[at + 1]);
    OnesAppendOne(s[..at + 2], s[at + 2]);
    OnesAppendOne(s[..at + 3], s[at + 3]);
  }

  lemma {:induction false} OnesAppendOne(a: seq<byte>, b: byte)
    ensures Ones(a + [b]) == Ones(a) + Pop(b)
  {
    hide Pop;
    if a == [] {
      assert a + [b] == [b];
      assert [b][1..] == [];
    } else {
      assert (a + [b])[1..] == a[1..] + [b];
      OnesAppendOne(a[1..], b);
    }
  }

  lemma EightOnes()
    ensures Pop(255) == 8
  {
    assert Pop(3) == 2;
    NibblePop(3, 3);
    BytePop(15, 15);
  }

  /** Counts the set bits of a map. */
  method CountBits(mem: seq<byte>) returns (ret: nat)
    requires Aligned(|mem|, 4)
    ensures ret == Ones(mem)
  {
    hide Pop, ToWord, Ones;
    ret := 0;
    var at := 0;
    OnesOfNothing(mem);
    while at < |mem|
      invariant 0 <= at <= |mem| && Aligned(at, 4)
      invariant ret == Ones(mem[..at])
    {
      var s := mem[at..at + 4];
      FullWord(s);
      EightOnes();
      OnesFourMore(mem, at);
      if ToWord(s) == 0xffff_ffff {
        ret := ret + 32;
      } else {
        var count := WordBits(s);
        ret := ret + count;
      }
      at := at + 4;
    }
    assert mem[..at] == mem;
  }

  lemma OnesOfNothing(mem: seq<byte>)
    ensures Ones(mem[..0]) == 0
  {}
}
