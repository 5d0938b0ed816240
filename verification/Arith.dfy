/**
  The test that skips an interesting value when an earlier arithmetic stage
  already produced it: exactly the values that are one small addition or
  subtraction away, on one byte, on one aligned 16-bit word in either byte
  order, or on the whole 32-bit value in either byte order.
 */
module Arith {
  import opened Bytes
  import opened Words

  const ARITH_MAX := 35

  // ---------- fields of a value ----------

  /** (u8)(v >> (8 * i)) */
  function ByteAt(v: nat, i: nat): (b: nat)
    ensures b < 0x100
    decreases i
  {
    if i == 0 then v % 0x100 else ByteAt(v / 0x100, i - 1)
  }

  /** (u16)(v >> (16 * i)) */
  function WordAt(v: nat, i: nat): (w: nat)
    ensures w < 0x1_0000
    decreases i
  {
    if i == 0 then v % 0x1_0000 else WordAt(v / 0x1_0000, i - 1)
  }

  function Swap16(x: nat): (r: nat)
    requires x < 0x1_0000
    ensures r < 0x1_0000
  {
    x % 0x100 * 0x100 + x / 0x100
  }

  function Swap32(x: u32): u32 {
    x % 0x100 * 0x100_0000 + x / 0x100 % 0x100 * 0x1_0000 + x / 0x1_0000 % 0x100 * 0x100 + x / 0x100_0000
  }

  /** A value from its bytes. */
  function FromBytes(b0: byte, b1: byte, b2: byte, b3: byte): u32 {
    b3 * 0x100_0000 + b2 * 0x1_0000 + b1 * 0x100 + b0
  }

  lemma TakeBytes(b0: byte, b1: byte, b2: byte, b3: byte)
    ensures var x := FromBytes(b0, b1, b2, b3);
            x % 0x100 == b0 && x / 0x100 % 0x100 == b1 && x / 0x1_0000 % 0x100 == b2 && x / 0x100_0000 == b3
  {
    var x := FromBytes(b0, b1, b2, b3);
    assert x / 0x100_0000 == b3;
    assert x / 0x1_0000 == b3 * 0x100 + b2;
    assert x / 0x100 == (b3 * 0x100 + b2) * 0x100 + b1;
  }

  lemma SwapReverses(b0: byte, b1: byte, b2: byte, b3: byte)
    ensures Swap32(FromBytes(b0, b1, b2, b3)) == FromBytes(b3, b2, b1, b0)
  {
    hide FromBytes;
    TakeBytes(b0, b1, b2, b3);
    FromBytesIs(b3, b2, b1, b0);
  }

  lemma FromBytesIs(b0: byte, b1: byte, b2: byte, b3: byte)
    ensures FromBytes(b0, b1, b2, b3) == b3 * 0x100_0000 + b2 * 0x1_0000 + b1 * 0x100 + b0
  {}

  lemma HasBytes(x: u32) returns (b0: byte, b1: byte, b2: byte, b3: byte)
    ensures x == FromBytes(b0, b1, b2, b3)
  {
    var y := x / 0x100;
    var z := y / 0x100;
    b0, b1, b2, b3 := x % 0x100, y % 0x100, z % 0x100, z / 0x100;
  }

  /** Swapping byte order twice changes nothing. */
  lemma SwapTwice(x: u32)
    ensures Swap32(Swap32(x)) == x
  {
    hide Swap32, FromBytes;
    var b0, b1, b2, b3 := HasBytes(x);
    SwapReverses(b0, b1, b2, b3);
    SwapReverses(b3, b2, b1, b0);
  }

  lemma SwapTwice16(x: nat)
    requires x < 0x1_0000
    ensures Swap16(Swap16(x)) == x
  {}

  // ---------- what the arithmetic stages reach ----------

  /** y is x plus or minus 1 to 35, modulo m. */
  ghost predicate Adjusted(x: int, y: int, m: nat)
    requires m > 0
  {
    exists d :: 1 <= d <= 35 && Away(x, y, d, m)
  }

  predicate Away(x: int, y: int, d: int, m: nat)
    requires m > 0
  {
    y == (x + d) % m || y == (x - d) % m
  }

  ghost predicate OnlyByte(x: nat, y: nat, n: nat, i: nat) {
    i < n && forall k | 0 <= k < n && k != i :: ByteAt(x, k) == ByteAt(y, k)
  }

  ghost predicate OnlyWord(x: nat, y: nat, n: nat, i: nat) {
    i < n && forall k | 0 <= k < n && k != i :: WordAt(x, k) == WordAt(y, k)
  }

  ghost predicate ByByte(x: nat, y: nat, blen: nat) {
    exists i :: OnlyByte(x, y, blen, i) && Adjusted(ByteAt(x, i), ByteAt(y, i), 0x100)
  }

  ghost predicate ByWord(x: nat, y: nat, blen: nat) {
    exists i :: OnlyWord(x, y, blen / 2, i)
      && (Adjusted(WordAt(x, i), WordAt(y, i), 0x1_0000)
          || Adjusted(Swap16(WordAt(x, i)), Swap16(WordAt(y, i)), 0x1_0000))
  }

  ghost predicate ByWhole(x: u32, y: u32, blen: nat) {
    blen == 4 && (Adjusted(x, y, M32) || Adjusted(Swap32(x), Swap32(y), M32))
  }

  ghost predicate Reachable(x: u32, y: u32, blen: nat) {
    x == y || ByByte(x, y, blen) || ByWord(x, y, blen) || ByWhole(x, y, blen)
  }

  // ---------- the test ----------

  /** Two wrapped differences. */
  predicate Near(x: int, y: int, m: nat)
    requires m > 0
  {
    (x - y) % m <= ARITH_MAX || (y - x) % m <= ARITH_MAX
  }

  lemma NearIsAdjusted(x: int, y: int, m: nat)
    requires m >= 0x100 && 0 <= x < m && 0 <= y < m && x != y
    ensures Near(x, y, m) <==> Adjusted(x, y, m)
  {
    Difference(x, y, m);
    Difference(y, x, m);
    if Near(x, y, m) {
      var d := if (y - x) % m <= ARITH_MAX then (y - x) % m else (x - y) % m;
      Sum(x, d, m);
      assert Away(x, y, d, m);
    }
    if Adjusted(x, y, m) {
      var d :| 1 <= d <= ARITH_MAX && Away(x, y, d, m);
      Sum(x, d, m);
    }
  }

  lemma Difference(x: int, y: int, m: nat)
    requires m > 0 && 0 <= x < m && 0 <= y < m
    ensures (x - y) % m == if x >= y then x - y else x - y + m
  {
    DivUnique(x - y, m, if x >= y then 0 else -1, if x >= y then x - y else x - y + m);
  }

  lemma Sum(x: int, d: int, m: nat)
    requires 0 <= d < m && 0 <= x < m
    ensures (x + d) % m == if x + d < m then x + d else x + d - m
    ensures (x - d) % m == if x >= d then x - d else x - d + m
  {
    DivUnique(x + d, m, if x + d < m then 0 else 1, if x + d < m then x + d else x + d - m);
    DivUnique(x - d, m, if x >= d then 0 else -1, if x >= d then x - d else x - d + m);
  }

  ghost function BytesApart(x: nat, y: nat, n: nat): set<nat> {
    set i: nat | i < n && ByteAt(x, i) != ByteAt(y, i)
  }

  ghost function WordsApart(x: nat, y: nat, n: nat): set<nat> {
    set i: nat | i < n && WordAt(x, i) != WordAt(y, i)
  }

  lemma OneByteApart(x: nat, y: nat, n: nat, i: nat)
    ensures OnlyByte(x, y, n, i) && ByteAt(x, i) != ByteAt(y, i) <==> BytesApart(x, y, n) == {i}
  {
    hide ByteAt;
    if BytesApart(x, y, n) == {i} {
      assert i in BytesApart(x, y, n);
      forall k | 0 <= k < n && k != i
        ensures ByteAt(x, k) == ByteAt(y, k)
      {
        assert k !in BytesApart(x, y, n);
      }
    }
  }

  lemma OneWordApart(x: nat, y: nat, n: nat, i: nat)
    ensures OnlyWord(x, y, n, i) && WordAt(x, i) != WordAt(y, i) <==> WordsApart(x, y, n) == {i}
  {
    hide WordAt;
    if WordsApart(x, y, n) == {i} {
      assert i in WordsApart(x, y, n);
      forall k | 0 <= k < n && k != i
        ensures WordAt(x, k) == WordAt(y, k)
      {
        assert k !in WordsApart(x, y, n);
      }
    }
  }

  ghost predicate Last(s: set<nat>, at: nat) {
    at in s && forall k | k in s :: k <= at
  }

  lemma OneMember(s: set<nat>, at: nat)
    requires |s| == 1 && at in s
    ensures s == {at}
  {
    assert |s - {at}| == 0;
  }

  /** Counts the bytes that differ and keeps the last pair. */
  method DifferingBytes(x: nat, y: nat, n: nat) returns (diffs: nat, ov: nat, nv: nat, ghost at: nat)
    ensures diffs == |BytesApart(x, y, n)|
    ensures diffs > 0 ==> Last(BytesApart(x, y, n), at) && ov == ByteAt(x, at) && nv == ByteAt(y, at)
    ensures diffs == 1 ==> OnlyByte(x, y, n, at) && ov != nv
    ensures diffs != 1 ==> forall i | OnlyByte(x, y, n, i) :: ByteAt(x, i) == ByteAt(y, i)
  {
    hide ByteAt, OnlyByte;
    diffs, ov, nv, at := 0, 0, 0, 0;
    var i := 0;
    while i < n
      invariant i <= n && diffs == |BytesApart(x, y, i)|
      invariant diffs > 0 ==> Last(BytesApart(x, y, i), at) && ov == ByteAt(x, at) && nv == ByteAt(y, at)
    {
      var a, b := ByteAt(x, i), ByteAt(y, i);
      assert BytesApart(x, y, i + 1) == BytesApart(x, y, i) + if a != b then {i} else {};
      if a != b {
        diffs, ov, nv, at := diffs + 1, a, b, i;
      }
      i := i + 1;
    }
    if diffs == 1 {
      OneMember(BytesApart(x, y, n), at);
      OneByteApart(x, y, n, at);
    }
    forall k: nat | OnlyByte(x, y, n, k) && ByteAt(x, k) != ByteAt(y, k)
      ensures diffs == 1
    {
      OneByteApart(x, y, n, k);
    }
  }

  /** Counts the 16-bit words that differ and keeps the last pair. */
  method DifferingWords(x: nat, y: nat, n: nat) returns (diffs: nat, ov: nat, nv: nat, ghost at: nat)
    ensures diffs == |WordsApart(x, y, n)|
    ensures diffs > 0 ==> Last(WordsApart(x, y, n), at) && ov == WordAt(x, at) && nv == WordAt(y, at)
    ensures diffs == 1 ==> OnlyWord(x, y, n, at) && ov != nv
    ensures diffs != 1 ==> forall i | OnlyWord(x, y, n, i) :: WordAt(x, i) == WordAt(y, i)
  {
    hide WordAt, OnlyWord;
    diffs, ov, nv, at := 0, 0, 0, 0;
    var i := 0;
    while i < n
      invariant i <= n && diffs == |WordsApart(x, y, i)|
      invariant diffs > 0 ==> Last(WordsApart(x, y, i), at) && ov == WordAt(x, at) && nv == WordAt(y, at)
    {
      var a, b := WordAt(x, i), WordAt(y, i);
      assert WordsApart(x, y, i + 1) == WordsApart(x, y, i) + if a != b then {i} else {};
      if a != b {
        diffs, ov, nv, at := diffs + 1, a, b, i;
      }
      i := i + 1;
    }
    if diffs == 1 {
      OneMember(WordsApart(x, y, n), at);
      OneWordApart(x, y, n, at);
    }
    forall k: nat | OnlyWord(x, y, n, k) && WordAt(x, k) != WordAt(y, k)
      ensures diffs == 1
    {
      OneWordApart(x, y, n, k);
    }
  }

  lemma NotAdjusted(x: int, m: nat)
    requires m >= 0x100 && 0 <= x < m
    ensures !Adjusted(x, x, m)
  {
    forall d | 1 <= d <= ARITH_MAX
      ensures !Away(x, x, d, m)
    {
      Sum(x, d, m);
    }
  }

  /** The byte step decides whether one byte was adjusted. */
  method TryBytes(x: nat, y: nat, blen: nat) returns (r: bool)
    ensures r == ByByte(x, y, blen)
  {
    var diffs, ov, nv, at := DifferingBytes(x, y, blen);
    r := diffs == 1 && Near(ov, nv, 0x100);
    if diffs == 1 {
      NearIsAdjusted(ov, nv, 0x100);
    }
    forall i | OnlyByte(x, y, blen, i) && Adjusted(ByteAt(x, i), ByteAt(y, i), 0x100)
      ensures r
    {
      NotAdjusted(ByteAt(x, i), 0x100);
    }
  }

  /** The word step decides whether one word was adjusted, in either byte order. */
  method TryWords(x: nat, y: nat, blen: nat) returns (r: bool)
    ensures r == ByWord(x, y, blen)
  {
    hide Adjusted, Swap16;
    var diffs, ov, nv, at := DifferingWords(x, y, blen / 2);
    r := false;
    if diffs == 1 {
      var so, sn := Swap16(ov), Swap16(nv);
      SwapTwice16(ov);
      SwapTwice16(nv);
      r := Near(ov, nv, 0x1_0000) || Near(so, sn, 0x1_0000);
      NearIsAdjusted(ov, nv, 0x1_0000);
      NearIsAdjusted(so, sn, 0x1_0000);
    }
    forall i | OnlyWord(x, y, blen / 2, i) && WordAt(x, i) == WordAt(y, i)
      ensures !Adjusted(WordAt(x, i), WordAt(y, i), 0x1_0000)
      ensures !Adjusted(Swap16(WordAt(x, i)), Swap16(WordAt(y, i)), 0x1_0000)
    {
      NotAdjusted(WordAt(x, i), 0x1_0000);
      NotAdjusted(Swap16(WordAt(x, i)), 0x1_0000);
    }
  }

  /** 1 exactly when an arithmetic stage reaches the new value. */
  method CouldBeArith(oldVal: u32, newVal: u32, blen: nat) returns (r: bool)
    requires blen == 1 || blen == 2 || blen == 4
    ensures r == Reachable(oldVal, newVal, blen)
  {
    hide Adjusted, ByByte, Swap32, Near;
    if oldVal == newVal { return true; }
    var b := TryBytes(oldVal, newVal, blen);
    if b { return true; }
    if blen == 1 { return false; }
    var w := TryWords(oldVal, newVal, blen);
    if w { return true; }
    if blen == 4 {
      SwapTwice(oldVal);
      SwapTwice(newVal);
      NearIsAdjusted(oldVal, newVal, M32);
      NearIsAdjusted(Swap32(oldVal), Swap32(newVal), M32);
      if Near(oldVal, newVal, M32) { return true; }
      if Near(Swap32(oldVal), Swap32(newVal), M32) { return true; }
    }
    r := false;
  }
}
