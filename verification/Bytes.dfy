/** Bytes, byte buffers and the small C library routines the other modules rely on. */
module Bytes {

  type byte = x: int | 0 <= x < 256 witness 0

  datatype Option<+T> = None | Some(value: T)

  const ZERO: byte := 48 // the character '0'

  /** Settings that several programs share. */
  const MAP_SIZE := 0x1_0000
  const MAX_DICT_FILE := 128
  const TRIM_START_STEPS := 16

  function Min(a: int, b: int): int {
    if a <= b then a else b
  }

  function Max(a: int, b: int): int {
    if a >= b then a else b
  }

  /** The value of `1 << e`. */
  function Pow2(e: nat): (p: nat)
    ensures p >= 1
  {
    if e == 0 then 1 else 2 * Pow2(e - 1)
  }

  /** Copies n bytes between two distinct buffers, as memcpy does. */
  method Memcpy(dst: array<byte>, d: nat, src: array<byte>, s: nat, n: nat)
    requires dst != src
    requires d + n <= dst.Length && s + n <= src.Length
    modifies dst
    ensures forall i | 0 <= i < dst.Length :: dst[i] == if d <= i < d + n then src[s + i - d] else old(dst[i])
  {
    forall i | 0 <= i < n {
      dst[d + i] := src[s + i];
    }
  }

  /** Moves n bytes inside one buffer, as memmove does; the places may overlap. */
  method Memmove(a: array<byte>, d: nat, s: nat, n: nat)
    requires d + n <= a.Length && s + n <= a.Length
    modifies a
    ensures forall i | 0 <= i < a.Length :: a[i] == if d <= i < d + n then old(a[s + i - d]) else old(a[i])
  {
    forall i | 0 <= i < n {
      a[d + i] := a[s + i];
    }
  }

  /** Sets n bytes to the same value, as memset does. */
  method Memset(dst: array<byte>, d: nat, value: byte, n: nat)
    requires d + n <= dst.Length
    modifies dst
    ensures forall i | 0 <= i < dst.Length :: dst[i] == if d <= i < d + n then value else old(dst[i])
  {
    forall i | 0 <= i < n {
      dst[d + i] := value;
    }
  }

  /** The least power of two that is at least `val`. */
  function LeastPow2(val: nat): (ret: nat)
    ensures ret >= val && ret >= 1
    ensures ret > 1 ==> ret % 2 == 0 && ret / 2 < val
  {
    if val <= 1 then 1 else 2 * LeastPow2((val + 1) / 2)
  }

  /** Finds the least power of two by doubling. */
  method NextP2(val: nat) returns (ret: nat)
    ensures ret == LeastPow2(val)
  {
    ret := 1;
    ghost var e: nat := 0;
    while val > ret
      invariant ret == Pow2(e) && ret > 0
      invariant e > 0 ==> Pow2(e - 1) < val
      decreases val - ret
    {
      ret := 2 * ret;
      e := e + 1;
    }
    LeastPow2Unique(val, e);
  }

  lemma {:induction false} LeastPow2Unique(val: nat, e: nat)
    requires Pow2(e) >= val && (e > 0 ==> Pow2(e - 1) < val)
    ensures LeastPow2(val) == Pow2(e)
  {
    if e > 0 {
      LeastPow2Unique((val + 1) / 2, e - 1);
    }
  }
}
