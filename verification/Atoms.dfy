/**
  Atom packets. An atom is one branch: E when it was taken, N when it was not.
  The decoder never unpacks an atom packet on its main path: three tables give
  the number of atoms, the atoms as a binary number and the last atom, and the
  number is folded into a running hash. Here the tables are shown to say what
  the format decoders emit, and the hash to depend on the atoms alone.
 */
module Atoms {
  import opened Bytes
  import opened Words

  type Atom = bool // true for E, false for N

  const N: Atom := false
  const E: Atom := true

  /** The last branch was taken: only then does an address end an edge. */
  predicate EndsTaken(s: seq<Atom>) { s != [] && s[|s| - 1] == E }

  /** The headers of the atom packets; the tables are zero below 0xC0. */
  predicate IsAtomHeader(c: byte) { c >= 0xC0 }

  /** How many atoms. */
  function AtomLength(c: byte): nat {
    match c
    case 0xC0 => 4 case 0xC1 => 5 case 0xC2 => 6 case 0xC3 => 7
    case 0xC4 => 8 case 0xC5 => 9 case 0xC6 => 10 case 0xC7 => 11
    case 0xC8 => 12 case 0xC9 => 13 case 0xCA => 14 case 0xCB => 15
    case 0xCC => 16 case 0xCD => 17 case 0xCE => 18 case 0xCF => 19
    case 0xD0 => 20 case 0xD1 => 21 case 0xD2 => 22 case 0xD3 => 23
    case 0xD4 => 24 case 0xD5 => 5 case 0xD6 => 5 case 0xD7 => 5
    case 0xD8 => 2 case 0xD9 => 2 case 0xDA => 2 case 0xDB => 2
    case 0xDC => 4 case 0xDD => 4 case 0xDE => 4 case 0xDF => 4
    case 0xE0 => 4 case 0xE1 => 5 case 0xE2 => 6 case 0xE3 => 7
    case 0xE4 => 8 case 0xE5 => 9 case 0xE6 => 10 case 0xE7 => 11
    case 0xE8 => 12 case 0xE9 => 13 case 0xEA => 14 case 0xEB => 15
    case 0xEC => 16 case 0xED => 17 case 0xEE => 18 case 0xEF => 19
    case 0xF0 => 20 case 0xF1 => 21 case 0xF2 => 22 case 0xF3 => 23
    case 0xF4 => 24 case 0xF5 => 5 case 0xF6 => 1 case 0xF7 => 1
    case 0xF8 => 3 case 0xF9 => 3 case 0xFA => 3 case 0xFB => 3
    case 0xFC => 3 case 0xFD => 3 case 0xFE => 3 case 0xFF => 3
    case _ => 0
  }

  /** The atoms as a binary number, the first atom in the highest digit. */
  function AtomMap(c: byte): nat {
    match c
    case 0xC0 => 15 case 0xC1 => 31 case 0xC2 => 63 case 0xC3 => 127
    case 0xC4 => 255 case 0xC5 => 511 case 0xC6 => 1023 case 0xC7 => 2047
    case 0xC8 => 4095 case 0xC9 => 8191 case 0xCA => 16383 case 0xCB => 32767
    case 0xCC => 65535 case 0xCD => 131071 case 0xCE => 262143 case 0xCF => 524287
    case 0xD0 => 1048575 case 0xD1 => 2097151 case 0xD2 => 4194303 case 0xD3 => 8388607
    case 0xD4 => 16777215 case 0xD5 => 0 case 0xD6 => 10 case 0xD7 => 21
    case 0xD8 => 0 case 0xD9 => 2 case 0xDA => 1 case 0xDB => 3
    case 0xDC => 7 case 0xDD => 0 case 0xDE => 5 case 0xDF => 10
    case 0xE0 => 14 case 0xE1 => 30 case 0xE2 => 62 case 0xE3 => 126
    case 0xE4 => 254 case 0xE5 => 510 case 0xE6 => 1022 case 0xE7 => 2046
    case 0xE8 => 4094 case 0xE9 => 8190 case 0xEA => 16382 case 0xEB => 32766
    case 0xEC => 65534 case 0xED => 131070 case 0xEE => 262142 case 0xEF => 524286
    case 0xF0 => 1048574 case 0xF1 => 2097150 case 0xF2 => 4194302 case 0xF3 => 8388606
    case 0xF4 => 16777214 case 0xF5 => 15 case 0xF6 => 0 case 0xF7 => 1
    case 0xF8 => 0 case 0xF9 => 4 case 0xFA => 2 case 0xFB => 6
    case 0xFC => 1 case 0xFD => 5 case 0xFE => 3 case 0xFF => 7
    case _ => 0
  }

  /** The last atom. */
  function AtomFlag(c: byte): nat {
    match c
    case 0xC0 => 1 case 0xC1 => 1 case 0xC2 => 1 case 0xC3 => 1
    case 0xC4 => 1 case 0xC5 => 1 case 0xC6 => 1 case 0xC7 => 1
    case 0xC8 => 1 case 0xC9 => 1 case 0xCA => 1 case 0xCB => 1
    case 0xCC => 1 case 0xCD => 1 case 0xCE => 1 case 0xCF => 1
    case 0xD0 => 1 case 0xD1 => 1 case 0xD2 => 1 case 0xD3 => 1
    case 0xD4 => 1 case 0xD5 => 0 case 0xD6 => 0 case 0xD7 => 1
    case 0xD8 => 0 case 0xD9 => 0 case 0xDA => 1 case 0xDB => 1
    case 0xDC => 1 case 0xDD => 0 case 0xDE => 1 case 0xDF => 0
    case 0xE0 => 0 case 0xE1 => 0 case 0xE2 => 0 case 0xE3 => 0
    case 0xE4 => 0 case 0xE5 => 0 case 0xE6 => 0 case 0xE7 => 0
    case 0xE8 => 0 case 0xE9 => 0 case 0xEA => 0 case 0xEB => 0
    case 0xEC => 0 case 0xED => 0 case 0xEE => 0 case 0xEF => 0
    case 0xF0 => 0 case 0xF1 => 0 case 0xF2 => 0 case 0xF3 => 0
    case 0xF4 => 0 case 0xF5 => 1 case 0xF6 => 0 case 0xF7 => 1
    case 0xF8 => 0 case 0xF9 => 0 case 0xFA => 0 case 0xFB => 0
    case 0xFC => 1 case 0xFD => 1 case 0xFE => 1 case 0xFF => 1
    case _ => 0
  }

  function AtomBit(a: Atom): nat { if a then 1 else 0 }

  /** A binary number of len digits as atoms, the first atom in the highest digit. */
  function Unpacked(serial: nat, len: nat): (s: seq<Atom>)
    ensures |s| == len
  {
    if len == 0 then [] else [Digit(serial, len - 1) == 1] + Unpacked(serial, len - 1)
  }

  /** The atoms of a packet. */
  function AtomsOf(c: byte): seq<Atom> {
    Unpacked(AtomMap(c), AtomLength(c))
  }

  /** The binary number that stands for a string of atoms. */
  function Packed(s: seq<Atom>): nat {
    if s == [] then 0 else 2 * Packed(s[..|s| - 1]) + AtomBit(s[|s| - 1])
  }

  lemma {:induction false} PackedBound(s: seq<Atom>)
    ensures Packed(s) < Pow2(|s|)
  {
    if s != [] { PackedBound(s[..|s| - 1]); }
  }

  lemma {:induction false} HighestDigit(x: nat, n: nat)
    requires x < Pow2(n + 1)
    ensures Digit(x, n) == if x >= Pow2(n) then 1 else 0
  {
    if n > 0 { HighestDigit(x / 2, n - 1); }
  }

  lemma {:induction false} PackedCons(s: seq<Atom>)
    requires s != []
    ensures Packed(s) == AtomBit(s[0]) * Pow2(|s| - 1) + Packed(s[1..])
  {
    if |s| > 1 {
      var t := s[..|s| - 1];
      PackedCons(t);
      assert s[1..][..|s| - 2] == t[1..];
    }
  }

  lemma {:induction false} DigitBelow(x: nat, b: nat, n: nat, k: nat)
    requires k < n && b <= 1
    ensures Digit(b * Pow2(n) + x, k) == Digit(x, k)
    decreases k
  {
    assert b * Pow2(n) == 2 * (b * Pow2(n - 1));
    if k > 0 { DigitBelow(x / 2, b, n - 1, k - 1); }
  }

  lemma {:induction false} UnpackedLow(x: nat, b: nat, n: nat, len: nat)
    requires len <= n && b <= 1
    ensures Unpacked(b * Pow2(n) + x, len) == Unpacked(x, len)
  {
    if len > 0 {
      DigitBelow(x, b, n, len - 1);
      UnpackedLow(x, b, n, len - 1);
    }
  }

  /** Packing loses nothing: a string of known length comes back from its number. */
  lemma {:induction false} UnpackPacked(s: seq<Atom>)
    ensures Unpacked(Packed(s), |s|) == s
  {
    if s != [] {
      var n := |s| - 1;
      PackedCons(s);
      PackedBound(s[1..]);
      HighestDigit(Packed(s), n);
      UnpackedLow(Packed(s[1..]), AtomBit(s[0]), n, n);
      UnpackPacked(s[1..]);
    }
  }

  // ---------- the format decoders ----------

  /** Atom formats 6: COUNT + 3 atoms E, then one more atom. */
  predicate IsFormat6(c: byte) { 0xC0 <= c <= 0xD4 || 0xE0 <= c <= 0xF4 }

  lemma RowsEndingE(c: byte)
    requires 0xC0 <= c <= 0xD4
    ensures AtomLength(c) == c % 32 + 4 && AtomMap(c) == Pow2(c % 32 + 4) - 1
  {
    SmallPowers();
  }

  lemma RowsEndingN(c: byte)
    requires 0xE0 <= c <= 0xF4
    ensures AtomLength(c) == c % 32 + 4 && AtomMap(c) == Pow2(c % 32 + 4) - 2
  {
    SmallPowers();
  }

  lemma SmallPowers()
    ensures Pow2(4) == 16 && Pow2(5) == 32 && Pow2(6) == 64 && Pow2(7) == 128 && Pow2(8) == 256 && Pow2(9) == 512
    ensures Pow2(10) == 1024 && Pow2(11) == 2048 && Pow2(12) == 4096 && Pow2(13) == 8192 && Pow2(14) == 16384
    ensures Pow2(15) == 32768 && Pow2(16) == 65536 && Pow2(17) == 131072 && Pow2(18) == 262144
    ensures Pow2(19) == 524288 && Pow2(20) == 1048576 && Pow2(21) == 2097152 && Pow2(22) == 4194304
    ensures Pow2(23) == 8388608 && Pow2(24) == 16777216
  {}

  lemma NoAtoms()
    ensures Packed([]) == 0 && Pow2(0) == 1
  {}

  lemma OneAtomMore(s: seq<Atom>, a: Atom)
    ensures Packed(s + [a]) == 2 * Packed(s) + AtomBit(a) && Pow2(|s| + 1) == 2 * Pow2(|s|)
  {
    assert (s + [a])[..|s|] == s;
  }

  /** So many branches taken in a row. */
  function Run(n: nat): seq<Atom> { seq(n, _ => E) }

  lemma {:induction false} PackedRun(n: nat)
    ensures Packed(Run(n)) == Pow2(n) - 1
  {
    if n == 0 {
      NoAtoms();
    } else {
      PackedRun(n - 1);
      OneAtomMore(Run(n - 1), E);
      assert Run(n) == Run(n - 1) + [E];
    }
  }

  /** COUNT + 3 atoms E, then one more: what a packet of format 6 stands for. */
  lemma Format6Atoms(c: byte)
    requires IsFormat6(c)
    ensures AtomsOf(c) == Run(c % 32 + 3) + [if c / 32 % 2 == 1 then N else E]
  {
    hide AtomLength, AtomMap, Packed, Pow2, AtomsOf;
    var n, last := c % 32 + 3, if c / 32 % 2 == 1 then N else E;
    PackedRun(n);
    OneAtomMore(Run(n), last);
    if last == N { RowsEndingN(c); } else { RowsEndingE(c); }
    RowUnpacks(c, Run(n) + [last]);
  }

  method DecodeFormat6(c: byte) returns (atoms: seq<Atom>)
    requires IsFormat6(c)
    ensures atoms == AtomsOf(c)
  {
    hide AtomsOf;
    var a, count := c / 32 % 2, c % 32;
    atoms := [];
    var i := 0;
    while i <= count + 2
      invariant 0 <= i <= count + 3 && atoms == Run(i)
    {
      atoms := atoms + [E];
      i := i + 1;
    }
    atoms := atoms + [if a == 1 then N else E];
    Format6Atoms(c);
  }

  lemma Packed3(a: Atom, b: Atom, c: Atom)
    ensures Packed([a]) == AtomBit(a) && Packed([a, b]) == 2 * AtomBit(a) + AtomBit(b)
    ensures Packed([a, b, c]) == 4 * AtomBit(a) + 2 * AtomBit(b) + AtomBit(c)
  {
    assert [a][..0] == [];
    assert [a, b][..1] == [a];
    assert [a, b, c][..2] == [a, b];
  }

  lemma Packed5(a: Atom, b: Atom, c: Atom, d: Atom, e: Atom)
    ensures Packed([a, b, c, d]) == 8 * AtomBit(a) + 4 * AtomBit(b) + 2 * AtomBit(c) + AtomBit(d)
    ensures Packed([a, b, c, d, e]) == 16 * AtomBit(a) + 8 * AtomBit(b) + 4 * AtomBit(c) + 2 * AtomBit(d) + AtomBit(e)
  {
    Packed3(a, b, c);
    assert [a, b, c, d][..3] == [a, b, c];
    assert [a, b, c, d, e][..4] == [a, b, c, d];
  }

  /** A packet whose row packs the atoms unpacks to them. */
  lemma RowUnpacks(c: byte, s: seq<Atom>)
    requires AtomLength(c) == |s| && AtomMap(c) == Packed(s)
    ensures AtomsOf(c) == s
  {
    UnpackPacked(s);
  }

  method DecodeFormat1(c: byte) returns (atoms: seq<Atom>)
    requires 0xF6 <= c <= 0xF7
    ensures atoms == AtomsOf(c)
  {
    hide AtomsOf, Packed;
    var a := c % 2;
    atoms := [if a == 1 then E else N];
    Packed3(atoms[0], N, N);
    RowUnpacks(c, atoms);
  }

  method DecodeFormat2(c: byte) returns (atoms: seq<Atom>)
    requires 0xD8 <= c <= 0xDB
    ensures atoms == AtomsOf(c)
  {
    hide AtomsOf, Packed;
    var a := c % 4;
    atoms := [if a % 2 == 1 then E else N, if a / 2 == 1 then E else N];
    Packed3(atoms[0], atoms[1], N);
    RowUnpacks(c, atoms);
  }

  method DecodeFormat3(c: byte) returns (atoms: seq<Atom>)
    requires 0xF8 <= c
    ensures atoms == AtomsOf(c)
  {
    hide AtomsOf, Packed;
    var a := c % 8;
    atoms := [if a % 2 == 1 then E else N, if a / 2 % 2 == 1 then E else N, if a / 4 == 1 then E else N];
    Packed3(atoms[0], atoms[1], atoms[2]);
    RowUnpacks(c, atoms);
  }

  method DecodeFormat4(c: byte) returns (atoms: seq<Atom>)
    requires 0xDC <= c <= 0xDF
    ensures atoms == AtomsOf(c)
  {
    hide AtomsOf, Packed;
    match c % 4 {
      case 0 => atoms := [N, E, E, E];
      case 1 => atoms := [N, N, N, N];
      case 2 => atoms := [N, E, N, E];
      case _ => atoms := [E, N, E, N];
    }
    Packed5(atoms[0], atoms[1], atoms[2], atoms[3], N);
    assert atoms == [atoms[0], atoms[1], atoms[2], atoms[3]];
    RowUnpacks(c, atoms);
  }

  method DecodeFormat5(c: byte) returns (atoms: seq<Atom>)
    requires c == 0xF5 || 0xD5 <= c <= 0xD7
    ensures atoms == AtomsOf(c)
  {
    hide AtomsOf, Packed;
    match c / 32 % 2 * 4 + c % 4 {
      case 5 => atoms := [N, E, E, E, E];
      case 1 => atoms := [N, N, N, N, N];
      case 2 => atoms := [N, E, N, E, N];
      case _ => atoms := [E, N, E, N, E];
    }
    Packed5(atoms[0], atoms[1], atoms[2], atoms[3], atoms[4]);
    assert atoms == [atoms[0], atoms[1], atoms[2], atoms[3], atoms[4]];
    RowUnpacks(c, atoms);
  }

  /** Every atom header goes to the decoder of its format, and the tables agree with what it emits. */
  method DecodeAtoms(c: byte) returns (atoms: seq<Atom>)
    requires IsAtomHeader(c)
    ensures atoms == AtomsOf(c)
  {
    hide AtomsOf;
    if IsFormat6(c) {
      atoms := DecodeFormat6(c);
    } else if c == 0xF5 || 0xD5 <= c <= 0xD7 {
      atoms := DecodeFormat5(c);
    } else if 0xDC <= c <= 0xDF {
      atoms := DecodeFormat4(c);
    } else if 0xF8 <= c {
      atoms := DecodeFormat3(c);
    } else if 0xD8 <= c <= 0xDB {
      atoms := DecodeFormat2(c);
    } else {
      atoms := DecodeFormat1(c);
    }
  }

  /** An atom packet holds an atom, and the flag table holds the last one. */
  lemma FlagIsLastAtom(c: byte)
    requires IsAtomHeader(c)
    ensures AtomsOf(c) != [] && AtomFlag(c) == AtomBit(AtomsOf(c)[|AtomsOf(c)| - 1])
  {
    LastUnpacked(AtomMap(c), AtomLength(c));
    FlagIsParity(c);
  }

  lemma FlagIsParity(c: byte)
    requires IsAtomHeader(c)
    ensures AtomLength(c) > 0 && AtomFlag(c) == AtomMap(c) % 2
  {}

  lemma {:induction false} LastUnpacked(serial: nat, len: nat)
    requires len > 0
    ensures Unpacked(serial, len)[len - 1] == (serial % 2 == 1)
  {
    if len > 1 { LastUnpacked(serial, len - 1); }
  }

  // ---------- the running hash ----------

  /** One step of the hash. */
  function Step(h: u64, a: Atom): u64 { (9 * h + AtomBit(a)) % M64 }

  /** The hash after more atoms. */
  function Fold(h: u64, s: seq<Atom>): u64
    decreases s
  {
    if s == [] then h else Fold(Step(h, s[0]), s[1..])
  }

  /** The hash of a string of atoms, from a reset. */
  function Hash(s: seq<Atom>): u64 { Fold(0, s) }

  /** Shifts and a subtraction modulo 2^64. */
  method Sdbm(hash: u64, serial: nat, len: nat) returns (hash': u64)
    ensures hash' == Fold(hash, Unpacked(serial, len))
  {
    hash' := hash;
    var left := len;
    while left > 0
      invariant 0 <= left <= len
      invariant Fold(hash, Unpacked(serial, len)) == Fold(hash', Unpacked(serial, left))
    {
      left := left - 1;
      DigitRange(serial, left);
      var bit := Digit(serial, left);
      NineFold(hash', bit);
      hash' := (bit + (hash' * 2) % M64 + (hash' * 8) % M64 - hash') % M64;
    }
  }

  lemma NineFold(h: u64, bit: nat)
    ensures (bit + (h * 2) % M64 + (h * 8) % M64 - h) % M64 == (9 * h + bit) % M64
  {
    var q, r := (h * 2) / M64, (h * 8) / M64;
    var x := bit + (h * 2) % M64 + (h * 8) % M64 - h;
    assert 9 * h + bit == x + (q + r) * M64;
    DivUnique(9 * h + bit, M64, x / M64 + q + r, x % M64);
  }

  /** What was hashed before matters only through the hash: packets may be cut anywhere. */
  lemma {:induction false} FoldConcat(h: u64, a: seq<Atom>, b: seq<Atom>)
    ensures Fold(h, a + b) == Fold(Fold(h, a), b)
    decreases a
  {
    if a == [] {
      assert a + b == b;
    } else {
      assert (a + b)[1..] == a[1..] + b;
      FoldConcat(Step(h, a[0]), a[1..], b);
    }
  }
}
