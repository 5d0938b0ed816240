/**
  How much of a string of atoms the hash keeps. Up to twenty atoms nothing wraps
  and the hash is the string read in base nine. A map cell keeps sixteen bits of
  it: they still tell strings apart up to twelve atoms, and up to thirteen when
  the last one is E, as it is in every edge.
 */
module AtomHash {
  import opened Bytes
  import opened Words
  import opened Atoms
  import opened AtomDigits

  const M63 := 0x8000_0000_0000_0000

  /** A string of atoms read in base nine. */
  function Base9(s: seq<Atom>): nat {
    if s == [] then 0 else 9 * Base9(s[..|s| - 1]) + AtomBit(s[|s| - 1])
  }

  function Pow9(n: nat): nat {
    if n == 0 then 1 else 9 * Pow9(n - 1)
  }

  lemma {:induction false} Base9Bound(s: seq<Atom>)
    ensures 8 * Base9(s) + 1 <= Pow9(|s|)
  {
    if s != [] { Base9Bound(s[..|s| - 1]); }
  }

  lemma {:induction false} Pow9Grows(m: nat, n: nat)
    requires m <= n
    ensures Pow9(m) <= Pow9(n)
  {
    if m < n { Pow9Grows(m, n - 1); }
  }

  lemma Pow9Twenty()
    ensures Pow9(7) == 4782969 && Pow9(20) == 12157665459056928801
  {
    assert Pow9(4) == 6561;
    assert Pow9(10) == 3486784401;
    assert Pow9(15) == 205891132094649;
  }

  lemma HashOneMore(s: seq<Atom>, a: Atom)
    ensures Hash([]) == 0 && Hash(s + [a]) == (9 * Hash(s) + AtomBit(a)) % M64
  {
    FoldConcat(0, s, [a]);
  }

  /** Twenty atoms neither wrap around 2^64 nor reach the bit that the mask clears. */
  lemma {:induction false} HashIsExact(s: seq<Atom>)
    requires |s| <= 20
    ensures Hash(s) == Base9(s) < M63
  {
    hide Hash;
    Base9Bound(s);
    Pow9Grows(|s|, 20);
    Pow9Twenty();
    if s != [] {
      var init, last := s[..|s| - 1], s[|s| - 1];
      HashIsExact(init);
      assert s == init + [last];
      HashOneMore(init, last);
    } else {
      HashOneMore([], N);
    }
  }

  // ---------- leading N atoms ----------

  /** The string from its first E on. */
  function FromFirstE(s: seq<Atom>): seq<Atom> {
    if s == [] || s[0] == E then s else FromFirstE(s[1..])
  }

  lemma {:induction false} LeadingN(s: seq<Atom>)
    requires s != [] && s[0] == N
    ensures Base9(s) == Base9(s[1..])
  {
    if |s| > 1 {
      LeadingN(s[..|s| - 1]);
      assert s[..|s| - 1][1..] == s[1..][..|s| - 2];
    }
  }

  lemma {:induction false} DropLeadingN(s: seq<Atom>)
    ensures Base9(FromFirstE(s)) == Base9(s)
    ensures FromFirstE(s) != [] ==> FromFirstE(s)[0] == E
  {
    if s != [] && s[0] == N {
      LeadingN(s);
      DropLeadingN(s[1..]);
    }
  }

  lemma {:induction false} StartsWithE(s: seq<Atom>)
    requires s != [] && s[0] == E
    ensures Base9(s) > 0
  {
    if |s| > 1 { StartsWithE(s[..|s| - 1]); }
  }

  lemma {:induction false} SameNumeral(a: seq<Atom>, b: seq<Atom>)
    requires Base9(a) == Base9(b)
    requires (a != [] ==> a[0] == E) && (b != [] ==> b[0] == E)
    ensures a == b
    decreases |a|
  {
    if a != [] { StartsWithE(a); }
    if b != [] { StartsWithE(b); }
    if a != [] && b != [] {
      var x, y := a[..|a| - 1], b[..|b| - 1];
      SameNumeral(x, y);
      assert a == x + [a[|a| - 1]] && b == y + [b[|b| - 1]];
    }
  }

  /** Up to twenty atoms, two strings share a hash exactly when they differ in leading N atoms only. */
  lemma SharedHash(a: seq<Atom>, b: seq<Atom>)
    requires |a| <= 20 && |b| <= 20
    ensures Hash(a) == Hash(b) <==> FromFirstE(a) == FromFirstE(b)
  {
    HashIsExact(a);
    HashIsExact(b);
    DropLeadingN(a);
    DropLeadingN(b);
    if Hash(a) == Hash(b) { SameNumeral(FromFirstE(a), FromFirstE(b)); }
  }

  lemma {:induction false} SuffixOfSameLength(a: seq<Atom>, b: seq<Atom>)
    requires |a| == |b| && FromFirstE(a) == FromFirstE(b)
    ensures a == b
  {
    FirstELength(a);
    FirstELength(b);
    if a != [] && a[0] == N && b[0] == N {
      SuffixOfSameLength(a[1..], b[1..]);
      assert a == [N] + a[1..] && b == [N] + b[1..];
    }
  }

  lemma {:induction false} FirstELength(s: seq<Atom>)
    ensures |FromFirstE(s)| <= |s|
    ensures |FromFirstE(s)| == |s| ==> s == [] || s[0] == E
  {
    if s != [] && s[0] == N { FirstELength(s[1..]); }
  }

  /** Different strings of one length, up to twenty atoms, hash differently. */
  lemma HashTellsApart(a: seq<Atom>, b: seq<Atom>)
    requires |a| == |b| <= 20 && a != b
    ensures Hash(a) != Hash(b) && Hash(a) % M63 != Hash(b) % M63
  {
    HashIsExact(a);
    HashIsExact(b);
    SharedHash(a, b);
    if Hash(a) == Hash(b) { SuffixOfSameLength(a, b); }
  }

  // ---------- sixteen bits ----------

  /** Enough N atoms in front to make twelve. */
  function Padded(s: seq<Atom>): (r: seq<Atom>)
    ensures |s| <= 12 ==> |r| == 12
    decreases 12 - |s|
  {
    if |s| >= 12 then s else Padded([N] + s)
  }

  lemma {:induction false} PaddedNumeral(s: seq<Atom>)
    ensures Base9(Padded(s)) == Base9(s)
    decreases 12 - |s|
  {
    if |s| < 12 {
      LeadingN([N] + s);
      PaddedNumeral([N] + s);
    }
  }

  /** The value of four digits. */
  function Quad(s: seq<Atom>, at: nat): nat
    requires at + 4 <= |s|
  {
    AtomBit(s[at + 3]) + 9 * AtomBit(s[at + 2]) + 81 * AtomBit(s[at + 1]) + 729 * AtomBit(s[at])
  }

  lemma TwelveDigitNumeral(s: seq<Atom>)
    requires |s| == 12
    ensures Base9(s) == Quad(s, 8) + 6561 * Quad(s, 4) + 43046721 * Quad(s, 0)
  {
    hide Base9, Quad;
    var x, y, z := s[..4], s[4..8], s[8..];
    assert s == x + y + z;
    AppendFour(x + y, z);
    AppendFour(x, y);
    QuadNumeral(s, 0);
    QuadNumeral(s, 4);
    QuadNumeral(s, 8);
    assert s[0..4] == x && s[8..12] == z;
  }

  lemma QuadNumeral(s: seq<Atom>, at: nat)
    requires at + 4 <= |s|
    ensures Base9(s[at..at + 4]) == Quad(s, at)
  {
    hide Base9;
    Numeral4(s[at], s[at + 1], s[at + 2], s[at + 3]);
    assert s[at..at + 4] == [s[at], s[at + 1], s[at + 2], s[at + 3]];
  }

  /** The difference at place i, counted from the last atom. */
  function Apart(a: seq<Atom>, b: seq<Atom>, i: nat): Trit
    requires |a| == |b| == 12 && i < 12
  {
    AtomBit(a[11 - i]) - AtomBit(b[11 - i])
  }

  lemma TwelveAtomsApart(a: seq<Atom>, b: seq<Atom>)
    requires |a| == |b| == 12 && Base9(a) % 0x1_0000 == Base9(b) % 0x1_0000
    ensures a == b
  {
    hide Base9, Congruent, Apart;
    var k := Base9(a) / 0x1_0000 - Base9(b) / 0x1_0000;
    Differences(a, b, k);
    TwelveDigits(Apart(a, b, 0), Apart(a, b, 1), Apart(a, b, 2), Apart(a, b, 3), Apart(a, b, 4), Apart(a, b, 5),
                 Apart(a, b, 6), Apart(a, b, 7), Apart(a, b, 8), Apart(a, b, 9), Apart(a, b, 10), Apart(a, b, 11), k);
    SameAtoms(a, b);
  }

  lemma SameAtoms(a: seq<Atom>, b: seq<Atom>)
    requires |a| == |b| == 12
    requires Apart(a, b, 0) == Apart(a, b, 1) == Apart(a, b, 2) == 0
    requires Apart(a, b, 3) == Apart(a, b, 4) == Apart(a, b, 5) == 0
    requires Apart(a, b, 6) == Apart(a, b, 7) == Apart(a, b, 8) == 0
    requires Apart(a, b, 9) == Apart(a, b, 10) == Apart(a, b, 11) == 0
    ensures a == b
  {
    hide Apart;
    SameAtom(a, b, 0);
    SameAtom(a, b, 1);
    SameAtom(a, b, 2);
    SameAtom(a, b, 3);
    SameAtom(a, b, 4);
    SameAtom(a, b, 5);
    SameAtom(a, b, 6);
    SameAtom(a, b, 7);
    SameAtom(a, b, 8);
    SameAtom(a, b, 9);
    SameAtom(a, b, 10);
    SameAtom(a, b, 11);
  }

  lemma Differences(a: seq<Atom>, b: seq<Atom>, k: int)
    requires |a| == |b| == 12 && Base9(a) - Base9(b) == 0x1_0000 * k
    ensures Congruent(Apart(a, b, 0), Apart(a, b, 1), Apart(a, b, 2), Apart(a, b, 3), Apart(a, b, 4), Apart(a, b, 5),
                      Apart(a, b, 6), Apart(a, b, 7), Apart(a, b, 8), Apart(a, b, 9), Apart(a, b, 10),
                      Apart(a, b, 11), k)
  {
    hide Base9, AtomBit;
    TwelveDigitNumeral(a);
    TwelveDigitNumeral(b);
  }

  lemma SameAtom(a: seq<Atom>, b: seq<Atom>, i: nat)
    requires |a| == |b| == 12 && i < 12 && Apart(a, b, i) == 0
    ensures a[11 - i] == b[11 - i]
  {}

  /** Up to twelve atoms the low sixteen bits lose nothing that the whole hash keeps. */
  lemma LowBitsShared(a: seq<Atom>, b: seq<Atom>)
    requires |a| <= 12 && |b| <= 12
    ensures Hash(a) % 0x1_0000 == Hash(b) % 0x1_0000 <==> FromFirstE(a) == FromFirstE(b)
  {
    hide Hash, Base9, FromFirstE;
    HashIsExact(a);
    HashIsExact(b);
    PaddedNumeral(a);
    PaddedNumeral(b);
    SharedHash(a, b);
    if Base9(a) % 0x1_0000 == Base9(b) % 0x1_0000 { TwelveAtomsApart(Padded(a), Padded(b)); }
  }

  /** The same for thirteen atoms, the last one being E. */
  lemma TakenLowBitsShared(a: seq<Atom>, b: seq<Atom>)
    requires |a| <= 13 && |b| <= 13 && EndsTaken(a) && EndsTaken(b)
    ensures Hash(a) % 0x1_0000 == Hash(b) % 0x1_0000 <==> FromFirstE(a) == FromFirstE(b)
  {
    hide Hash, FromFirstE;
    var x, y := a[..|a| - 1], b[..|b| - 1];
    assert a == x + [E] && b == y + [E];
    LowBitsShared(x, y);
    LowBitsOneMore(x, y, E);
    FromFirstEOfTaken(x);
    FromFirstEOfTaken(y);
    if FromFirstE(a) == FromFirstE(b) {
      assert FromFirstE(x) == FromFirstE(a)[..|FromFirstE(a)| - 1];
      assert FromFirstE(y) == FromFirstE(b)[..|FromFirstE(b)| - 1];
    }
  }

  lemma {:induction false} FromFirstEOfTaken(s: seq<Atom>)
    ensures FromFirstE(s + [E]) == FromFirstE(s) + [E]
  {
    if s != [] && s[0] == N {
      FromFirstEOfTaken(s[1..]);
      assert (s + [E])[1..] == s[1..] + [E];
    }
  }

  /** One atom more neither merges nor separates the low sixteen bits of two hashes, since nine is odd. */
  lemma LowBitsOneMore(x: seq<Atom>, y: seq<Atom>, a: Atom)
    ensures Hash(x + [a]) % 0x1_0000 == Hash(y + [a]) % 0x1_0000 <==> Hash(x) % 0x1_0000 == Hash(y) % 0x1_0000
  {
    hide Hash;
    HashOneMore(x, a);
    HashOneMore(y, a);
    LowBitsOf(9 * Hash(x) + AtomBit(a));
    LowBitsOf(9 * Hash(y) + AtomBit(a));
    NineIsOdd(Hash(x), Hash(y), AtomBit(a));
  }

  lemma NineIsOdd(h: nat, k: nat, bit: nat)
    ensures (9 * h + bit) % 0x1_0000 == (9 * k + bit) % 0x1_0000 <==> h % 0x1_0000 == k % 0x1_0000
  {
    var q, r := (9 * h + bit) / 0x1_0000 - (9 * k + bit) / 0x1_0000, h / 0x1_0000 - k / 0x1_0000;
    if (9 * h + bit) % 0x1_0000 == (9 * k + bit) % 0x1_0000 {
      assert 9 * (h - k) == 0x1_0000 * q;
      assert h - k == 0x1_0000 * (36409 * q - 5 * (h - k)); // 9 * 36409 == 5 * 2^16 + 1
      SameLowBits(h, k, 36409 * q - 5 * (h - k));
    } else if h % 0x1_0000 == k % 0x1_0000 {
      SameLowBits(9 * h + bit, 9 * k + bit, 9 * r);
    }
  }

  lemma SameLowBits(h: nat, k: nat, q: int)
    requires h == k + 0x1_0000 * q
    ensures h % 0x1_0000 == k % 0x1_0000
  {}

  lemma LowBitsOf(x: nat)
    ensures x % M64 % 0x1_0000 == x % M63 % 0x1_0000 == x % 0x1_0000
  {
    SameLowBits(x, x % M64, x / M64 * 0x1_0000_0000_0000);
    SameLowBits(x, x % M63, x / M63 * 0x8000_0000_0000);
  }

  lemma LastTwo(s: seq<Atom>)
    requires |s| >= 2
    ensures Base9(s) == 81 * Base9(s[..|s| - 2]) + 9 * AtomBit(s[|s| - 2]) + AtomBit(s[|s| - 1])
  {
    assert s[..|s| - 1][..|s| - 2] == s[..|s| - 2];
  }

  lemma Four(s: seq<Atom>, a: Atom, b: Atom, c: Atom, d: Atom)
    ensures Base9(s + [a, b, c, d])
         == 6561 * Base9(s) + 729 * AtomBit(a) + 81 * AtomBit(b) + 9 * AtomBit(c) + AtomBit(d)
  {
    LastTwo(s + [a, b, c, d]);
    LastTwo(s + [a, b]);
    assert (s + [a, b, c, d])[..|s| + 2] == s + [a, b];
    assert (s + [a, b])[..|s|] == s;
  }

  lemma Single(a: Atom)
    ensures Base9([a]) == AtomBit(a)
  {
    assert [a][..0] == [];
  }

  lemma Thirteen(a: Atom, s: seq<Atom>, t: seq<Atom>, u: seq<Atom>)
    requires |s| == |t| == |u| == 4
    ensures Base9([a] + s + t + u)
         == 6561 * (6561 * (6561 * AtomBit(a) + Base9(s)) + Base9(t)) + Base9(u)
  {
    Single(a);
    AppendFour([a], s);
    AppendFour([a] + s, t);
    AppendFour([a] + s + t, u);
  }

  lemma AppendFour(s: seq<Atom>, t: seq<Atom>)
    requires |t| == 4
    ensures Base9(s + t) == 6561 * Base9(s) + Base9(t)
  {
    hide Base9;
    Four(s, t[0], t[1], t[2], t[3]);
    Four([], t[0], t[1], t[2], t[3]);
    EmptyNumeral();
    assert t == [t[0], t[1], t[2], t[3]] == [] + [t[0], t[1], t[2], t[3]];
  }

  lemma EmptyNumeral()
    ensures Base9([]) == 0
  {}

  lemma Numeral4(a: Atom, b: Atom, c: Atom, d: Atom)
    ensures Base9([a, b, c, d]) == 729 * AtomBit(a) + 81 * AtomBit(b) + 9 * AtomBit(c) + AtomBit(d)
  {
    Four([], a, b, c, d);
    EmptyNumeral();
    assert [] + [a, b, c, d] == [a, b, c, d];
  }

  /** Two strings of thirteen atoms share their low sixteen bits; one of them ends in N. */
  lemma ThirteenAtomsCollide() returns (a: seq<Atom>, b: seq<Atom>)
    ensures |a| == |b| == 13 && a != b
    ensures Hash(a) % 0x1_0000 == Hash(b) % 0x1_0000
  {
    hide Base9, Hash;
    a := [N] + [E, E, E, N] + [E, E, N, N] + [N, N, N, E];
    b := [E] + [N, N, N, N] + [N, N, E, E] + [E, E, E, N];
    Thirteen(N, [E, E, E, N], [E, E, N, N], [N, N, N, E]);
    Thirteen(E, [N, N, N, N], [N, N, E, E], [E, E, E, N]);
    Numeral4(E, E, E, N);
    Numeral4(E, E, N, N);
    Numeral4(N, N, N, E);
    Numeral4(N, N, N, N);
    Numeral4(N, N, E, E);
    HashIsExact(a);
    HashIsExact(b);
    assert a[0] == N && b[0] == E;
  }

  /** Two strings of fourteen or more atoms that end in E and share their low sixteen bits. */
  lemma {:induction false} LongerAtomsCollide(n: nat) returns (a: seq<Atom>, b: seq<Atom>)
    requires n >= 14
    ensures |a| == |b| == n && a != b && EndsTaken(a) && EndsTaken(b)
    ensures Hash(a) % 0x1_0000 == Hash(b) % 0x1_0000
  {
    hide Hash;
    if n == 14 {
      var x, y := ThirteenAtomsCollide();
      a, b := x + [E], y + [E];
      assert a[..13] == x && b[..13] == y;
      LowBitsOneMore(x, y, E);
    } else {
      var x, y := LongerAtomsCollide(n - 1);
      a, b := [N] + x, [N] + y;
      assert a[1..] == x && b[1..] == y;
      FirstN(x);
      FirstN(y);
    }
  }

  lemma FirstN(s: seq<Atom>)
    ensures Hash([N] + s) == Hash(s)
  {
    assert ([N] + s)[1..] == s;
  }
}
