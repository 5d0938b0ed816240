/**
  What the stages of the test-case minimizer do to a byte string, and when the
  result is minimal. The verdict of a run is an arbitrary function of how many
  runs came before it and of the bytes that are run, so it may be inconsistent.
 */
module Reduction {
  import opened Bytes
  import opened Subsequences

  const TMIN_SET_STEPS := 128
  const TMIN_SET_MIN_SIZE := 4

  type Verdict = (nat, seq<byte>) -> bool

  // ---------- what the stages do to a byte string ----------

  /** s without the (possibly clipped) block of d bytes at p. */
  function Without(s: seq<byte>, p: nat, d: nat): seq<byte>
    requires p <= |s|
  {
    s[..p] + s[Min(p + d, |s|)..]
  }

  /** s with the n bytes at p replaced by '0'. */
  function Zeroed(s: seq<byte>, p: nat, n: nat): seq<byte>
    requires p + n <= |s|
  {
    s[..p] + seq(n, _ => ZERO) + s[p + n..]
  }

  /** s with every occurrence of sym replaced by '0'. */
  function WithoutSymbol(s: seq<byte>, sym: byte): seq<byte> {
    seq(|s|, i requires 0 <= i < |s| => if s[i] == sym then ZERO else s[i])
  }

  /** How many bytes differ from '0'. */
  function NonZero(s: seq<byte>): nat {
    if s == [] then 0 else (if s[0] == ZERO then 0 else 1) + NonZero(s[1..])
  }

  /** What every repeated pass must lower. */
  function Weight(s: seq<byte>): nat {
    |s| + NonZero(s)
  }

  lemma {:induction false} NonZeroAppend(a: seq<byte>, b: seq<byte>)
    ensures NonZero(a + b) == NonZero(a) + NonZero(b)
  {
    if a == [] {
      assert a + b == b;
    } else {
      assert (a + b)[1..] == a[1..] + b;
      NonZeroAppend(a[1..], b);
    }
  }

  lemma WithoutLighter(s: seq<byte>, p: nat, d: nat)
    requires p < |s| && d > 0
    ensures |Without(s, p, d)| < |s| && NonZero(Without(s, p, d)) <= NonZero(s)
  {
    var q := Min(p + d, |s|);
    assert s == s[..p] + s[p..q] + s[q..];
    NonZeroAppend(s[..p], s[q..]);
    NonZeroAppend(s[..p] + s[p..q], s[q..]);
    NonZeroAppend(s[..p], s[p..q]);
  }

  /** Overwriting bytes with '0' only, at least one of which was not '0', lowers the count. */
  lemma {:induction false} ZeroingLighter(s: seq<byte>, t: seq<byte>)
    requires |s| == |t| && forall i | 0 <= i < |s| :: t[i] == s[i] || t[i] == ZERO
    ensures NonZero(t) <= NonZero(s)
    ensures t != s ==> NonZero(t) < NonZero(s)
  {
    if s != [] {
      ZeroingLighter(s[1..], t[1..]);
      if t != s && t[0] == s[0] {
        assert s == [s[0]] + s[1..] && t == [t[0]] + t[1..];
      }
    }
  }

  lemma ZeroedPointwise(s: seq<byte>, p: nat, n: nat)
    requires p + n <= |s|
    ensures |Zeroed(s, p, n)| == |s|
    ensures forall i | 0 <= i < |s| :: Zeroed(s, p, n)[i] == if p <= i < p + n then ZERO else s[i]
  {}

  lemma ZeroedIsSame(s: seq<byte>, p: nat, n: nat)
    requires p + n <= |s|
    ensures Zeroed(s, p, n) == s <==> forall k | p <= k < p + n :: s[k] == ZERO
  {
    forall k | 0 <= k < |s|
      ensures Zeroed(s, p, n)[k] == if p <= k < p + n then ZERO else s[k]
    {}
  }

  /** Blocks of d bytes from p on, each replaced by '0' when that is accepted, unless there is nothing to replace. */
  ghost function Normalized(v: Verdict, n: nat, s: seq<byte>, p: nat, d: nat): seq<byte>
    requires d > 0
    decreases |s| - p
  {
    if p >= |s| then s
    else
      var use := Min(d, |s| - p);
      var t := Zeroed(s, p, use);
      if t == s then Normalized(v, n, s, p + d, d)
      else Normalized(v, n + 1, if v(n, t) then t else s, p + d, d)
  }

  lemma NormalizedStep(v: Verdict, n: nat, s: seq<byte>, p: nat, d: nat)
    requires d > 0
    ensures p >= |s| ==> Normalized(v, n, s, p, d) == s
    ensures p < |s| ==>
      var t := Zeroed(s, p, Min(d, |s| - p));
      Normalized(v, n, s, p, d)
        == if t == s then Normalized(v, n, s, p + d, d) else Normalized(v, n + 1, if v(n, t) then t else s, p + d, d)
  {}

  // ---------- minimality ----------

  ghost predicate Consistent(v: Verdict) {
    forall n, m, s: seq<byte> :: v(n, s) == v(m, s)
  }

  predicate Accepts(v: Verdict, s: seq<byte>) {
    v(0, s)
  }

  predicate Rejected(v: Verdict, s: seq<byte>) {
    !Accepts(v, s)
  }

  /** None of the blocks of d bytes at p, p + d, p + 2d, ... can be deleted. */
  ghost predicate BlocksRejected(v: Verdict, s: seq<byte>, p: nat, d: nat)
    requires d > 0
    decreases |s| - p
  {
    p < |s| ==> Rejected(v, Without(s, p, d)) && BlocksRejected(v, s, p + d, d)
  }

  /** Nor can any block of half, a quarter, ... of that size. */
  ghost predicate Irreducible(v: Verdict, s: seq<byte>, d: nat) {
    d > 0 ==> BlocksRejected(v, s, 0, d) && Irreducible(v, s, d / 2)
  }

  ghost predicate OneMinimal(v: Verdict, s: seq<byte>) {
    forall i | 0 <= i < |s| :: Rejected(v, s[..i] + s[i + 1..])
  }

  ghost predicate SymbolsRejected(v: Verdict, s: seq<byte>) {
    forall sym: byte | sym in s && sym != ZERO :: Rejected(v, WithoutSymbol(s, sym))
  }

  ghost predicate CharactersRejected(v: Verdict, s: seq<byte>) {
    forall i | 0 <= i < |s| && s[i] != ZERO :: Rejected(v, s[i := ZERO])
  }

  /** The last accepted of the buffers run so far, or the original when none was. */
  ghost function LastAccepted(v: Verdict, original: seq<byte>, runs: seq<seq<byte>>): seq<byte> {
    if runs == [] then original
    else
      var n := |runs| - 1;
      if v(n, runs[n]) then runs[n] else LastAccepted(v, original, runs[..n])
  }

  /** Being irreducible from any block size down means no single byte can go. */
  lemma {:induction false} IrreducibleIsOneMinimal(v: Verdict, s: seq<byte>, d: nat)
    requires d >= 1 && Irreducible(v, s, d)
    ensures OneMinimal(v, s)
  {
    if d == 1 {
      SingleBytes(v, s, 0);
    } else {
      IrreducibleIsOneMinimal(v, s, d / 2);
    }
  }

  lemma {:induction false} SingleBytes(v: Verdict, s: seq<byte>, p: nat)
    requires BlocksRejected(v, s, p, 1)
    ensures forall i | p <= i < |s| :: Rejected(v, s[..i] + s[i + 1..])
    decreases |s| - p
  {
    if p < |s| {
      assert Without(s, p, 1) == s[..p] + s[p + 1..];
      SingleBytes(v, s, p + 1);
    }
  }

  /** Why the skip is sound: deleting either of two equal neighbours gives the same bytes. */
  lemma EqualNeighbours(s: seq<byte>, p: nat, d: nat)
    requires d <= p && p + d <= |s|
    requires s[p - d..p] == s[p..p + d]
    ensures Without(s, p, d) == Without(s, p - d, d)
  {
    var a, b := Without(s, p, d), Without(s, p - d, d);
    forall i | 0 <= i < |a| ensures a[i] == b[i] {
      if p - d <= i < p {
        assert a[i] == s[p - d..p][i - (p - d)];
        assert b[i] == s[p..p + d][i - (p - d)];
      }
    }
  }

  /** Replacing one symbol leaves the occurrences of the others. */
  lemma SymbolGone(s: seq<byte>, sym: byte)
    requires sym != ZERO
    ensures forall b: byte | b != sym && b != ZERO :: b in WithoutSymbol(s, sym) <==> b in s
    ensures sym in s ==> WithoutSymbol(s, sym) != s
  {
    forall b: byte | b != sym && b != ZERO && b in s ensures b in WithoutSymbol(s, sym) {
      var i :| 0 <= i < |s| && s[i] == b;
      assert WithoutSymbol(s, sym)[i] == b;
    }
    if sym in s {
      var i :| 0 <= i < |s| && s[i] == sym;
      assert WithoutSymbol(s, sym)[i] == ZERO;
    }
  }

  lemma {:induction false} EmptyIrreducible(v: Verdict, s: seq<byte>, d: nat)
    requires s == []
    ensures Irreducible(v, s, d)
  {
    if d > 0 { EmptyIrreducible(v, s, d / 2); }
  }

  // ---------- the stages as functions of the bytes ----------

  /** Whether the block at p is the one before it over again, and not the last: then it is not tried. */
  predicate Repeats(s: seq<byte>, p: nat, d: nat)
    requires d <= p
  {
    p + d < |s| && s[p - d..p] == s[p..p + d]
  }

  /** A sweep of deletions of d bytes from p on; prev tells whether the block before was deleted, or p is 0. */
  ghost function Swept(v: Verdict, s: seq<byte>, p: nat, d: nat, prev: bool): (r: seq<byte>)
    requires d > 0 && (!prev ==> d <= p)
    ensures NonZero(r) <= NonZero(s) && (|r| < |s| || r == s)
    decreases if p < |s| then |s| - p else 0
  {
    if p >= |s| then s
    else if !prev && Repeats(s, p, d) then Swept(v, s, p + d, d, false)
    else
      WithoutLighter(s, p, d);
      if Accepts(v, Without(s, p, d)) then Swept(v, Without(s, p, d), p, d, true)
      else Swept(v, s, p + d, d, false)
  }

  /** One step of a sweep, with the verdict of any run. */
  lemma SweptStep(v: Verdict, n: nat, s: seq<byte>, p: nat, d: nat, prev: bool)
    requires Consistent(v) && d > 0 && (!prev ==> d <= p)
    ensures p >= |s| ==> Swept(v, s, p, d, prev) == s
    ensures p < |s| && !prev && Repeats(s, p, d) ==> Swept(v, s, p, d, prev) == Swept(v, s, p + d, d, false)
    ensures p < |s| && !(!prev && Repeats(s, p, d)) ==>
      Swept(v, s, p, d, prev) ==
        if v(n, Without(s, p, d)) then Swept(v, Without(s, p, d), p, d, true) else Swept(v, s, p + d, d, false)
  {
    if p < |s| { assert v(n, Without(s, p, d)) == v(0, Without(s, p, d)); }
  }

  /** Sweeps with blocks of d, d / 2, ... bytes. */
  ghost function DeletedFrom(v: Verdict, s: seq<byte>, d: nat): (r: seq<byte>)
    requires d > 0
    ensures NonZero(r) <= NonZero(s) && (|r| < |s| || r == s)
    decreases d
  {
    var t := Swept(v, s, 0, d, true);
    if d > 1 && |t| >= 1 then DeletedFrom(v, t, d / 2) else t
  }

  ghost function Deleted(v: Verdict, s: seq<byte>): (r: seq<byte>)
    ensures NonZero(r) <= NonZero(s) && (|r| < |s| || r == s)
  {
    DeletedFrom(v, s, LeastPow2(|s| / TRIM_START_STEPS))
  }

  /** Symbols from sym on, of those that occurred in `was`. */
  ghost function SymbolsGone(v: Verdict, s: seq<byte>, was: seq<byte>, sym: nat): (r: seq<byte>)
    requires sym <= 256
    ensures |r| == |s| && NonZero(r) <= NonZero(s) && (r != s ==> NonZero(r) < NonZero(s))
    decreases 256 - sym
  {
    if sym == 256 then s
    else if sym == ZERO || sym !in was then SymbolsGone(v, s, was, sym + 1)
    else
      var t := WithoutSymbol(s, sym);
      ZeroingLighter(s, t);
      SymbolsGone(v, if Accepts(v, t) then t else s, was, sym + 1)
  }

  lemma SymbolsStep(v: Verdict, n: nat, s: seq<byte>, was: seq<byte>, sym: nat)
    requires Consistent(v) && sym <= 256
    ensures sym == 256 ==> SymbolsGone(v, s, was, sym) == s
    ensures sym < 256 && (sym == ZERO || sym !in was) ==> SymbolsGone(v, s, was, sym) == SymbolsGone(v, s, was, sym + 1)
    ensures sym < 256 && sym != ZERO && sym in was ==>
      var t := WithoutSymbol(s, sym);
      SymbolsGone(v, s, was, sym) == SymbolsGone(v, if v(n, t) then t else s, was, sym + 1)
  {
    if sym < 256 { assert v(n, WithoutSymbol(s, sym)) == v(0, WithoutSymbol(s, sym)); }
  }

  /** Characters from i on. */
  ghost function CharactersGone(v: Verdict, s: seq<byte>, i: nat): (r: seq<byte>)
    requires i <= |s|
    ensures |r| == |s| && NonZero(r) <= NonZero(s) && (r != s ==> NonZero(r) < NonZero(s))
    decreases |s| - i
  {
    if i == |s| then s
    else if s[i] == ZERO then CharactersGone(v, s, i + 1)
    else
      ZeroingLighter(s, s[i := ZERO]);
      CharactersGone(v, if Accepts(v, s[i := ZERO]) then s[i := ZERO] else s, i + 1)
  }

  lemma CharactersStep(v: Verdict, n: nat, s: seq<byte>, i: nat)
    requires Consistent(v) && i <= |s|
    ensures i == |s| ==> CharactersGone(v, s, i) == s
    ensures i < |s| && s[i] == ZERO ==> CharactersGone(v, s, i) == CharactersGone(v, s, i + 1)
    ensures i < |s| && s[i] != ZERO ==>
      CharactersGone(v, s, i) == CharactersGone(v, if v(n, s[i := ZERO]) then s[i := ZERO] else s, i + 1)
  {
    if i < |s| { assert v(n, s[i := ZERO]) == v(0, s[i := ZERO]); }
  }

  /** Symbols, then characters. */
  ghost function Replaced(v: Verdict, s: seq<byte>): (r: seq<byte>)
    ensures |r| == |s| && NonZero(r) <= NonZero(s) && (r != s ==> NonZero(r) < NonZero(s))
  {
    CharactersGone(v, SymbolsGone(v, s, s, 0), 0)
  }

  /** Passes until one changes nothing; from the second on, one that deletes nothing is the last. */
  ghost function Passes(v: Verdict, s: seq<byte>, first: bool): seq<byte>
    decreases Weight(s)
  {
    var t := Deleted(v, s);
    if !first && t == s then s
    else
      var u := Replaced(v, t);
      if u == s then s else Passes(v, u, false)
  }

  /** With a consistent verdict it does not matter how many runs came before. */
  lemma {:induction false} NormalizedAnytime(v: Verdict, n: nat, m: nat, s: seq<byte>, p: nat, d: nat)
    requires Consistent(v) && d > 0
    ensures Normalized(v, n, s, p, d) == Normalized(v, m, s, p, d)
    decreases if p < |s| then |s| - p else 0
  {
    hide Normalized, Zeroed;
    NormalizedStep(v, n, s, p, d);
    NormalizedStep(v, m, s, p, d);
    if p < |s| {
      var t := Zeroed(s, p, Min(d, |s| - p));
      assert |t| == |s| by { ZeroedPointwise(s, p, Min(d, |s| - p)); }
      assert v(n, t) == v(m, t);
      NormalizedAnytime(v, n, m, s, p + d, d);
      NormalizedAnytime(v, n + 1, m + 1, if v(n, t) then t else s, p + d, d);
    }
  }

  /** What a consistent verdict makes of a string. */
  ghost function Minimized(v: Verdict, s: seq<byte>): seq<byte> {
    Passes(v, Normalized(v, 0, s, 0, Max(LeastPow2(|s| / TMIN_SET_STEPS), TMIN_SET_MIN_SIZE)), true)
  }

  lemma StartsFrom(v: Verdict, n: nat, s: seq<byte>)
    ensures Consistent(v) ==>
      var t := Normalized(v, n, s, 0, Max(LeastPow2(|s| / TMIN_SET_STEPS), TMIN_SET_MIN_SIZE));
      Minimized(v, s) == Passes(v, t, true)
  {
    if Consistent(v) {
      NormalizedAnytime(v, n, 0, s, 0, Max(LeastPow2(|s| / TMIN_SET_STEPS), TMIN_SET_MIN_SIZE));
    }
  }

  lemma PassStep(v: Verdict, s: seq<byte>, first: bool)
    ensures !first && Deleted(v, s) == s ==> Passes(v, s, first) == s
    ensures (first || Deleted(v, s) != s) ==>
      var u := Replaced(v, Deleted(v, s));
      && Passes(v, s, first) == (if u == s then s else Passes(v, u, false))
      && (u == s ==> Deleted(v, s) == s)
  {}

  lemma SymbolLighter(s: seq<byte>, sym: byte)
    requires sym in s && sym != ZERO
    ensures |WithoutSymbol(s, sym)| == |s| && NonZero(WithoutSymbol(s, sym)) < NonZero(s)
  {
    SymbolGone(s, sym);
    ZeroingLighter(s, WithoutSymbol(s, sym));
  }

  lemma CharacterLighter(s: seq<byte>, i: nat)
    requires i < |s| && s[i] != ZERO
    ensures NonZero(s[i := ZERO]) < NonZero(s)
  {
    ZeroingLighter(s, s[i := ZERO]);
  }

  // ---------- a stage that changes nothing ----------

  /** A sweep without effect has all its blocks rejected, those it never tried included. */
  lemma {:induction false} IdleSweep(v: Verdict, s: seq<byte>, p: nat, d: nat, prev: bool)
    requires Consistent(v) && d > 0 && (!prev ==> d <= p)
    requires Swept(v, s, p, d, prev) == s
    requires !prev && p < |s| ==> Rejected(v, Without(s, p - d, d))
    ensures BlocksRejected(v, s, p, d)
    decreases if p < |s| then |s| - p else 0
  {
    if p < |s| {
      if !prev && Repeats(s, p, d) {
        EqualNeighbours(s, p, d);
      } else {
        WithoutLighter(s, p, d);
      }
      IdleSweep(v, s, p + d, d, false);
    }
  }

  lemma {:induction false} IdleSymbols(v: Verdict, s: seq<byte>, sym: nat)
    requires sym <= 256 && SymbolsGone(v, s, s, sym) == s
    ensures forall b: byte | b in s && b != ZERO && b >= sym :: Rejected(v, WithoutSymbol(s, b))
    decreases 256 - sym
  {
    if sym < 256 {
      if sym != ZERO && sym in s {
        SymbolGone(s, sym);
        ZeroingLighter(s, WithoutSymbol(s, sym));
      }
      IdleSymbols(v, s, sym + 1);
    }
  }

  lemma {:induction false} IdleCharacters(v: Verdict, s: seq<byte>, i: nat)
    requires i <= |s| && CharactersGone(v, s, i) == s
    ensures forall k | i <= k < |s| && s[k] != ZERO :: Rejected(v, s[k := ZERO])
    decreases |s| - i
  {
    if i < |s| {
      if s[i] != ZERO { ZeroingLighter(s, s[i := ZERO]); }
      IdleCharacters(v, s, i + 1);
    }
  }

  lemma {:induction false} IdleDeletions(v: Verdict, s: seq<byte>, d: nat)
    requires Consistent(v) && d > 0 && DeletedFrom(v, s, d) == s
    ensures Irreducible(v, s, d)
  {
    if s == [] {
      EmptyIrreducible(v, s, d);
    } else {
      IdleSweep(v, s, 0, d, true);
      if d > 1 { IdleDeletions(v, s, d / 2); }
    }
  }

  /** When deletion has no effect, no block of any size it tries can go, and no single byte. */
  lemma IdleDeletion(v: Verdict, s: seq<byte>)
    requires Consistent(v) && Deleted(v, s) == s
    ensures Irreducible(v, s, LeastPow2(|s| / TRIM_START_STEPS)) && OneMinimal(v, s)
  {
    IdleDeletions(v, s, LeastPow2(|s| / TRIM_START_STEPS));
    IrreducibleIsOneMinimal(v, s, LeastPow2(|s| / TRIM_START_STEPS));
  }

  /** The two replacing stages have no effect if and only if no symbol and no character can be replaced. */
  lemma IdleReplacing(v: Verdict, s: seq<byte>)
    ensures Replaced(v, s) == s <==> SymbolsRejected(v, s) && CharactersRejected(v, s)
  {
    if Replaced(v, s) == s {
      IdleSymbols(v, s, 0);
      IdleCharacters(v, s, 0);
    }
    if SymbolsRejected(v, s) && CharactersRejected(v, s) {
      AllSymbolsRejected(v, s, 0);
      AllCharactersRejected(v, s, 0);
    }
  }

  lemma {:induction false} AllSymbolsRejected(v: Verdict, s: seq<byte>, sym: nat)
    requires SymbolsRejected(v, s) && sym <= 256
    ensures SymbolsGone(v, s, s, sym) == s
    decreases 256 - sym
  {
    if sym < 256 { AllSymbolsRejected(v, s, sym + 1); }
  }

  lemma {:induction false} AllCharactersRejected(v: Verdict, s: seq<byte>, i: nat)
    requires CharactersRejected(v, s) && i <= |s|
    ensures CharactersGone(v, s, i) == s
    decreases |s| - i
  {
    if i < |s| { AllCharactersRejected(v, s, i + 1); }
  }

  // ---------- when symbols and characters are minimal ----------

  /** s is t with some bytes replaced by '0'. */
  ghost predicate Fewer(s: seq<byte>, t: seq<byte>) {
    |s| == |t| && forall i | 0 <= i < |s| :: s[i] == t[i] || s[i] == ZERO
  }

  /** What is rejected stays rejected when more bytes are replaced by '0'. */
  ghost predicate Monotone(v: Verdict) {
    Consistent(v) && forall s, t | Fewer(s, t) && Rejected(v, t) :: Rejected(v, s)
  }

  lemma {:induction false} CharactersAreMinimal(v: Verdict, s: seq<byte>, i: nat)
    requires Monotone(v) && i <= |s|
    requires forall k | 0 <= k < i && s[k] != ZERO :: Rejected(v, s[k := ZERO])
    ensures Fewer(CharactersGone(v, s, i), s) && CharactersRejected(v, CharactersGone(v, s, i))
    decreases |s| - i
  {
    if i < |s| {
      var t := if s[i] != ZERO && Accepts(v, s[i := ZERO]) then s[i := ZERO] else s;
      forall k | 0 <= k < i + 1 && t[k] != ZERO
        ensures Rejected(v, t[k := ZERO])
      {
        if k < i {
          assert Fewer(t[k := ZERO], s[k := ZERO]) && Rejected(v, s[k := ZERO]);
        }
      }
      CharactersAreMinimal(v, t, i + 1);
    }
  }

  lemma {:induction false} SymbolsAreMinimal(v: Verdict, s: seq<byte>, was: seq<byte>, sym: nat)
    requires Monotone(v) && sym <= 256
    requires forall b: byte | b in s && b != ZERO :: b in was
    requires forall b: byte | b in s && b != ZERO && b < sym :: Rejected(v, WithoutSymbol(s, b))
    ensures SymbolsRejected(v, SymbolsGone(v, s, was, sym))
    decreases 256 - sym
  {
    if sym < 256 {
      var gone := WithoutSymbol(s, sym);
      var t := if sym != ZERO && sym in was && Accepts(v, gone) then gone else s;
      if sym != ZERO { SymbolGone(s, sym); }
      forall b: byte | b in t && b != ZERO && b < sym + 1
        ensures Rejected(v, WithoutSymbol(t, b))
      {
        assert b in s;
        if b < sym {
          assert Fewer(WithoutSymbol(t, b), WithoutSymbol(s, b)) && Rejected(v, WithoutSymbol(s, b));
        } else {
          NotGone(s, sym);
        }
      }
      SymbolsAreMinimal(v, t, was, sym + 1);
    }
  }

  lemma NotGone(s: seq<byte>, sym: byte)
    requires sym != ZERO
    ensures sym !in WithoutSymbol(s, sym)
  {}

  /** Symbols that cannot be replaced stay so when characters are replaced. */
  lemma SymbolsStay(v: Verdict, s: seq<byte>, t: seq<byte>)
    requires Monotone(v) && Fewer(s, t) && SymbolsRejected(v, t)
    ensures SymbolsRejected(v, s)
  {
    forall sym: byte | sym in s && sym != ZERO
      ensures Rejected(v, WithoutSymbol(s, sym))
    {
      assert sym in t;
      assert Fewer(WithoutSymbol(s, sym), WithoutSymbol(t, sym)) && Rejected(v, WithoutSymbol(t, sym));
    }
  }

  lemma ReplacedIsMinimal(v: Verdict, s: seq<byte>)
    requires Monotone(v)
    ensures SymbolsRejected(v, Replaced(v, s)) && CharactersRejected(v, Replaced(v, s))
  {
    var t := SymbolsGone(v, s, s, 0);
    SymbolsAreMinimal(v, s, s, 0);
    CharactersAreMinimal(v, t, 0);
    SymbolsStay(v, CharactersGone(v, t, 0), t);
  }

  lemma {:induction false} PassesAreMinimal(v: Verdict, s: seq<byte>, first: bool)
    requires Monotone(v) && (!first ==> SymbolsRejected(v, s) && CharactersRejected(v, s))
    ensures SymbolsRejected(v, Passes(v, s, first)) && CharactersRejected(v, Passes(v, s, first))
    decreases Weight(s)
  {
    var t := Deleted(v, s);
    if first || t != s {
      var u := Replaced(v, t);
      ReplacedIsMinimal(v, t);
      if u != s { PassesAreMinimal(v, u, false); }
    }
  }

  /** Under a monotone verdict no symbol and no character of the result can be replaced, however many passes it took. */
  lemma MonotoneIsMinimal(v: Verdict, s: seq<byte>)
    requires Monotone(v)
    ensures SymbolsRejected(v, Minimized(v, s)) && CharactersRejected(v, Minimized(v, s))
  {
    PassesAreMinimal(v, Normalized(v, 0, s, 0, Max(LeastPow2(|s| / TMIN_SET_STEPS), TMIN_SET_MIN_SIZE)), true);
  }

  // ---------- when one round of blocks is enough ----------

  /** None of the blocks of d bytes from p on can be overwritten with '0', unless it is '0' already. */
  ghost predicate BlocksNormal(v: Verdict, s: seq<byte>, p: nat, d: nat)
    requires d > 0
    decreases if p < |s| then |s| - p else 0
  {
    p < |s| ==>
      var t := Zeroed(s, p, Min(d, |s| - p));
      (t == s || Rejected(v, t)) && BlocksNormal(v, s, p + d, d)
  }

  /** Under a monotone verdict block normalization leaves no block to overwrite. */
  lemma {:induction false} NormalizedIsNormal(v: Verdict, n: nat, s: seq<byte>, p: nat, d: nat)
    requires Monotone(v) && d > 0
    ensures var r := Normalized(v, n, s, p, d); Fewer(r, s) && BlocksNormal(v, r, p, d)
    ensures forall k | 0 <= k < |s| && k < p :: Normalized(v, n, s, p, d)[k] == s[k]
    decreases if p < |s| then |s| - p else 0
  {
    hide Normalized, Zeroed;
    NormalizedStep(v, n, s, p, d);
    if p < |s| {
      var use := Min(d, |s| - p);
      var t := Zeroed(s, p, use);
      ZeroedPointwise(s, p, use);
      var u, m := if t != s && v(n, t) then t else s, if t == s then n else n + 1;
      assert v(n, t) == v(0, t);
      NormalizedIsNormal(v, m, u, p + d, d);
      BlockSettled(v, Normalized(v, m, u, p + d, d), u, s, p, use);
    }
  }

  /** The block at p stays as it is, and what was rejected is so all the more. */
  lemma BlockSettled(v: Verdict, r: seq<byte>, u: seq<byte>, s: seq<byte>, p: nat, use: nat)
    requires Monotone(v) && |s| == |u| == |r| && p + use <= |s| && Fewer(r, u)
    requires u == Zeroed(s, p, use) || (u == s && Rejected(v, Zeroed(s, p, use)))
    requires forall k | 0 <= k < p + use :: r[k] == u[k]
    ensures Zeroed(r, p, use) == r || Rejected(v, Zeroed(r, p, use))
  {
    hide Zeroed, Rejected;
    ZeroedPointwise(s, p, use);
    ZeroedPointwise(r, p, use);
    if u == Zeroed(s, p, use) {
      ZeroedIsSame(r, p, use);
    } else {
      assert Fewer(Zeroed(r, p, use), Zeroed(s, p, use));
    }
  }

  /** What is rejected stays rejected when more bytes are deleted. */
  ghost predicate DeletionMonotone(v: Verdict) {
    forall s, t | Subsequence(s, t) && Rejected(v, t) :: Rejected(v, s)
  }

  /** r is s with bytes deleted from p on. */
  ghost predicate CutBehind(r: seq<byte>, s: seq<byte>, p: nat) {
    if p <= |s| then p <= |r| && r[..p] == s[..p] && Subsequence(r[p..], s[p..]) else r == s
  }

  lemma RejectedBehind(v: Verdict, r: seq<byte>, s: seq<byte>, p: nat, d: nat)
    requires DeletionMonotone(v) && p < |s| && d > 0 && Rejected(v, Without(s, p, d)) && CutBehind(r, s, p + d)
    ensures CutBehind(r, s, p) && Rejected(v, Without(r, p, d))
  {
    hide Rejected, Subsequence;
    var q := p + d;
    if q <= |s| {
      KeepAll(s[..p], r[q..], s[q..]);
      KeepAll(s[p..q], r[q..], s[q..]);
      assert r[..p] == r[..q][..p] && s[..p] == s[..q][..p];
      assert Without(r, p, d) == s[..p] + r[q..] && Without(s, p, d) == s[..p] + s[q..];
      assert r[p..q] == r[..q][p..] && s[p..q] == s[..q][p..];
      assert r[p..] == s[p..q] + r[q..] && s[p..] == s[p..q] + s[q..];
    } else {
      SubsequenceSelf(s[p..]);
    }
  }

  lemma CutFurther(r: seq<byte>, s: seq<byte>, p: nat, d: nat)
    requires p < |s| && d > 0 && CutBehind(r, Without(s, p, d), p)
    ensures CutBehind(r, s, p)
  {
    hide Subsequence;
    var w, q := Without(s, p, d), Min(p + d, |s|);
    assert w[..p] == s[..p] && w[p..] == s[q..] && s[p..] == s[p..q] + s[q..];
    SubsequenceSelf(s[q..]);
    DropAll(s[p..q], s[q..], s[q..]);
    SubsequenceTrans(r[p..], w[p..], s[p..]);
  }

  /**
    Then one sweep leaves no block of its size that could go: after a deletion it
    tries again at the same place, and the blocks it skips could not go either.
   */
  lemma {:induction false} SweepIsMinimal(v: Verdict, s: seq<byte>, p: nat, d: nat, prev: bool)
    requires DeletionMonotone(v) && d > 0 && (!prev ==> d <= p)
    requires !prev && p < |s| ==> Rejected(v, Without(s, p - d, d))
    ensures BlocksRejected(v, Swept(v, s, p, d, prev), p, d) && CutBehind(Swept(v, s, p, d, prev), s, p)
    decreases |s|, if p < |s| then |s| - p else 0
  {
    hide CutBehind, Rejected, DeletionMonotone, Without;
    if p >= |s| {
      NothingCut(s, p);
    } else {
      if !prev && Repeats(s, p, d) {
        EqualNeighbours(s, p, d);
        SweepIsMinimal(v, s, p + d, d, false);
        RejectedBehind(v, Swept(v, s, p + d, d, false), s, p, d);
      } else if Accepts(v, Without(s, p, d)) {
        WithoutLighter(s, p, d);
        SweepIsMinimal(v, Without(s, p, d), p, d, true);
        CutFurther(Swept(v, Without(s, p, d), p, d, true), s, p, d);
      } else {
        NotAccepted(v, Without(s, p, d));
        SweepIsMinimal(v, s, p + d, d, false);
        RejectedBehind(v, Swept(v, s, p + d, d, false), s, p, d);
      }
    }
  }

  lemma NothingCut(s: seq<byte>, p: nat)
    requires p >= |s|
    ensures CutBehind(s, s, p)
  {
    SubsequenceSelf([]);
  }

  lemma NotAccepted(v: Verdict, s: seq<byte>)
    ensures Rejected(v, s) <==> !Accepts(v, s)
  {}

  // ---------- a consistent verdict that is not monotone ----------

  const ABCB: seq<byte> := [97, 98, 99, 98]
  const A0CB: seq<byte> := [97, ZERO, 99, 98]
  const O0CB: seq<byte> := [ZERO, ZERO, 99, 98]

  /** Accepts "abcb", "a0cb" and "00cb", and no other string. */
  const THREE_STRINGS: Verdict := (n, s) => s == ABCB || s == A0CB || s == O0CB

  lemma {:induction false} NothingSwept(v: Verdict, s: seq<byte>, p: nat, d: nat, prev: bool)
    requires d > 0 && (!prev ==> d <= p)
    requires forall t: seq<byte> | |t| < |s| :: Rejected(v, t)
    ensures Swept(v, s, p, d, prev) == s
    decreases if p < |s| then |s| - p else 0
  {
    if p < |s| {
      WithoutLighter(s, p, d);
      NothingSwept(v, s, p + d, d, false);
    }
  }

  lemma {:induction false} NothingDeleted(v: Verdict, s: seq<byte>, d: nat)
    requires d > 0 && forall t: seq<byte> | |t| < |s| :: Rejected(v, t)
    ensures DeletedFrom(v, s, d) == s
  {
    NothingSwept(v, s, 0, d, true);
    if d > 1 && |s| >= 1 { NothingDeleted(v, s, d / 2); }
  }

  /** Four bytes of which one of these holds are none of the three strings. */
  lemma Other(s: seq<byte>)
    requires |s| == 4 && ((s[0] == ZERO && s[1] == 98) || s[2] == ZERO || s[3] == ZERO)
    ensures Rejected(THREE_STRINGS, s)
  {}

  lemma SymbolsKept()
    ensures SymbolsGone(THREE_STRINGS, ABCB, ABCB, 0) == ABCB
  {
    hide SymbolsGone;
    forall sym: byte | sym in ABCB && sym != ZERO
      ensures Rejected(THREE_STRINGS, WithoutSymbol(ABCB, sym))
    {
      Other(WithoutSymbol(ABCB, sym));
    }
    AllSymbolsRejected(THREE_STRINGS, ABCB, 0);
  }

  /** The first pass turns "abcb" into "a0cb". */
  lemma FirstPass()
    ensures Replaced(THREE_STRINGS, ABCB) == A0CB
  {
    hide CharactersGone, SymbolsGone, Rejected;
    SymbolsKept();
    Other(ABCB[0 := ZERO]);
    CharacterKept(THREE_STRINGS, ABCB, 0);
    FromSecond();
    Other(A0CB[2 := ZERO]);
    CharacterKept(THREE_STRINGS, A0CB, 2);
    Other(A0CB[3 := ZERO]);
    CharacterKept(THREE_STRINGS, A0CB, 3);
    AllCharactersDone(THREE_STRINGS, A0CB);
  }

  lemma CharacterKept(v: Verdict, s: seq<byte>, i: nat)
    requires i < |s| && Rejected(v, s[i := ZERO])
    ensures CharactersGone(v, s, i) == CharactersGone(v, s, i + 1)
  {}

  lemma AllCharactersDone(v: Verdict, s: seq<byte>)
    ensures CharactersGone(v, s, |s|) == s
  {}

  lemma FromSecond()
    ensures CharactersGone(THREE_STRINGS, ABCB, 1) == CharactersGone(THREE_STRINGS, A0CB, 2)
  {
    assert ABCB[1 := ZERO] == A0CB;
  }

  lemma BlockKept()
    ensures Normalized(THREE_STRINGS, 0, ABCB, 0, 4) == ABCB
  {
    hide Normalized;
    var v := THREE_STRINGS;
    Other(Zeroed(ABCB, 0, 4));
    NormalizedStep(v, 0, ABCB, 0, 4);
    NormalizedStep(v, 1, ABCB, 4, 4);
  }

  /**
    Without monotonicity the second pass may stop too early: it deletes nothing, so symbols and
    characters are not tried again, although "00cb" would now be accepted.
   */
  lemma SecondPassStopsEarly()
    ensures Consistent(THREE_STRINGS) && !Monotone(THREE_STRINGS) && Accepts(THREE_STRINGS, ABCB)
    ensures Minimized(THREE_STRINGS, ABCB) == A0CB
    ensures !SymbolsRejected(THREE_STRINGS, A0CB) && !CharactersRejected(THREE_STRINGS, A0CB)
  {
    hide Passes, Replaced, DeletedFrom, Normalized;
    var v := THREE_STRINGS;
    BlockKept();
    NothingDeleted(v, ABCB, LeastPow2(0));
    NothingDeleted(v, A0CB, LeastPow2(0));
    FirstPass();
    PassStep(v, ABCB, true);
    PassStep(v, A0CB, false);
    assert WithoutSymbol(A0CB, 97) == O0CB == A0CB[0 := ZERO];
    if Monotone(v) { MonotoneIsMinimal(v, ABCB); }
  }

  // ---------- why blocks come first ----------

  const ABCD: seq<byte> := [97, 98, 99, 100]
  const ZEROES: seq<byte> := [ZERO, ZERO, ZERO, ZERO]

  /** Accepts "abcd" and "0000". */
  const ALL_OR_NOTHING: Verdict := (n, s) => s == ABCD || s == ZEROES

  lemma BlockGone()
    ensures Normalized(ALL_OR_NOTHING, 0, ABCD, 0, 4) == ZEROES
  {
    hide Normalized;
    var v := ALL_OR_NOTHING;
    assert Zeroed(ABCD, 0, 4) == ZEROES;
    NormalizedStep(v, 0, ABCD, 0, 4);
    NormalizedStep(v, 1, ZEROES, 4, 4);
  }

  /** Overwriting a whole block can work where no symbol, no character and no deletion does. */
  lemma BlocksComeFirst()
    ensures var v := ALL_OR_NOTHING;
            && Minimized(v, ABCD) == ZEROES
            && SymbolsRejected(v, ABCD) && CharactersRejected(v, ABCD) && Deleted(v, ABCD) == ABCD
  {
    hide Passes, Replaced, DeletedFrom, Normalized;
    var v := ALL_OR_NOTHING;
    BlockGone();
    NothingDeleted(v, ABCD, LeastPow2(0));
    NothingDeleted(v, ZEROES, LeastPow2(0));
    IdleReplacing(v, ZEROES);
    PassStep(v, ZEROES, true);
    forall sym: byte | sym in ABCD && sym != ZERO
      ensures Rejected(v, WithoutSymbol(ABCD, sym))
    {
      var t := WithoutSymbol(ABCD, sym);
      assert ABCD[0] != sym || ABCD[1] != sym;
      assert t[0] == ABCD[0] != ZERO || t[1] == ABCD[1] != ZERO;
    }
    forall i | 0 <= i < |ABCD| && ABCD[i] != ZERO
      ensures Rejected(v, ABCD[i := ZERO])
    {
      var t, j := ABCD[i := ZERO], if i == 0 then 1 else 0;
      assert t[i] == ZERO && t[j] == ABCD[j] != ZERO;
    }
  }
}
