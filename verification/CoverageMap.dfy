/**
  The virgin map: which bits of the coverage map no run has hit yet. The scan
  works on 32-bit or 64-bit words; what it computes is said byte by byte.
 */
module CoverageMap {
  import opened Bytes
  import opened Words

  // ---------- the meaning, byte by byte ----------

  /** A hit byte that nothing ever touched before. */
  ghost predicate HitsPristine(virgin: seq<byte>, trace: seq<byte>)
    requires |virgin| == |trace|
  {
    exists k :: 0 <= k < |trace| && trace[k] != 0 && virgin[k] == 255
  }

  ghost predicate HitsVirgin(virgin: seq<byte>, trace: seq<byte>)
    requires |virgin| == |trace|
  {
    exists k :: 0 <= k < |trace| && And(trace[k], virgin[k]) != 0
  }

  /** 2 for a new byte, 1 for only new bits, else 0. */
  ghost function Verdict(virgin: seq<byte>, trace: seq<byte>): (r: nat)
    requires |virgin| == |trace|
    ensures r <= 2
  {
    if HitsPristine(virgin, trace) then 2 else if HitsVirgin(virgin, trace) then 1 else 0
  }

  /** v & ~t for one byte. */
  function Clear(v: byte, t: byte): byte {
    AndNotBound(v, t);
    AndNot(v, t)
  }

  /** The virgin map after a run. */
  function Cleared(virgin: seq<byte>, trace: seq<byte>): seq<byte>
    requires |virgin| == |trace|
  {
    seq(|virgin|, k requires 0 <= k < |virgin| => Clear(virgin[k], trace[k]))
  }

  // ---------- words ----------

  /** Little-endian. */
  function ToWord(s: seq<byte>): nat {
    if s == [] then 0 else s[0] + 256 * ToWord(s[1..])
  }

  function FromWord(w: nat, n: nat): (s: seq<byte>)
    ensures |s| == n
  {
    if n == 0 then [] else [w % 256] + FromWord(w / 256, n - 1)
  }

  lemma AndDigits(a: nat, b: nat)
    ensures And(a, b) % 2 == Both(a, b) && And(a, b) / 2 == And(a / 2, b / 2)
  {
    if a != 0 && b != 0 { SplitDigit(Both(a, b), And(a / 2, b / 2)); }
  }

  lemma AndNotDigits(a: nat, b: nat)
    ensures AndNot(a, b) % 2 == Only(a, b) && AndNot(a, b) / 2 == AndNot(a / 2, b / 2)
  {
    if a != 0 { SplitDigit(Only(a, b), AndNot(a / 2, b / 2)); }
  }

  lemma NothingInZero()
    ensures And(0, 0) == 0 && AndNot(0, 0) == 0
  {}

  /** The low k bits and the rest are and-ed independently. */
  lemma {:induction false} AndSplits(x: nat, xs: nat, y: nat, ys: nat, k: nat)
    requires x < Pow2(k) && y < Pow2(k)
    ensures And(x + Pow2(k) * xs, y + Pow2(k) * ys) == And(x, y) + Pow2(k) * And(xs, ys)
    decreases k
  {
    hide And, AndNot;
    if k > 0 {
      var p := Pow2(k - 1);
      AndSplits(x / 2, xs, y / 2, ys, k - 1);
      AndSplitsStep(x, p * xs, y, p * ys, p * And(xs, ys));
      Doubled(p, xs);
      Doubled(p, ys);
      Doubled(p, And(xs, ys));
    } else {
      NothingInZero();
    }
  }

  lemma AndSplitsStep(x: nat, xs: nat, y: nat, ys: nat, rest: nat)
    requires And(x / 2 + xs, y / 2 + ys) == And(x / 2, y / 2) + rest
    ensures And(x + 2 * xs, y + 2 * ys) == And(x, y) + 2 * rest
  {
    hide And, AndNot;
    HalfOfSum(x, xs);
    HalfOfSum(y, ys);
    HalfOfSum(And(x, y), rest);
    AndDigits(x, y);
    AndFromHalves(x + 2 * xs, y + 2 * ys, x, y, And(x, y) + 2 * rest);
  }

  lemma AndFromHalves(a: nat, b: nat, x: nat, y: nat, c: nat)
    requires a % 2 == x % 2 && b % 2 == y % 2 && c % 2 == Both(x, y) && And(a / 2, b / 2) == c / 2
    ensures And(a, b) == c
  {
    hide And, AndNot;
    AndDigits(a, b);
    SameDigits(And(a, b), c);
  }

  lemma {:induction false} AndNotSplits(x: nat, xs: nat, y: nat, ys: nat, k: nat)
    requires x < Pow2(k) && y < Pow2(k)
    ensures AndNot(x + Pow2(k) * xs, y + Pow2(k) * ys) == AndNot(x, y) + Pow2(k) * AndNot(xs, ys)
    decreases k
  {
    hide And, AndNot;
    if k > 0 {
      var p := Pow2(k - 1);
      AndNotSplits(x / 2, xs, y / 2, ys, k - 1);
      AndNotSplitsStep(x, p * xs, y, p * ys, p * AndNot(xs, ys));
      Doubled(p, xs);
      Doubled(p, ys);
      Doubled(p, AndNot(xs, ys));
    } else {
      NothingInZero();
    }
  }

  lemma AndNotSplitsStep(x: nat, xs: nat, y: nat, ys: nat, rest: nat)
    requires AndNot(x / 2 + xs, y / 2 + ys) == AndNot(x / 2, y / 2) + rest
    ensures AndNot(x + 2 * xs, y + 2 * ys) == AndNot(x, y) + 2 * rest
  {
    hide And, AndNot;
    HalfOfSum(x, xs);
    HalfOfSum(y, ys);
    HalfOfSum(AndNot(x, y), rest);
    AndNotDigits(x, y);
    AndNotFromHalves(x + 2 * xs, y + 2 * ys, x, y, AndNot(x, y) + 2 * rest);
  }

  lemma AndNotFromHalves(a: nat, b: nat, x: nat, y: nat, c: nat)
    requires a % 2 == x % 2 && b % 2 == y % 2 && c % 2 == Only(x, y) && AndNot(a / 2, b / 2) == c / 2
    ensures AndNot(a, b) == c
  {
    hide And, AndNot;
    AndNotDigits(a, b);
    SameDigits(AndNot(a, b), c);
  }

  /** One word of `&` and `& ~` is a byte of each after the other. */
  lemma {:induction false} WordsBytewise(v: seq<byte>, t: seq<byte>)
    requires |v| == |t|
    ensures And(ToWord(t), ToWord(v)) != 0 <==> HitsVirgin(v, t)
    ensures FromWord(AndNot(ToWord(v), ToWord(t)), |v|) == Cleared(v, t)
  {
    hide And, AndNot;
    if v == [] {
      NothingInZero();
    } else {
      assert Pow2(8) == 256;
      WordsBytewise(v[1..], t[1..]);
      AndSplits(t[0], ToWord(t[1..]), v[0], ToWord(v[1..]), 8);
      AndNotSplits(v[0], ToWord(v[1..]), t[0], ToWord(t[1..]), 8);
      FirstByte(Clear(v[0], t[0]), AndNot(ToWord(v[1..]), ToWord(t[1..])), |v|);
      assert Cleared(v, t) == [Clear(v[0], t[0])] + Cleared(v[1..], t[1..]);
      HitsFirst(v, t);
    }
  }

  lemma FirstByte(b: byte, rest: nat, n: nat)
    requires n > 0
    ensures FromWord(b + 256 * rest, n) == [b] + FromWord(rest, n - 1)
  {
    assert (b + 256 * rest) % 256 == b && (b + 256 * rest) / 256 == rest;
  }

  lemma HitsFirst(v: seq<byte>, t: seq<byte>)
    requires |v| == |t| > 0
    ensures HitsVirgin(v, t) <==> And(t[0], v[0]) != 0 || HitsVirgin(v[1..], t[1..])
  {
    if HitsVirgin(v, t) {
      var k :| 0 <= k < |t| && And(t[k], v[k]) != 0;
      if k > 0 { assert t[1..][k - 1] == t[k] && v[1..][k - 1] == v[k]; }
    }
    if HitsVirgin(v[1..], t[1..]) {
      var k :| 0 <= k < |t[1..]| && And(t[1..][k], v[1..][k]) != 0;
      assert t[k + 1] == t[1..][k] && v[k + 1] == v[1..][k];
    }
  }

  /** The bits kept and the bits cleared make up the byte. */
  lemma {:induction false} KeptAndCleared(v: nat, t: nat)
    ensures AndNot(v, t) + And(t, v) == v
  {
    if v > 0 { KeptAndCleared(v / 2, t / 2); }
  }

  lemma {:induction false} AndOnes(t: nat, k: nat)
    requires t < Pow2(k)
    ensures And(t, Pow2(k) - 1) == t
  {
    if k > 0 { AndOnes(t / 2, k - 1); }
  }

  lemma NothingToClear(v: seq<byte>, t: seq<byte>)
    requires |v| == |t| && !HitsVirgin(v, t)
    ensures Cleared(v, t) == v
  {
    forall k | 0 <= k < |v| ensures Clear(v[k], t[k]) == v[k] { KeptAndCleared(v[k], t[k]); }
  }

  lemma PristineIsVirgin(v: seq<byte>, t: seq<byte>)
    requires |v| == |t| && HitsPristine(v, t)
    ensures HitsVirgin(v, t)
  {
    var k :| 0 <= k < |t| && t[k] != 0 && v[k] == 255;
    assert Pow2(8) == 256;
    AndOnes(t[k], 8);
  }

  // ---------- the scan ----------

  /** Is any byte of the word hit and pristine? */
  method AnyPristine(virgin: array<byte>, trace: array<byte>, at: nat, width: nat) returns (pristine: bool)
    requires at + width <= virgin.Length == trace.Length
    ensures pristine <==> HitsPristine(virgin[at..at + width], trace[at..at + width])
  {
    ghost var v, t := virgin[at..at + width], trace[at..at + width];
    var k := 0;
    pristine := false;
    while k < width
      invariant 0 <= k <= width && (pristine <==> exists j :: 0 <= j < k && t[j] != 0 && v[j] == 255)
    {
      if trace[at + k] != 0 && virgin[at + k] == 255 { pristine := true; }
      k := k + 1;
    }
  }

  method StoreWord(a: array<byte>, at: nat, width: nat, w: nat)
    requires at + width <= a.Length
    modifies a
    ensures a[..] == old(a[..at]) + FromWord(w, width) + old(a[at + width..])
  {
    var bytes := FromWord(w, width);
    forall k | 0 <= k < width {
      a[at + k] := bytes[k];
    }
  }

  /** Looks at one word; ret is the answer so far. */
  method ScanWord(virgin: array<byte>, trace: array<byte>, at: nat, width: nat, ret: nat) returns (ret': nat)
    requires virgin != trace && at + width <= virgin.Length == trace.Length && ret <= 2
    modifies virgin
    ensures virgin[..]
         == old(virgin[..at]) + Cleared(old(virgin[at..at + width]), trace[at..at + width]) + old(virgin[at + width..])
    ensures ret' == Max(ret, Verdict(old(virgin[at..at + width]), trace[at..at + width]))
  {
    ret' := ret;
    ghost var v, t := virgin[at..at + width], trace[at..at + width];
    var cur, vir := ToWord(trace[at..at + width]), ToWord(virgin[at..at + width]);
    WordsBytewise(v, t);
    if HitsPristine(v, t) { PristineIsVirgin(v, t); }
    if cur != 0 && And(cur, vir) != 0 {
      if ret < 2 {
        var pristine := AnyPristine(virgin, trace, at, width);
        ret' := if pristine then 2 else 1;
      }
      StoreWord(virgin, at, width, AndNot(vir, cur));
    } else {
      NothingToClear(v, t);
      assert virgin[..] == virgin[..at] + v + virgin[at + width..];
    }
  }

  lemma VerdictAppend(v: seq<byte>, t: seq<byte>, n: nat, m: nat)
    requires |v| == |t| && n <= m <= |v|
    ensures Verdict(v[..m], t[..m]) == Max(Verdict(v[..n], t[..n]), Verdict(v[n..m], t[n..m]))
  {
    PristineAppend(v, t, n, m);
    VirginAppend(v, t, n, m);
    if HitsPristine(v[..n], t[..n]) { PristineIsVirgin(v[..n], t[..n]); }
    if HitsPristine(v[n..m], t[n..m]) { PristineIsVirgin(v[n..m], t[n..m]); }
  }

  lemma PristineAppend(v: seq<byte>, t: seq<byte>, n: nat, m: nat)
    requires |v| == |t| && n <= m <= |v|
    ensures HitsPristine(v[..m], t[..m]) <==> HitsPristine(v[..n], t[..n]) || HitsPristine(v[n..m], t[n..m])
  {
    if HitsPristine(v[..m], t[..m]) {
      var k :| 0 <= k < m && t[..m][k] != 0 && v[..m][k] == 255;
      if k < n {
        assert t[..n][k] != 0 && v[..n][k] == 255;
      } else {
        assert t[n..m][k - n] != 0 && v[n..m][k - n] == 255;
      }
    }
    if HitsPristine(v[..n], t[..n]) {
      var k :| 0 <= k < n && t[..n][k] != 0 && v[..n][k] == 255;
      assert t[..m][k] != 0 && v[..m][k] == 255;
    }
    if HitsPristine(v[n..m], t[n..m]) {
      var k :| 0 <= k < m - n && t[n..m][k] != 0 && v[n..m][k] == 255;
      assert t[..m][n + k] != 0 && v[..m][n + k] == 255;
    }
  }

  lemma VirginAppend(v: seq<byte>, t: seq<byte>, n: nat, m: nat)
    requires |v| == |t| && n <= m <= |v|
    ensures HitsVirgin(v[..m], t[..m]) <==> HitsVirgin(v[..n], t[..n]) || HitsVirgin(v[n..m], t[n..m])
  {
    if HitsVirgin(v[..m], t[..m]) {
      var k :| 0 <= k < m && And(t[..m][k], v[..m][k]) != 0;
      if k < n { assert And(t[..n][k], v[..n][k]) != 0; } else { assert And(t[n..m][k - n], v[n..m][k - n]) != 0; }
    }
    if HitsVirgin(v[..n], t[..n]) {
      var k :| 0 <= k < n && And(t[..n][k], v[..n][k]) != 0;
      assert And(t[..m][k], v[..m][k]) != 0;
    }
    if HitsVirgin(v[n..m], t[n..m]) {
      var k :| 0 <= k < m - n && And(t[n..m][k], v[n..m][k]) != 0;
      assert And(t[..m][n + k], v[..m][n + k]) != 0;
    }
  }

  /** The word-wise scan, in either width, computes the bytewise verdict and the bytewise new map. */
  method HasNewBits(virgin: array<byte>, trace: array<byte>, width: nat) returns (ret: nat)
    requires virgin != trace && width in {4, 8} && virgin.Length == trace.Length && Aligned(virgin.Length, width)
    modifies virgin
    ensures ret == Verdict(old(virgin[..]), trace[..])
    ensures virgin[..] == Cleared(old(virgin[..]), trace[..])
  {
    hide Verdict, Cleared, Aligned;
    ghost var v, t := virgin[..], trace[..];
    ret := 0;
    var at := 0;
    ScanNothing(v, t, width);
    while at < virgin.Length
      invariant 0 <= at <= virgin.Length && Aligned(at, width) && ret <= 2 && ret == Verdict(v[..at], t[..at])
      invariant virgin[..] == Cleared(v[..at], t[..at]) + v[at..]
    {
      ScanStart(virgin[..], v, t, at, width);
      ret := ScanWord(virgin, trace, at, width, ret);
      VerdictAppend(v, t, at, at + width);
      ScanEnd(v, t, at, width);
      at := at + width;
    }
    ScanDone(v, t);
  }

  /** Words of four or eight bytes. */
  predicate Aligned(n: nat, width: nat) {
    if width == 4 then n % 4 == 0 else n % 8 == 0
  }

  lemma ScanNothing(v: seq<byte>, t: seq<byte>, width: nat)
    requires |v| == |t|
    ensures Aligned(0, width) && Verdict(v[..0], t[..0]) == 0 && Cleared(v[..0], t[..0]) + v[0..] == v
  {}

  lemma ScanDone(v: seq<byte>, t: seq<byte>)
    requires |v| == |t|
    ensures v[..|v|] == v && t[..|t|] == t && Cleared(v, t) + v[|v|..] == Cleared(v, t)
  {}

  lemma ScanStart(now: seq<byte>, v: seq<byte>, t: seq<byte>, at: nat, width: nat)
    requires |v| == |t| && width in {4, 8} && Aligned(|v|, width) && Aligned(at, width) && at < |v|
    requires now == Cleared(v[..at], t[..at]) + v[at..]
    ensures at + width <= |v| && |now| == |v| && Aligned(at + width, width)
    ensures now[..at] == Cleared(v[..at], t[..at]) && now[at..at + width] == v[at..at + width]
      && now[at + width..] == v[at + width..]
  {}

  lemma ScanEnd(v: seq<byte>, t: seq<byte>, at: nat, width: nat)
    requires |v| == |t| && at + width <= |v|
    ensures Cleared(v[..at], t[..at]) + Cleared(v[at..at + width], t[at..at + width])
         == Cleared(v[..at + width], t[..at + width])
  {}

  // ---------- whole runs ----------

  /** How many bits of a byte are set. */
  function Pop(x: nat): nat {
    if x == 0 then 0 else x % 2 + Pop(x / 2)
  }

  function Ones(s: seq<byte>): nat {
    if s == [] then 0 else Pop(s[0]) + Ones(s[1..])
  }

  /** How many bytes are still 0xff. */
  function Pristine(s: seq<byte>): nat {
    if s == [] then 0 else (if s[0] == 255 then 1 else 0) + Pristine(s[1..])
  }

  lemma {:induction false} PopCleared(v: nat, t: nat)
    ensures Pop(AndNot(v, t)) + Pop(And(t, v)) == Pop(v)
  {
    if v > 0 {
      AndNotDigits(v, t);
      AndDigits(t, v);
      PopCleared(v / 2, t / 2);
    }
  }

  lemma {:induction false} PopPositive(x: nat)
    ensures x > 0 ==> Pop(x) > 0
  {
    if x > 0 { PopPositive(x / 2); }
  }

  /** A find clears at least one bit; nothing is ever set again. */
  lemma {:induction false} FindsClearBits(v: seq<byte>, t: seq<byte>)
    requires |v| == |t|
    ensures Ones(Cleared(v, t)) <= Ones(v)
    ensures HitsVirgin(v, t) ==> Ones(Cleared(v, t)) < Ones(v)
  {
    if v != [] {
      FindsClearBits(v[1..], t[1..]);
      assert Cleared(v, t)[1..] == Cleared(v[1..], t[1..]);
      PopCleared(v[0], t[0]);
      PopPositive(And(t[0], v[0]));
      HitsFirst(v, t);
    }
  }

  lemma ClearedIsHit(v: byte, t: byte)
    ensures Clear(v, t) == 255 ==> v == 255
    ensures v == 255 && t != 0 ==> Clear(v, t) != 255
  {
    KeptAndCleared(v, t);
    assert Pow2(8) == 256;
    AndOnes(t, 8);
  }

  /** A find of a new byte uses up a pristine byte; none ever comes back. */
  lemma {:induction false} NewBytesUsePristine(v: seq<byte>, t: seq<byte>)
    requires |v| == |t|
    ensures Pristine(Cleared(v, t)) <= Pristine(v)
    ensures HitsPristine(v, t) ==> Pristine(Cleared(v, t)) < Pristine(v)
  {
    if v != [] {
      NewBytesUsePristine(v[1..], t[1..]);
      assert Cleared(v, t)[1..] == Cleared(v[1..], t[1..]);
      ClearedIsHit(v[0], t[0]);
      if HitsPristine(v, t) {
        var k :| 0 <= k < |t| && t[k] != 0 && v[k] == 255;
        if k > 0 { assert t[1..][k - 1] != 0 && v[1..][k - 1] == 255; }
      }
    }
  }

  lemma {:induction false} NoFindClearsNothing(v: seq<byte>, t: seq<byte>)
    requires |v| == |t|
    ensures !HitsVirgin(v, t) ==> Ones(Cleared(v, t)) == Ones(v)
    ensures !HitsPristine(v, t) ==> Pristine(Cleared(v, t)) == Pristine(v)
  {
    if v != [] {
      NoFindClearsNothing(v[1..], t[1..]);
      assert Cleared(v, t)[1..] == Cleared(v[1..], t[1..]);
      PopCleared(v[0], t[0]);
      ClearedIsHit(v[0], t[0]);
      AndNotZero(v[0]);
      HitsFirst(v, t);
      PristineFirst(v, t);
    }
  }

  lemma PristineFirst(v: seq<byte>, t: seq<byte>)
    requires |v| == |t| && v != []
    ensures HitsPristine(v, t) <==> (t[0] != 0 && v[0] == 255) || HitsPristine(v[1..], t[1..])
  {
    if HitsPristine(v, t) {
      var k :| 0 <= k < |t| && t[k] != 0 && v[k] == 255;
      if k > 0 { assert t[1..][k - 1] != 0 && v[1..][k - 1] == 255; }
    }
  }

  /** What the answer tells, exactly: 2 that a pristine byte was used up, 1 or 2 that some bit was cleared. */
  lemma VerdictExact(v: seq<byte>, t: seq<byte>)
    requires |v| == |t|
    ensures Verdict(v, t) == 2 <==> Pristine(Cleared(v, t)) < Pristine(v)
    ensures Verdict(v, t) > 0 <==> Ones(Cleared(v, t)) < Ones(v)
  {
    FindsClearBits(v, t);
    NewBytesUsePristine(v, t);
    NoFindClearsNothing(v, t);
    if HitsPristine(v, t) { PristineIsVirgin(v, t); }
  }

  type Trace = seq<byte>

  ghost predicate SameSize(v: seq<byte>, traces: seq<Trace>) {
    forall t | t in traces :: |t| == |v|
  }

  /** The map after a run of calls, and how often the answer was at least `least`. */
  ghost function After(v: seq<byte>, traces: seq<Trace>): seq<byte>
    requires SameSize(v, traces)
    decreases |traces|
  {
    if traces == [] then v else After(Cleared(v, traces[0]), traces[1..])
  }

  ghost function Answers(v: seq<byte>, traces: seq<Trace>, least: nat): nat
    requires SameSize(v, traces)
    decreases |traces|
  {
    if traces == [] then 0
    else (if Verdict(v, traces[0]) >= least then 1 else 0) + Answers(Cleared(v, traces[0]), traces[1..], least)
  }

  /** Over any run of calls, finds are at most the bits set at the start and new bytes at most the pristine ones. */
  lemma {:induction false} FindsAreBounded(v: seq<byte>, traces: seq<Trace>)
    requires SameSize(v, traces)
    ensures Answers(v, traces, 1) + Ones(After(v, traces)) <= Ones(v)
    ensures Answers(v, traces, 2) + Pristine(After(v, traces)) <= Pristine(v)
    decreases |traces|
  {
    if traces != [] {
      var t := traces[0];
      FindsAreBounded(Cleared(v, t), traces[1..]);
      FindsClearBits(v, t);
      NewBytesUsePristine(v, t);
      if HitsPristine(v, t) { PristineIsVirgin(v, t); }
    }
  }

  lemma {:induction false} ClearTwice(v: nat, t: nat)
    ensures And(t, AndNot(v, t)) == 0
  {
    if v > 0 {
      AndNotDigits(v, t);
      AndDigits(t, AndNot(v, t));
      ClearTwice(v / 2, t / 2);
    }
  }

  /** A trace just recorded brings nothing new. */
  lemma SecondTimeNothing(v: seq<byte>, t: seq<byte>)
    requires |v| == |t|
    ensures Verdict(Cleared(v, t), t) == 0
  {
    forall k | 0 <= k < |t| ensures And(t[k], Cleared(v, t)[k]) == 0 { ClearTwice(v[k], t[k]); }
    if HitsPristine(Cleared(v, t), t) { PristineIsVirgin(Cleared(v, t), t); }
  }
}
