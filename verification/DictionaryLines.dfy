/**
  The lines a dictionary file may hold: an optional label, an optional level
  behind an at sign, equals signs and white space, and a quoted keyword. Written
  in any of these ways a keyword is read back, and every line that gives a
  keyword is written in one of them.
 */
module DictionaryLines {
  import opened Bytes
  import opened Dictionary

  // ---------- longer and longer sums ----------

  lemma Assoc<T>(a: seq<T>, b: seq<T>, c: seq<T>)
    ensures a + (b + c) == a + b + c
  {}

  lemma Assoc4<T>(a: seq<T>, b: seq<T>, c: seq<T>, d: seq<T>)
    ensures a + (b + c + d) == a + b + c + d
  {
    Assoc(a, b + c, d);
    Assoc(a, b, c);
  }

  lemma Assoc5<T>(a: seq<T>, b: seq<T>, c: seq<T>, d: seq<T>, e: seq<T>)
    ensures a + (b + c + d + e) == a + b + c + d + e
  {
    Assoc(a, b + c + d, e);
    Assoc4(a, b, c, d);
  }

  lemma Assoc6<T>(a: seq<T>, b: seq<T>, c: seq<T>, d: seq<T>, e: seq<T>, f: seq<T>)
    ensures a + (b + c + d + e + f) == a + b + c + d + e + f
  {
    Assoc(a, b + c + d + e, f);
    Assoc5(a, b, c, d, e);
  }

  lemma Cut<T>(a: seq<T>, b: seq<T>)
    ensures (a + b)[..|a|] == a && (a + b)[|a|..] == b
    ensures a + [] == [] + a == a
  {}

  /** The classes of bytes, in characters. */
  lemma Classes(b: byte)
    ensures var c := b as char;
            && (IsDigit(b) <==> '0' <= c <= '9')
            && (IsLabel(b) <==> '0' <= c <= '9' || 'A' <= c <= 'Z' || 'a' <= c <= 'z' || c == '_')
            && (IsHex(b) <==> '0' <= c <= '9' || 'A' <= c <= 'F' || 'a' <= c <= 'f')
            && (IsSpace(b) <==> c == ' ' || '\t' <= c <= '\r')
            && (IsGlue(b) <==> IsSpace(b) || c == '=')
            && (MustEscape(b) <==> c < ' ' || c > '~' || c == '\"' || c == '\\')
  {}

  // ---------- keywords ----------

  /** How one byte of a keyword may be written. */
  datatype Spelling = Bare(b: byte) | Slashed(b: byte) | Hexed(high: byte, low: byte)

  predicate Proper(p: Spelling) {
    match p
    case Bare(b) => 32 <= b < 128 && b != BACKSLASH
    case Slashed(b) => b == BACKSLASH || b == QUOTE
    case Hexed(high, low) => IsHex(high) && IsHex(low)
  }

  function Spelled(p: Spelling): seq<byte> {
    match p
    case Bare(b) => [b]
    case Slashed(b) => [BACKSLASH, b]
    case Hexed(high, low) => [BACKSLASH, LETTER_X, high, low]
  }

  function Meant(p: Spelling): byte
    requires Proper(p)
  {
    if p.Hexed? then 16 * HexValue(p.high) + HexValue(p.low) else p.b
  }

  function Text(ps: seq<Spelling>): seq<byte> {
    if ps == [] then [] else Spelled(ps[0]) + Text(ps[1..])
  }

  function Meaning(ps: seq<Spelling>): (s: seq<byte>)
    requires forall p | p in ps :: Proper(p)
    ensures |s| == |ps|
  {
    if ps == [] then [] else [Meant(ps[0])] + Meaning(ps[1..])
  }

  /** Hexadecimal digits in either case count from 0 to 15. */
  lemma HexLetters(b: byte)
    requires IsHex(b)
    ensures HexDigit(HexValue(b)) == if 65 <= b <= 70 then b + 32 else b
  {}

  lemma TextAt(p: Spelling, rest: seq<byte>, s: seq<byte>, i: nat)
    requires Proper(p) && i <= |s| && s[i..] == Spelled(p) + rest
    ensures var next := i + |Spelled(p)|;
            next <= |s| && s[next..] == rest && Unescaped(s, i) == Prepend(Meant(p), Unescaped(s, next))
  {
    var e := Spelled(p);
    assert |s[i..]| == |e| + |rest|;
    forall k | 0 <= k < |e|
      ensures s[i + k] == e[k]
    {
      assert s[i..][k] == (e + rest)[k];
    }
    assert s[i..][|e|..] == rest;
  }

  /** Where no spelling starts, although bytes are left. */
  predicate Misspelled(bad: seq<byte>, c: Complaint) {
    && bad != [] && 0 !in bad
    && (if bad[0] == BACKSLASH then c == BadEscape else (bad[0] < 32 || bad[0] >= 128) && c == NonPrintable)
    && !(|bad| > 1 && (bad[1] == BACKSLASH || bad[1] == QUOTE) && c == BadEscape)
    && !(|bad| > 3 && bad[1] == LETTER_X && IsHex(bad[2]) && IsHex(bad[3]) && c == BadEscape)
  }

  lemma KeywordEnds(bad: seq<byte>, c: Complaint, s: seq<byte>, i: nat)
    requires i <= |s| && s[i..] == bad && (bad == [] || Misspelled(bad, c))
    ensures Unescaped(s, i) == if bad == [] then Ok([]) else Err(c)
  {
    if bad != [] {
      assert forall k | 0 <= k < |bad| :: s[i + k] == bad[k];
    }
  }

  /** A keyword is read back byte by byte; the first thing that is no spelling makes it malformed. */
  lemma {:induction false} KeywordReads(ps: seq<Spelling>, bad: seq<byte>, c: Complaint, s: seq<byte>, i: nat)
    requires i <= |s| && s[i..] == Text(ps) + bad && forall p | p in ps :: Proper(p)
    requires bad == [] || Misspelled(bad, c)
    ensures Unescaped(s, i) == if bad == [] then Ok(Meaning(ps)) else Err(c)
    decreases |ps|
  {
    hide Unescaped, Spelled, Proper, Meant, Misspelled;
    if ps == [] {
      assert s[i..] == bad;
      KeywordEnds(bad, c, s, i);
    } else {
      assert s[i..] == Spelled(ps[0]) + (Text(ps[1..]) + bad);
      TextAt(ps[0], Text(ps[1..]) + bad, s, i);
      KeywordReads(ps[1..], bad, c, s, i + |Spelled(ps[0])|);
    }
  }

  /** Whatever is read as a keyword was spelled in one of these ways. */
  lemma {:induction false} KeywordSpelled(s: seq<byte>, i: nat) returns (ps: seq<Spelling>)
    requires i <= |s| && 0 !in s && Unescaped(s, i).Ok?
    ensures forall p | p in ps :: Proper(p)
    ensures s[i..] == Text(ps) && Unescaped(s, i) == Ok(Meaning(ps))
    decreases |s| - i
  {
    if i == |s| {
      ps := [];
    } else {
      assert s[i] in s;
      var p := if s[i] != BACKSLASH then Bare(s[i])
               else if s[i + 1] == BACKSLASH || s[i + 1] == QUOTE then Slashed(s[i + 1])
               else Hexed(s[i + 2], s[i + 3]);
      var next := i + |Spelled(p)|;
      assert s[i..] == Spelled(p) + s[next..];
      TextAt(p, s[next..], s, i);
      var rest := KeywordSpelled(s, next);
      ps := [p] + rest;
    }
  }

  // ---------- numbers ----------

  predicate All(isOne: byte -> bool, s: seq<byte>) {
    forall b | b in s :: isOne(b)
  }

  lemma SkipOver(isOne: byte -> bool, a: seq<byte>, mid: seq<byte>, rest: seq<byte>)
    requires All(isOne, mid) && rest != [] && !isOne(rest[0])
    ensures Skip(isOne, a + mid + rest, |a|) == |a| + |mid|
  {
    var s := a + mid + rest;
    forall m | |a| <= m < |a| + |mid|
      ensures isOne(s[m])
    {
      assert s[m] == mid[m - |a|];
    }
    SkipTo(isOne, s, |a|, |a| + |mid|);
  }

  /** The number that digits stand for. */
  function Value(ds: seq<byte>): nat
    requires forall d | d in ds :: IsDigit(d)
  {
    if ds == [] then 0
    else
      assert ds[|ds| - 1] in ds && IsDigit(ds[|ds| - 1]);
      var last: int := ds[|ds| - 1];
      10 * Value(ds[..|ds| - 1]) + last - 48
  }

  function Decimal(n: nat): seq<byte> {
    (if n < 10 then [] else Decimal(n / 10)) + [48 + n % 10]
  }

  lemma {:induction false} DecimalValue(n: nat)
    ensures forall d | d in Decimal(n) :: IsDigit(d)
    ensures Value(Decimal(n)) == n
  {
    if n >= 10 {
      DecimalValue(n / 10);
      assert Decimal(n)[..|Decimal(n)| - 1] == Decimal(n / 10);
    }
  }

  lemma {:induction false} DigitsGoOn(s: seq<byte>, i: nat, ds: seq<byte>)
    requires i + |ds| <= |s| && s[i..i + |ds|] == ds && forall d | d in ds :: IsDigit(d)
    ensures Digits(s, i, 0) == Digits(s, i + |ds|, Value(ds))
  {
    if ds != [] {
      var n := |ds| - 1;
      assert s[i..i + n] == ds[..n];
      DigitsGoOn(s, i, ds[..n]);
      assert s[i + n] == s[i..i + |ds|][n] == ds[n];
    }
  }

  /** White space and a sign may come before the digits. */
  lemma SignedNumber(blank: seq<byte>, sign: seq<byte>, ds: seq<byte>, rest: seq<byte>)
    requires All(IsSpace, blank) && (sign == [] || sign == [43] || sign == [45])
    requires All(IsDigit, ds) && ds != [] && (rest == [] || !IsDigit(rest[0]))
    ensures Atoi(blank + sign + ds + rest, 0) == if sign == [45] then 0 - (Value(ds) as int) else Value(ds) as int
  {
    hide Skip, Value;
    var s, i := blank + sign + ds + rest, |blank + sign|;
    assert ds[0] in ds;
    var after := sign + ds + rest;
    assert after[0] == if sign == [] then ds[0] else sign[0];
    assert s == [] + blank + after;
    SkipOver(IsSpace, [], blank, after);
    assert s[|blank|] == after[0];
    assert s[i..i + |ds|] == ds;
    DigitsGoOn(s, i, ds);
    assert i + |ds| < |s| ==> s[i + |ds|] == rest[0];
  }

  /** atoi on digits; without any, white space, equals signs and a quote give 0. */
  lemma NumberReads(s: seq<byte>, i: nat, ds: seq<byte>, k: nat)
    requires i + |ds| <= k < |s| && s[i..i + |ds|] == ds && forall d | d in ds :: IsDigit(d)
    requires (forall m | i + |ds| <= m < k :: IsGlue(s[m])) && s[k] == QUOTE
    ensures Atoi(s, i) == Value(ds)
  {
    hide Skip;
    if ds == [] {
      NoNumber(s, i, k);
    } else {
      DigitsGoOn(s, i, ds);
      assert s[i] == s[i..i + |ds|][0] == ds[0];
      SkipTo(IsSpace, s, i, i);
      assert s[i + |ds|] == if i + |ds| < k then s[i + |ds|] else QUOTE;
    }
  }

  lemma NoNumber(s: seq<byte>, i: nat, k: nat)
    requires i <= k < |s| && s[k] == QUOTE && forall m | i <= m < k :: IsGlue(s[m])
    ensures Atoi(s, i) == 0
  {
    hide Skip;
    var j := Skip(IsSpace, s, i);
    assert j <= k;
    assert s[j] == EQUALS || s[j] == QUOTE;
  }

  // ---------- lines ----------

  /** A line with a keyword; `level` holds the digits behind the at sign. */
  datatype Form = Form(indent: seq<byte>, name: seq<byte>, level: Option<seq<byte>>, glue: seq<byte>,
                       keyword: seq<Spelling>, tail: seq<byte>)

  predicate WellFormed(w: Form) {
    && All(IsSpace, w.indent) && All(IsLabel, w.name) && All(IsGlue, w.glue) && All(IsSpace, w.tail)
    && (w.level.Some? ==> All(IsDigit, w.level.value))
    && forall p | p in w.keyword :: Proper(p)
  }

  function Mark(level: Option<seq<byte>>): seq<byte> {
    if level.Some? then [AT] + level.value else []
  }

  /** The line up to the opening quote. */
  function Front(w: Form): seq<byte> {
    w.indent + w.name + Mark(w.level) + w.glue
  }

  /** The text of a line, with something behind the keyword. */
  function Quoted(w: Form, bad: seq<byte>): seq<byte> {
    w.name + Mark(w.level) + w.glue + [QUOTE] + Text(w.keyword) + bad + [QUOTE]
  }

  function Written(w: Form): seq<byte> {
    w.indent + Quoted(w, []) + w.tail
  }

  /** The level of the line, a 32-bit number, is above that of the dictionary. */
  predicate Above(w: Form, level: nat)
    requires WellFormed(w)
  {
    w.level.Some? && Value(w.level.value) % 0x1_0000_0000 > level
  }

  /** What such a line gives: nothing above the dictionary level, and never an empty or a long keyword. */
  function Worth(w: Form, level: nat): Entry
    requires WellFormed(w)
  {
    if Above(w, level) then Nothing
    else if w.keyword == [] then Malformed(EmptyKeyword)
    else if |w.keyword| > 128 then Malformed(TooBig)
    else Token(Meaning(w.keyword))
  }

  /** What follows the label, or the white space when there is no label. */
  lemma NextByte(w: Form, rest: seq<byte>)
    requires WellFormed(w)
    ensures var b := (Mark(w.level) + w.glue + [QUOTE] + rest)[0];
            b == (if w.level.Some? then AT else if w.glue != [] then w.glue[0] else QUOTE) && !IsLabel(b) && b != HASH
    ensures var b := (w.glue + [QUOTE] + rest)[0]; !IsDigit(b)
    ensures w.name != [] ==> !IsSpace(w.name[0]) && w.name[0] != HASH
  {
    if w.glue != [] { assert w.glue[0] in w.glue; }
    if w.name != [] { assert w.name[0] in w.name; }
  }

  /** Behind the label, when there is no level. */
  lemma PlainReads(t: seq<byte>, a: seq<byte>, glue: seq<byte>, rest: seq<byte>)
    requires t == a + glue + [QUOTE] + rest && All(IsGlue, glue)
    ensures Skip(IsGlue, t, |a|) == |a + glue|
  {
    Assoc(a + glue, [QUOTE], rest);
    SkipOver(IsGlue, a, glue, [QUOTE] + rest);
  }

  /** Behind the at sign. */
  lemma LevelReads(t: seq<byte>, b: seq<byte>, ds: seq<byte>, glue: seq<byte>, rest: seq<byte>)
    requires t == b + ds + glue + [QUOTE] + rest && All(IsGlue, glue) && All(IsDigit, ds)
    ensures Atoi(t, |b|) == Value(ds) && Skip(IsDigit, t, |b|) == |b + ds|
  {
    hide Skip, Atoi, Value;
    if glue != [] { assert glue[0] in glue; }
    Assoc4(b + ds, glue, [QUOTE], rest);
    SkipOver(IsDigit, b, ds, glue + [QUOTE] + rest);
    assert t[|b|..|b| + |ds|] == ds;
    var k := |b| + |ds| + |glue|;
    forall m | |b| + |ds| <= m < k
      ensures IsGlue(t[m])
    {
      assert t[m] == glue[m - |b| - |ds|];
    }
    assert t[k] == QUOTE;
    NumberReads(t, |b|, ds, k);
  }

  lemma NameReads(indent: seq<byte>, name: seq<byte>, after: seq<byte>)
    requires All(IsLabel, name) && after != [] && !IsLabel(after[0])
    ensures var t := indent + name + after; var k := |indent + name|;
            Skip(IsLabel, t, |indent|) == k && k < |t| && t[k] == after[0]
  {
    hide Skip;
    SkipOver(IsLabel, indent, name, after);
  }

  /** A line without a level. */
  lemma PlainPair(i: seq<byte>, n: seq<byte>, g: seq<byte>, rest: seq<byte>, level: nat)
    requires All(IsLabel, n) && All(IsGlue, g)
    ensures ParsedPair(i + n + g + [QUOTE] + rest, |i|, level) ==
            ParsedValue(i + n + g + [QUOTE] + rest, |i + n + g|)
  {
    hide Skip, Atoi, ParsedValue;
    var t, after := i + n + g + [QUOTE] + rest, g + [QUOTE] + rest;
    if g != [] { assert g[0] in g; }
    assert after[0] == if g == [] then QUOTE else g[0];
    Assoc4(i + n, g, [QUOTE], rest);
    NameReads(i, n, after);
    PlainReads(t, i + n, g, rest);
  }

  /** A line with one. */
  lemma LevelPair(i: seq<byte>, n: seq<byte>, ds: seq<byte>, g: seq<byte>, rest: seq<byte>, level: nat)
    requires All(IsLabel, n) && All(IsGlue, g) && All(IsDigit, ds)
    ensures var k := |i + n + [AT] + ds + g|; var t := i + n + [AT] + ds + g + [QUOTE] + rest;
            ParsedPair(t, |i|, level) == if Value(ds) % 0x1_0000_0000 > level then Nothing else ParsedValue(t, k)
  {
    hide Skip, Atoi, ParsedValue, Value, IsSpace, IsGlue;
    var b := i + n + [AT];
    var t, after := b + ds + g + [QUOTE] + rest, [AT] + (ds + g + [QUOTE] + rest);
    Assoc5(b, ds, g, [QUOTE], rest);
    Assoc(i + n, [AT], ds + g + [QUOTE] + rest);
    NameReads(i, n, after);
    LevelReads(t, b, ds, g, rest);
    PlainReads(t, b + ds, g, rest);
  }

  /** From the label to the opening quote. */
  lemma PairReads(w: Form, t: seq<byte>, rest: seq<byte>, level: nat)
    requires WellFormed(w) && t == Front(w) + [QUOTE] + rest
    ensures ParsedPair(t, |w.indent|, level) ==
            if Above(w, level) then Nothing else ParsedValue(t, |Front(w)|)
  {
    hide ParsedPair, ParsedValue, Value, IsLabel, IsGlue, IsDigit, IsSpace;
    if w.level.None? {
      assert Front(w) == w.indent + w.name + w.glue;
      PlainPair(w.indent, w.name, w.glue, rest, level);
    } else {
      Assoc(w.indent + w.name, [AT], w.level.value);
      LevelPair(w.indent, w.name, w.level.value, w.glue, rest, level);
    }
  }

  lemma {:induction false} TrimTo(s: seq<byte>, low: nat, end: nat, k: nat)
    requires low < k <= end <= |s| && !IsSpace(s[k - 1]) && forall m | k <= m < end :: IsSpace(s[m])
    ensures TrimRight(s, low, end) == k
    decreases end
  {
    if k < end { TrimTo(s, low, end - 1, k); }
  }

  /** Where the text of the line begins and ends. */
  lemma LineCut(indent: seq<byte>, text: seq<byte>, tail: seq<byte>)
    requires All(IsSpace, indent) && All(IsSpace, tail) && text != []
    requires !IsSpace(text[0]) && !IsSpace(text[|text| - 1])
    ensures var s := indent + text + tail;
            && Skip(IsSpace, s, 0) == |indent| && TrimRight(s, |indent|, |s|) == |indent + text|
            && s[|indent|] == text[0] && s[|indent + text| - 1] == text[|text| - 1]
  {
    hide Skip, TrimRight, IsSpace;
    var s, n, k := indent + text + tail, |indent|, |indent + text|;
    assert s == [] + indent + (text + tail);
    SkipOver(IsSpace, [], indent, text + tail);
    assert s[k - 1] == text[|text| - 1];
    forall m | k <= m < |s|
      ensures IsSpace(s[m])
    {
      assert s[m] == tail[m - k];
    }
    TrimTo(s, n, |s|, k);
  }

  /** White space around the line does not matter. */
  lemma LineTrimmed(indent: seq<byte>, text: seq<byte>, tail: seq<byte>, level: nat)
    requires All(IsSpace, indent) && All(IsSpace, tail) && 0 !in text && |text| >= 1
    requires !IsSpace(text[0]) && text[0] != HASH && text[|text| - 1] == QUOTE
    ensures Parsed(indent + text + tail, level) == ParsedPair(indent + text[..|text| - 1], |indent|, level)
  {
    hide Skip, TrimRight, ParsedPair, UpToNul;
    var s, k := indent + text + tail, |indent + text|;
    WholeString(s);
    LineCut(indent, text, tail);
    assert s[..k - 1] == indent + text[..|text| - 1];
  }

  lemma {:induction false} NoNulInText(ps: seq<Spelling>)
    requires forall p | p in ps :: Proper(p)
    ensures 0 !in Text(ps)
  {
    if ps != [] {
      assert Proper(ps[0]);
      NoNulInText(ps[1..]);
    }
  }

  lemma QuotedGlue(w: Form, bad: seq<byte>)
    requires w.name == [] && w.level.None?
    ensures Quoted(w, bad) == w.glue + ([QUOTE] + Text(w.keyword) + bad + [QUOTE])
  {
    hide Text;
    Cut(w.glue, []);
    Assoc5(w.glue, [QUOTE], Text(w.keyword), bad, [QUOTE]);
  }

  /** White space in front may be counted to the line, when there is no label. */
  lemma GlueMoves(w: Form, bad: seq<byte>) returns (v: Form)
    requires WellFormed(w) && w.name == [] && w.level.None? && w.glue != [] && IsSpace(w.glue[0])
    ensures WellFormed(v) && |v.glue| < |w.glue| && v.name == [] && v.level.None? && v.keyword == w.keyword
    ensures v.indent + Quoted(v, bad) + v.tail == w.indent + Quoted(w, bad) + w.tail
  {
    hide Text, Proper, IsGlue, IsLabel;
    v := w.(indent := w.indent + [w.glue[0]], glue := w.glue[1..]);
    QuotedGlue(w, bad);
    QuotedGlue(v, bad);
    var rest := [QUOTE] + Text(w.keyword) + bad + [QUOTE];
    assert w.glue == [w.glue[0]] + v.glue;
    Assoc([w.glue[0]], v.glue, rest);
    Assoc(w.indent, [w.glue[0]], v.glue + rest);
  }

  lemma ValueReads(front: seq<byte>, ps: seq<Spelling>, bad: seq<byte>, c: Complaint)
    requires forall p | p in ps :: Proper(p)
    requires bad == [] || Misspelled(bad, c)
    ensures ParsedValue(front + [QUOTE] + Text(ps) + bad, |front|) ==
            if bad != [] then Malformed(c)
            else if ps == [] then Malformed(EmptyKeyword)
            else if |ps| > 128 then Malformed(TooBig)
            else Token(Meaning(ps))
  {
    hide Unescaped, Meaning, Misspelled, Spelled, Proper, Text;
    var t, k := front + [QUOTE] + Text(ps) + bad, |front|;
    Assoc(front + [QUOTE], Text(ps), bad);
    Cut(front + [QUOTE], Text(ps) + bad);
    assert t[k] == QUOTE && |t| == k + 1 + |Text(ps) + bad|;
    KeywordReads(ps, bad, c, t, k + 1);
    TextEmpty(ps);
    MisspelledSome(bad, c);
  }

  lemma TextEmpty(ps: seq<Spelling>)
    ensures Text(ps) == [] <==> ps == []
  {}

  lemma MisspelledSome(bad: seq<byte>, c: Complaint)
    ensures Misspelled(bad, c) ==> bad != [] && 0 !in bad
  {}

  lemma NoNulInLine(w: Form, bad: seq<byte>, c: Complaint)
    requires WellFormed(w) && (bad == [] || Misspelled(bad, c))
    ensures 0 !in Quoted(w, bad)
  {
    NoNulInText(w.keyword);
  }

  lemma FirstByte(w: Form, bad: seq<byte>)
    requires WellFormed(w) && !(w.name == [] && w.level.None? && w.glue != [] && IsSpace(w.glue[0]))
    ensures Quoted(w, bad) != [] && !IsSpace(Quoted(w, bad)[0]) && Quoted(w, bad)[0] != HASH
  {
    hide Text, Proper;
    var rest := Text(w.keyword) + bad + [QUOTE];
    var after := Mark(w.level) + w.glue + [QUOTE] + rest;
    NextByte(w, rest);
    Assoc4(w.name + Mark(w.level) + w.glue + [QUOTE], Text(w.keyword), bad, [QUOTE]);
    Assoc5(w.name, Mark(w.level), w.glue, [QUOTE], rest);
    assert Quoted(w, bad) == w.name + after;
    assert Quoted(w, bad)[0] == if w.name != [] then w.name[0] else after[0];
  }

  lemma QuotedCut(w: Form, bad: seq<byte>)
    ensures var text := Quoted(w, bad); var rest := Text(w.keyword) + bad;
            && text != [] && text[|text| - 1] == QUOTE
            && w.indent + text[..|text| - 1] == Front(w) + [QUOTE] + rest
            && Front(w) + [QUOTE] + rest == Front(w) + [QUOTE] + Text(w.keyword) + bad
  {
    hide Text, Mark;
    var text, rest := Quoted(w, bad), Text(w.keyword) + bad;
    var most := w.name + Mark(w.level) + w.glue + [QUOTE] + Text(w.keyword) + bad;
    Cut(most, [QUOTE]);
    Assoc(w.name + Mark(w.level) + w.glue + [QUOTE], Text(w.keyword), bad);
    Assoc6(w.indent, w.name, Mark(w.level), w.glue, [QUOTE], rest);
    Assoc(Front(w) + [QUOTE], Text(w.keyword), bad);
  }

  lemma LineReadsHere(w: Form, bad: seq<byte>, c: Complaint, level: nat)
    requires WellFormed(w) && (bad == [] || Misspelled(bad, c))
    requires !(w.name == [] && w.level.None? && w.glue != [] && IsSpace(w.glue[0]))
    ensures Parsed(w.indent + Quoted(w, bad) + w.tail, level) ==
            if bad == [] then Worth(w, level) else if Above(w, level) then Nothing else Malformed(c)
  {
    hide Parsed, ParsedPair, ParsedValue, Misspelled, Meaning, Above, Proper, Quoted, Front, IsSpace;
    NoNulInLine(w, bad, c);
    FirstByte(w, bad);
    QuotedCut(w, bad);
    LineTrimmed(w.indent, Quoted(w, bad), w.tail, level);
    PairReads(w, Front(w) + [QUOTE] + (Text(w.keyword) + bad), Text(w.keyword) + bad, level);
    ValueReads(Front(w), w.keyword, bad, c);
  }

  /** A line written in any of these ways gives what it is worth, or, misspelled, the complaint about that. */
  lemma {:induction false} LineReads(w: Form, bad: seq<byte>, c: Complaint, level: nat)
    requires WellFormed(w) && (bad == [] || Misspelled(bad, c))
    ensures Parsed(w.indent + Quoted(w, bad) + w.tail, level) ==
            if bad == [] then Worth(w, level) else if Above(w, level) then Nothing else Malformed(c)
    decreases |w.glue|
  {
    hide Parsed, Misspelled, Meaning, Value, Proper, Quoted, IsSpace, WellFormed;
    if w.name == [] && w.level.None? && w.glue != [] && IsSpace(w.glue[0]) {
      var v := GlueMoves(w, bad);
      LineReads(v, bad, c, level);
    } else {
      LineReadsHere(w, bad, c, level);
    }
  }

  // ---------- other lines ----------

  lemma {:induction false} UpToNulAppend(a: seq<byte>, b: seq<byte>)
    requires 0 !in a
    ensures UpToNul(a + b) == a + UpToNul(b)
  {
    if a == [] {
      assert a + b == b;
    } else {
      assert (a + b)[1..] == a[1..] + b && a[0] in a;
      UpToNulAppend(a[1..], b);
      assert a == [a[0]] + a[1..];
    }
  }

  /** Nothing behind a NUL is looked at. */
  lemma BehindNul(line: seq<byte>, rest: seq<byte>, level: nat)
    requires 0 !in line
    ensures Parsed(line + [0] + rest, level) == Parsed(line, level)
  {
    hide Skip, TrimRight, ParsedPair, UpToNul;
    assert line + [0] + rest == line + ([0] + rest);
    UpToNulAppend(line, [0] + rest);
    NulEnds(rest);
    WholeString(line);
  }

  lemma NulEnds(rest: seq<byte>)
    ensures UpToNul([0] + rest) == []
  {
  }

  /** A comment counts for nothing, whatever it holds. */
  lemma CommentSkipped(indent: seq<byte>, rest: seq<byte>, level: nat)
    requires All(IsSpace, indent)
    ensures Parsed(indent + [HASH] + rest, level) == Nothing
  {
    hide Skip, TrimRight, ParsedPair;
    UpToNulAppend(indent + [HASH], rest);
    SkipOver(IsSpace, [], indent, [HASH] + UpToNul(rest));
    assert [] + indent + ([HASH] + UpToNul(rest)) == indent + [HASH] + UpToNul(rest);
  }

  /** And so does a blank line. */
  lemma BlankSkipped(blank: seq<byte>, level: nat)
    requires All(IsSpace, blank)
    ensures Parsed(blank, level) == Nothing
  {
    hide TrimRight, ParsedPair, UpToNul;
    WholeString(blank);
    SkipAll(IsSpace, blank, 0);
  }

  lemma {:induction false} SkipAll(isOne: byte -> bool, s: seq<byte>, i: nat)
    requires i <= |s| && All(isOne, s)
    ensures Skip(isOne, s, i) == |s|
    decreases |s| - i
  {
    if i < |s| {
      assert s[i] in s;
      SkipAll(isOne, s, i + 1);
    }
  }

  /** Any other line has to end with a quote. */
  lemma UnclosedLine(indent: seq<byte>, text: seq<byte>, tail: seq<byte>, level: nat)
    requires All(IsSpace, indent) && All(IsSpace, tail) && 0 !in text && text != []
    requires !IsSpace(text[0]) && text[0] != HASH && !IsSpace(text[|text| - 1]) && text[|text| - 1] != QUOTE
    ensures Parsed(indent + text + tail, level) == Malformed(NoClosingQuote)
  {
    hide Skip, TrimRight, ParsedPair, UpToNul;
    WholeString(indent + text + tail);
    LineCut(indent, text, tail);
  }

  // ---------- both ways ----------

  /** The parts of a class of bytes. */
  lemma SkippedAll(isOne: byte -> bool, s: seq<byte>, i: nat)
    requires i <= |s|
    ensures All(isOne, s[i..Skip(isOne, s, i)])
  {
    hide Skip;
  }

  lemma ValueSpelled(t: seq<byte>, k: nat) returns (ps: seq<Spelling>)
    requires k <= |t| && 0 !in t && ParsedValue(t, k).Token?
    ensures forall p | p in ps :: Proper(p)
    ensures t == t[..k] + [QUOTE] + Text(ps)
  {
    ps := KeywordSpelled(t, k + 1);
    assert t == t[..k] + [t[k]] + t[k + 1..];
  }

  lemma Parts(t: seq<byte>, a: nat, b: nat, c: nat)
    requires a <= b <= c <= |t|
    ensures t[..c] == t[..a] + t[a..b] + t[b..c]
  {}

  lemma PlainSpelled(t: seq<byte>, left: nat, n: nat) returns (w: Form)
    requires left <= n <= |t| && 0 !in t && All(IsSpace, t[..left]) && All(IsLabel, t[left..n])
    requires ParsedValue(t, Skip(IsGlue, t, n)).Token?
    ensures WellFormed(w) && w.indent == t[..left] && w.tail == []
    ensures t == Front(w) + [QUOTE] + Text(w.keyword)
  {
    hide Skip, ParsedValue, Text, Proper;
    var g := Skip(IsGlue, t, n);
    SkippedAll(IsGlue, t, n);
    var ps := ValueSpelled(t, g);
    w := Form(t[..left], t[left..n], None, t[n..g], ps, []);
    Parts(t, left, n, g);
    assert Front(w) == t[..g];
  }

  lemma LevelSpelled(t: seq<byte>, left: nat, n: nat) returns (w: Form)
    requires left <= n < |t| && t[n] == AT && 0 !in t && All(IsSpace, t[..left]) && All(IsLabel, t[left..n])
    requires ParsedValue(t, Skip(IsGlue, t, Skip(IsDigit, t, n + 1))).Token?
    ensures WellFormed(w) && w.indent == t[..left] && w.tail == []
    ensures t == Front(w) + [QUOTE] + Text(w.keyword)
  {
    hide Skip, ParsedValue, Text, Proper;
    var d := Skip(IsDigit, t, n + 1);
    var g := Skip(IsGlue, t, d);
    SkippedAll(IsDigit, t, n + 1);
    SkippedAll(IsGlue, t, d);
    var ps := ValueSpelled(t, g);
    w := Form(t[..left], t[left..n], Some(t[n + 1..d]), t[d..g], ps, []);
    Parts(t, left, n, d);
    Parts(t, n, d, g);
    MarkCut(t, n, d);
    assert Front(w) == t[..g];
  }

  lemma MarkCut(t: seq<byte>, n: nat, d: nat)
    requires n < d <= |t| && t[n] == AT
    ensures t[n..d] == [AT] + t[n + 1..d]
  {}

  lemma PairSpelled(t: seq<byte>, left: nat, level: nat) returns (w: Form)
    requires left <= |t| && 0 !in t && All(IsSpace, t[..left]) && ParsedPair(t, left, level).Token?
    ensures WellFormed(w) && w.indent == t[..left] && w.tail == []
    ensures t == Front(w) + [QUOTE] + Text(w.keyword)
  {
    hide Skip, Atoi, ParsedValue, WellFormed, Front, Text;
    var n := Skip(IsLabel, t, left);
    SkippedAll(IsLabel, t, left);
    if n < |t| && t[n] == AT {
      w := LevelSpelled(t, left, n);
    } else {
      w := PlainSpelled(t, left, n);
    }
  }

  lemma Assembled(w: Form, v: Form, s: seq<byte>, r: nat)
    requires 1 <= r <= |s| && s[r - 1] == QUOTE && s[..r - 1] == Front(v) + [QUOTE] + Text(v.keyword)
    requires w == v.(tail := s[r..])
    ensures s == Written(w)
  {
    hide Text, Mark;
    assert s == s[..r - 1] + [QUOTE] + s[r..];
    var text := v.name + Mark(v.level) + v.glue + [QUOTE] + Text(v.keyword);
    Cut(text, []);
    Assoc(v.indent, text, [QUOTE]);
    Assoc6(v.indent, v.name, Mark(v.level), v.glue, [QUOTE], Text(v.keyword));
  }

  lemma TailSpace(s: seq<byte>, low: nat)
    requires low <= |s|
    ensures All(IsSpace, s[TrimRight(s, low, |s|)..])
  {
    hide TrimRight;
  }

  /** Whatever gives a token is written in one of these ways, up to the first NUL. */
  lemma TokenSpelled(line: seq<byte>, level: nat) returns (w: Form)
    requires Parsed(line, level).Token?
    ensures WellFormed(w) && UpToNul(line) == Written(w) && Parsed(line, level) == Worth(w, level)
  {
    hide Skip, TrimRight, ParsedPair, UpToNul, Worth, Front, Text, Quoted;
    var s := UpToNul(line);
    var left := Skip(IsSpace, s, 0);
    var right := TrimRight(s, left, |s|);
    SkippedAll(IsSpace, s, 0);
    TailSpace(s, left);
    var t := s[..right - 1];
    assert t[..left] == s[0..left];
    var v := PairSpelled(t, left, level);
    w := v.(tail := s[right..]);
    Assembled(w, v, s, right);
    WholeString(s);
    LineReads(w, [], NonPrintable, level);
  }

  /** The lines that give a certain token, exactly. */
  lemma TokenLines(line: seq<byte>, level: nat, token: seq<byte>)
    ensures Parsed(line, level) == Token(token) <==>
            exists w :: WellFormed(w) && UpToNul(line) == Written(w) && Worth(w, level) == Token(token)
  {
    hide Parsed, Worth, Quoted, WellFormed;
    if Parsed(line, level) == Token(token) {
      var w := TokenSpelled(line, level);
    }
    if w :| WellFormed(w) && UpToNul(line) == Written(w) && Worth(w, level) == Token(token) {
      LineReads(w, [], NonPrintable, level);
      SameUpToNul(line, level);
    }
  }

  lemma SameUpToNul(line: seq<byte>, level: nat)
    ensures Parsed(line, level) == Parsed(UpToNul(line), level)
  {
    hide UpToNul, Skip, TrimRight, ParsedPair, IsSpace;
    WholeString(UpToNul(line));
  }

  // ---------- printed lines ----------

  /** How the printer of the capture library spells a byte. */
  function Printing(token: seq<byte>): (ps: seq<Spelling>)
    ensures |ps| == |token| && forall p | p in ps :: Proper(p)
  {
    if token == [] then []
    else
      var b := token[0];
      HexDigits(b);
      [if MustEscape(b) then Hexed(HexDigit(b / 16), HexDigit(b % 16)) else Bare(b)] + Printing(token[1..])
  }

  lemma {:induction false} PrintingMeans(token: seq<byte>)
    ensures Text(Printing(token)) == Body(token) && Meaning(Printing(token)) == token
  {
    if token != [] {
      PrintingMeans(token[1..]);
      HexDigits(token[0]);
      assert Printing(token)[1..] == Printing(token[1..]);
      assert token == [token[0]] + token[1..];
    }
  }

  /** A printed token behind any label gives that token, unless it is at a level above that of the dictionary. */
  lemma LevelDecides(indent: seq<byte>, name: seq<byte>, n: Option<nat>, glue: seq<byte>, token: seq<byte>,
                     tail: seq<byte>, level: nat)
    requires All(IsSpace, indent) && All(IsLabel, name) && All(IsGlue, glue) && All(IsSpace, tail)
    requires n.Some? ==> n.value < 0x8000_0000
    requires 1 <= |token| <= 128
    ensures var number := if n.Some? then [AT] + Decimal(n.value) else [];
            Parsed(indent + (name + number + glue + [QUOTE] + Body(token) + [QUOTE]) + tail, level) ==
            if n.Some? && n.value > level then Nothing else Token(token)
  {
    hide Parsed, Value, Decimal, Body, Meaning, Text, Printing, IsSpace, IsLabel, IsGlue, IsDigit, Proper;
    var ds := if n.Some? then Some(Decimal(n.value)) else None;
    if n.Some? { DecimalValue(n.value); }
    var w := Form(indent, name, ds, glue, Printing(token), tail);
    PrintingMeans(token);
    LineReads(w, [], NonPrintable, level);
    Cut(name + Mark(ds) + glue + [QUOTE] + Body(token), []);
  }

  // ---------- files ----------

  /** What is read at once: a line with its newline, the rest of the file, or 8191 bytes of a longer line. */
  predicate Piece(piece: seq<byte>, rest: seq<byte>) {
    && 1 <= |piece| <= 8191 && NEWLINE !in piece[..|piece| - 1]
    && (piece[|piece| - 1] == NEWLINE || rest == [] || |piece| == 8191)
  }

  /** A file is worth what its lines are worth, in order, up to the first that is malformed. */
  lemma FileInPieces(piece: seq<byte>, rest: seq<byte>, level: nat)
    requires Piece(piece, rest)
    ensures Loaded(piece + rest, level) ==
            match Parsed(piece, level) {
              case Malformed(e) => Err(e)
              case Nothing => Loaded(rest, level)
              case Token(data) => Added(data, Loaded(rest, level))
            }
  {
    hide Parsed, Skip;
    var file, n := piece + rest, |piece|;
    var other := (b: byte) => b != NEWLINE;
    forall m | 0 <= m < n - 1
      ensures file[m] != NEWLINE
    {
      assert file[m] == piece[..n - 1][m];
    }
    if piece[n - 1] == NEWLINE {
      SkipTo(other, file, 0, n - 1);
    } else {
      var k := Skip(other, file, 0);
      assert k < |file| ==> file[k] == NEWLINE;
      assert k >= n;
    }
    assert file[..n] == piece && file[n..] == rest;
  }
}
