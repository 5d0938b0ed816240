/**
  Dictionary lines: the token printer of the capture library and the parser of
  the fuzzer. A printed token of three to 32 bytes parses back to its bytes; a
  text token is cut at its first NUL, and comes back unless nothing is left.
 */
module Dictionary {
  import opened Bytes

  const MIN_AUTO_EXTRA := 3
  const MAX_AUTO_EXTRA := 32
  const MAX_LINE := 8192

  const NEWLINE: byte := 10
  const QUOTE: byte := 34
  const HASH: byte := 35
  const EQUALS: byte := 61
  const AT: byte := 64
  const BACKSLASH: byte := 92
  const UNDERSCORE: byte := 95
  const LETTER_X: byte := 120

  // ---------- the printer ----------

  /** A digit of a %02x conversion. */
  function HexDigit(n: nat): byte
    requires n < 16
  {
    if n < 10 then 48 + n else 87 + n
  }

  predicate MustEscape(b: byte) { b <= 31 || b >= 127 || b == QUOTE || b == BACKSLASH }

  function Escaped(b: byte): (s: seq<byte>)
    ensures |s| == if MustEscape(b) then 4 else 1
  {
    if MustEscape(b) then [BACKSLASH, LETTER_X, HexDigit(b / 16), HexDigit(b % 16)] else [b]
  }

  function Body(token: seq<byte>): (s: seq<byte>)
    ensures |s| <= 4 * |token|
  {
    if token == [] then [] else Escaped(token[0]) + Body(token[1..])
  }

  /** The bytes before the first NUL. */
  function UpToNul(s: seq<byte>): (r: seq<byte>)
    ensures |r| <= |s| && r == s[..|r|]
    ensures |r| < |s| ==> s[|r|] == 0
    ensures 0 !in r
  {
    if s == [] || s[0] == 0 then [] else [s[0]] + UpToNul(s[1..])
  }

  /** What is left of a token when it is printed. */
  function Kept(token: seq<byte>, isText: bool): seq<byte> {
    if isText then UpToNul(token) else token
  }

  function Line(token: seq<byte>): seq<byte> {
    [QUOTE] + Body(token) + [QUOTE, NEWLINE]
  }

  lemma {:induction false} BodyAppend(a: seq<byte>, b: byte)
    ensures Body(a + [b]) == Body(a) + Escaped(b)
  {
    if a == [] {
      assert a + [b] == [b];
      assert [b][1..] == [];
    } else {
      assert (a + [b])[1..] == a[1..] + [b];
      BodyAppend(a[1..], b);
    }
  }

  /** Appends one byte, escaped where needed; the terminating NUL of an escape lands behind it. */
  method PutEscaped(buf: array<byte>, pos: nat, b: byte) returns (pos': nat)
    requires pos + 4 < buf.Length
    modifies buf
    ensures pos' == pos + |Escaped(b)| && buf[..pos'] == old(buf[..pos]) + Escaped(b)
  {
    if MustEscape(b) {
      buf[pos], buf[pos + 1] := BACKSLASH, LETTER_X;
      buf[pos + 2], buf[pos + 3] := HexDigit(b / 16), HexDigit(b % 16);
      buf[pos + 4] := 0;
      pos' := pos + 4;
    } else {
      buf[pos] := b;
      pos' := pos + 1;
    }
    assert buf[..pos'] == old(buf[..pos]) + Escaped(b);
  }

  /** Prints a token through a fixed buffer, which never overflows. */
  method Dump(token: seq<byte>, isText: bool) returns (out: seq<byte>)
    ensures out == if 3 <= |token| <= 32 then Line(Kept(token, isText)) else []
  {
    if |token| < MIN_AUTO_EXTRA || |token| > MAX_AUTO_EXTRA { return []; }
    var buf := new byte[MAX_AUTO_EXTRA * 4 + 1];
    var i, pos := 0, 0;
    while i < |token|
      invariant 0 <= i <= |token| && 0 <= pos <= 4 * i
      invariant buf[..pos] == Body(token[..i])
      invariant isText ==> 0 !in token[..i]
    {
      if isText && token[i] == 0 { break; }
      assert token[..i + 1] == token[..i] + [token[i]];
      BodyAppend(token[..i], token[i]);
      pos := PutEscaped(buf, pos, token[i]);
      i := i + 1;
    }
    CutAt(token, i, isText);
    buf[pos] := 0;
    out := [QUOTE] + buf[..pos] + [QUOTE, NEWLINE];
  }

  lemma {:induction false} CutAt(token: seq<byte>, i: nat, isText: bool)
    requires i <= |token| && (isText ==> 0 !in token[..i])
    requires i < |token| ==> isText && token[i] == 0
    ensures Kept(token, isText) == token[..i]
    decreases i
  {
    if isText {
      var n := |UpToNul(token)|;
      assert n <= i;
    }
  }

  // ---------- the parser ----------

  predicate IsSpace(b: byte) { b == 32 || 9 <= b <= 13 }

  predicate IsDigit(b: byte) { 48 <= b <= 57 }

  predicate IsLabel(b: byte) { IsDigit(b) || 65 <= b <= 90 || 97 <= b <= 122 || b == UNDERSCORE }

  predicate IsGlue(b: byte) { IsSpace(b) || b == EQUALS }

  predicate IsHex(b: byte) { IsDigit(b) || 65 <= b <= 70 || 97 <= b <= 102 }

  function HexValue(b: byte): (n: nat)
    requires IsHex(b)
    ensures n < 16
  {
    if b <= 57 then b - 48 else if b <= 70 then b - 55 else b - 87
  }

  /** The first index from i on whose byte is not in the class. */
  function Skip(isOne: byte -> bool, s: seq<byte>, i: nat): (k: nat)
    requires i <= |s|
    ensures i <= k <= |s|
    ensures forall m | i <= m < k :: isOne(s[m])
    ensures k < |s| ==> !isOne(s[k])
    decreases |s| - i
  {
    if i < |s| && isOne(s[i]) then Skip(isOne, s, i + 1) else i
  }

  /** Where the text that starts at low ends when white space is cut off on the right. */
  function TrimRight(s: seq<byte>, low: nat, end: nat): (r: nat)
    requires low <= end <= |s|
    ensures low <= r <= end && (r > low ==> !IsSpace(s[r - 1]))
    ensures forall m | r <= m < end :: IsSpace(s[m])
    decreases end
  {
    if end > low && IsSpace(s[end - 1]) then TrimRight(s, low, end - 1) else end
  }

  function Digits(s: seq<byte>, i: nat, value: nat): nat
    requires i <= |s|
    decreases |s| - i
  {
    if i < |s| && IsDigit(s[i]) then Digits(s, i + 1, 10 * value + (s[i] - 48)) else value
  }

  /** atoi, for numbers that an int holds. */
  function Atoi(s: seq<byte>, i: nat): int
    requires i <= |s|
  {
    var k := Skip(IsSpace, s, i);
    if k < |s| && s[k] == 45 then 0 - (Digits(s, k + 1, 0) as int)
    else if k < |s| && s[k] == 43 then Digits(s, k + 1, 0)
    else Digits(s, k, 0)
  }

  datatype Complaint = NoClosingQuote | NoOpeningQuote | EmptyKeyword | NonPrintable | BadEscape | TooBig

  datatype Result<+T> = Ok(value: T) | Err(error: Complaint)

  /** A line holds a token, or nothing that counts, or it is malformed. */
  datatype Entry = Token(data: seq<byte>) | Nothing | Malformed(error: Complaint)

  /** The bytes between the quotes. */
  function Unescaped(s: seq<byte>, i: nat): (r: Result<seq<byte>>)
    requires i <= |s|
    decreases |s| - i
  {
    if i == |s| then Ok([])
    else if 1 <= s[i] <= 31 || s[i] >= 128 then Err(NonPrintable)
    else if s[i] != BACKSLASH then Prepend(s[i], Unescaped(s, i + 1))
    else if i + 1 < |s| && (s[i + 1] == BACKSLASH || s[i + 1] == QUOTE) then Prepend(s[i + 1], Unescaped(s, i + 2))
    else if i + 3 < |s| && s[i + 1] == LETTER_X && IsHex(s[i + 2]) && IsHex(s[i + 3]) then
      Prepend(16 * HexValue(s[i + 2]) + HexValue(s[i + 3]), Unescaped(s, i + 4))
    else Err(BadEscape)
  }

  function Prepend(b: byte, rest: Result<seq<byte>>): Result<seq<byte>> {
    match rest
    case Ok(s) => Ok([b] + s)
    case Err(e) => Err(e)
  }

  /** What a line is worth at a dictionary level. */
  function Parsed(line: seq<byte>, level: nat): Entry {
    var s := UpToNul(line);
    var left := Skip(IsSpace, s, 0);
    var right := TrimRight(s, left, |s|);
    if left == right || s[left] == HASH then Nothing
    else if s[right - 1] != QUOTE then Malformed(NoClosingQuote)
    else ParsedPair(s[..right - 1], left, level)
  }

  /** The line without its closing quote. */
  function ParsedPair(t: seq<byte>, left: nat, level: nat): Entry
    requires left <= |t|
  {
    var name := Skip(IsLabel, t, left);
    if name < |t| && t[name] == AT then
      if Atoi(t, name + 1) % 0x1_0000_0000 > level then Nothing
      else ParsedValue(t, Skip(IsGlue, t, Skip(IsDigit, t, name + 1)))
    else
      ParsedValue(t, Skip(IsGlue, t, name))
  }

  function ParsedValue(t: seq<byte>, k: nat): Entry
    requires k <= |t|
  {
    if k == |t| || t[k] != QUOTE then Malformed(NoOpeningQuote)
    else if k + 1 == |t| then Malformed(EmptyKeyword)
    else match Unescaped(t, k + 1)
      case Err(e) => Malformed(e)
      case Ok(data) => if |data| > MAX_DICT_FILE then Malformed(TooBig) else Token(data)
  }

  /** Advances over a class of bytes. */
  method Advance(isOne: byte -> bool, s: seq<byte>, i: nat) returns (k: nat)
    requires i <= |s|
    ensures k == Skip(isOne, s, i)
  {
    k := i;
    while k < |s| && isOne(s[k])
      invariant i <= k <= |s| && Skip(isOne, s, i) == Skip(isOne, s, k)
    {
      k := k + 1;
    }
  }

  function Joined(data: seq<byte>, r: Result<seq<byte>>): Result<seq<byte>> {
    match r
    case Ok(rest) => Ok(data + rest)
    case Err(e) => Err(e)
  }

  lemma JoinOne(data: seq<byte>, b: byte, r: Result<seq<byte>>)
    ensures Joined(data, Prepend(b, r)) == Joined(data + [b], r)
  {
    if r.Ok? { assert data + ([b] + r.value) == data + [b] + r.value; }
  }

  /** One byte of the keyword, undoing an escape. */
  method ReadByte(s: seq<byte>, i: nat) returns (b: Result<byte>, next: nat)
    requires i < |s|
    ensures i < next <= |s|
    ensures Unescaped(s, i) == match b { case Ok(v) => Prepend(v, Unescaped(s, next)) case Err(e) => Err(e) }
  {
    b, next := Ok(s[i]), i + 1;
    if 1 <= s[i] <= 31 || s[i] >= 128 {
      b := Err(NonPrintable);
    } else if s[i] == BACKSLASH {
      if i + 1 < |s| && (s[i + 1] == BACKSLASH || s[i + 1] == QUOTE) {
        b, next := Ok(s[i + 1]), i + 2;
      } else if i + 3 < |s| && s[i + 1] == LETTER_X && IsHex(s[i + 2]) && IsHex(s[i + 3]) {
        b, next := Ok(16 * HexValue(s[i + 2]) + HexValue(s[i + 3])), i + 4;
      } else {
        b := Err(BadEscape);
      }
    }
  }

  /** Copies the keyword byte by byte. */
  method ReadKeyword(s: seq<byte>, at: nat) returns (r: Result<seq<byte>>)
    requires at <= |s|
    ensures r == Unescaped(s, at)
  {
    var data: seq<byte>, i := [], at;
    JoinNothing(Unescaped(s, at));
    while i < |s|
      invariant at <= i <= |s|
      invariant Unescaped(s, at) == Joined(data, Unescaped(s, i))
      decreases |s| - i
    {
      var b, next := ReadByte(s, i);
      if b.Err? { return Err(b.error); }
      JoinOne(data, b.value, Unescaped(s, next));
      data, i := data + [b.value], next;
    }
    assert data + [] == data;
    r := Ok(data);
  }

  lemma JoinNothing(r: Result<seq<byte>>)
    ensures Joined([], r) == r
  {
    if r.Ok? { assert [] + r.value == r.value; }
  }

  method TrimLine(s: seq<byte>) returns (left: nat, right: nat)
    ensures left == Skip(IsSpace, s, 0) && right == TrimRight(s, left, |s|)
  {
    left := Advance(IsSpace, s, 0);
    right := |s|;
    while right > left && IsSpace(s[right - 1])
      invariant left <= right <= |s|
      invariant TrimRight(s, left, |s|) == TrimRight(s, left, right)
    {
      right := right - 1;
    }
  }

  method ParseLine(line: seq<byte>, level: nat) returns (e: Entry)
    ensures e == Parsed(line, level)
  {
    hide Unescaped, Skip, TrimRight, UpToNul, Atoi;
    var s := UpToNul(line);
    var left, right := TrimLine(s);
    if left == right || s[left] == HASH { return Nothing; }
    if s[right - 1] != QUOTE { return Malformed(NoClosingQuote); }
    e := ParsePair(s[..right - 1], left, level);
  }

  /** The label, the level, and the opening quote. */
  method ParsePair(t: seq<byte>, left: nat, level: nat) returns (e: Entry)
    requires left <= |t|
    ensures e == ParsedPair(t, left, level)
  {
    hide Unescaped, Skip, TrimRight, UpToNul, Atoi;
    var k := Advance(IsLabel, t, left);
    if k < |t| && t[k] == AT {
      k := k + 1;
      if Atoi(t, k) % 0x1_0000_0000 > level { return Nothing; }
      k := Advance(IsDigit, t, k);
    }
    k := Advance(IsGlue, t, k);
    if k == |t| || t[k] != QUOTE { return Malformed(NoOpeningQuote); }
    k := k + 1;
    if k == |t| { return Malformed(EmptyKeyword); }
    var r := ReadKeyword(t, k);
    match r {
      case Err(c) => e := Malformed(c);
      case Ok(data) => e := if |data| > MAX_DICT_FILE then Malformed(TooBig) else Token(data);
    }
  }

  // ---------- round trip ----------

  lemma HexDigits(b: byte)
    ensures var h, l := HexDigit(b / 16), HexDigit(b % 16);
            IsHex(h) && IsHex(l) && 16 * HexValue(h) + HexValue(l) == b
  {}

  lemma {:induction false} BodyHasNoNul(token: seq<byte>)
    ensures 0 !in Body(token)
  {
    if token != [] {
      BodyHasNoNul(token[1..]);
      HexDigits(token[0]);
    }
  }

  lemma UnescapeOne(b: byte, rest: seq<byte>, s: seq<byte>, i: nat)
    requires i <= |s| && s[i..] == Escaped(b) + rest
    ensures var next := i + |Escaped(b)|;
            next <= |s| && s[next..] == rest && Unescaped(s, i) == Prepend(b, Unescaped(s, next))
  {
    var e := Escaped(b);
    HexDigits(b);
    assert |s[i..]| == |e| + |rest|;
    forall k | 0 <= k < |e|
      ensures s[i + k] == e[k]
    {
      assert s[i..][k] == (e + rest)[k];
    }
    assert s[i..][|e|..] == rest;
  }

  /** Undoing the escapes gives the token back. */
  lemma {:induction false} UnescapeBody(token: seq<byte>, s: seq<byte>, i: nat)
    requires i <= |s| && s[i..] == Body(token)
    ensures Unescaped(s, i) == Ok(token)
    decreases |token|
  {
    hide Escaped;
    if token != [] {
      UnescapeOne(token[0], Body(token[1..]), s, i);
      UnescapeBody(token[1..], s, i + |Escaped(token[0])|);
      assert token == [token[0]] + token[1..];
    }
  }

  lemma {:induction false} WholeString(s: seq<byte>)
    requires 0 !in s
    ensures UpToNul(s) == s
  {
    var n := |UpToNul(s)|;
    if n < |s| { assert false; }
  }

  /** A printed line parses to the bytes that were printed; there must be some. */
  lemma LineParses(token: seq<byte>, level: nat)
    requires |token| <= MAX_DICT_FILE
    ensures Parsed(Line(token), level) == if token == [] then Malformed(EmptyKeyword) else Token(token)
  {
    hide Unescaped, Body, UpToNul, ParsedPair;
    var s := Line(token);
    BodyHasNoNul(token);
    WholeString(s);
    assert TrimRight(s, 0, |s|) == TrimRight(s, 0, |s| - 1) == |s| - 1;
    var t := s[..|s| - 2];
    assert t == [QUOTE] + Body(token);
    QuotedBodyParses(token, t, level);
  }

  lemma QuotedBodyParses(token: seq<byte>, t: seq<byte>, level: nat)
    requires t == [QUOTE] + Body(token) && |token| <= MAX_DICT_FILE
    ensures ParsedPair(t, 0, level) == if token == [] then Malformed(EmptyKeyword) else Token(token)
  {
    hide Unescaped, Body;
    assert t[1..] == Body(token);
    UnescapeBody(token, t, 1);
    BodyEmpty(token);
  }

  lemma BodyEmpty(token: seq<byte>)
    ensures Body(token) == [] <==> token == []
  {}

  /** What a token prints comes back without loss, unless it is a text token that starts with NUL. */
  lemma DumpedTokenParses(token: seq<byte>, isText: bool, level: nat)
    requires MIN_AUTO_EXTRA <= |token| <= MAX_AUTO_EXTRA
    ensures Parsed(Line(Kept(token, isText)), level)
         == if isText && token[0] == 0 then Malformed(EmptyKeyword) else Token(Kept(token, isText))
  {
    LineParses(Kept(token, isText), level);
  }

  // ---------- whole files ----------

  /** How much of a file one call of fgets reads: up to a newline or a full line buffer. */
  function LineLength(file: seq<byte>): (n: nat)
    requires file != []
    ensures 1 <= n <= |file|
  {
    var k := Skip((b: byte) => b != NEWLINE, file, 0);
    Min(Min(k + 1, MAX_LINE - 1), |file|)
  }

  /** The tokens of a file, or the first complaint. */
  function Loaded(file: seq<byte>, level: nat): Result<seq<seq<byte>>>
    decreases |file|
  {
    if file == [] then Ok([])
    else
      var n := LineLength(file);
      match Parsed(file[..n], level)
      case Malformed(e) => Err(e)
      case Nothing => Loaded(file[n..], level)
      case Token(data) => Added(data, Loaded(file[n..], level))
  }

  function Added(token: seq<byte>, rest: Result<seq<seq<byte>>>): Result<seq<seq<byte>>> {
    match rest
    case Ok(ts) => Ok([token] + ts)
    case Err(e) => Err(e)
  }

  function Together(ts: seq<seq<byte>>, r: Result<seq<seq<byte>>>): Result<seq<seq<byte>>> {
    match r
    case Ok(more) => Ok(ts + more)
    case Err(e) => Err(e)
  }

  lemma TogetherOne(ts: seq<seq<byte>>, t: seq<byte>, r: Result<seq<seq<byte>>>)
    ensures Together([], r) == r && Together(ts, Added(t, r)) == Together(ts + [t], r)
  {
    if r.Ok? {
      assert [] + r.value == r.value;
      assert ts + ([t] + r.value) == ts + [t] + r.value;
    }
  }

  /** Reads a dictionary file line by line; the first malformed line ends everything. */
  method LoadFile(file: seq<byte>, level: nat) returns (r: Result<seq<seq<byte>>>)
    ensures r == Loaded(file, level)
  {
    hide Parsed, LineLength;
    var extras: seq<seq<byte>>, rest := [], file;
    TogetherOne([], [], Loaded(file, level));
    while rest != []
      invariant Loaded(file, level) == Together(extras, Loaded(rest, level))
      decreases |rest|
    {
      var n := LineLength(rest);
      var e := ParseLine(rest[..n], level);
      match e {
        case Malformed(c) => return Err(c);
        case Nothing =>
        case Token(data) =>
          TogetherOne(extras, data, Loaded(rest[n..], level));
          extras := extras + [data];
      }
      rest := rest[n..];
    }
    assert extras + [] == extras;
    r := Ok(extras);
  }

  /** A token that was met, and whether a string function met it. */
  datatype Capture = Capture(token: seq<byte>, isText: bool)

  predicate Printed(c: Capture) { MIN_AUTO_EXTRA <= |c.token| <= MAX_AUTO_EXTRA }

  /** The file that capturing writes. */
  function CaptureFile(cs: seq<Capture>): seq<byte> {
    if cs == [] then []
    else (if Printed(cs[0]) then Line(Kept(cs[0].token, cs[0].isText)) else []) + CaptureFile(cs[1..])
  }

  /** The tokens the file should hold; a text token that starts with NUL spoils it. */
  function Expected(cs: seq<Capture>): Result<seq<seq<byte>>> {
    if cs == [] then Ok([])
    else if !Printed(cs[0]) then Expected(cs[1..])
    else
      var data := Kept(cs[0].token, cs[0].isText);
      if data == [] then Err(EmptyKeyword) else Added(data, Expected(cs[1..]))
  }

  lemma {:induction false} BodyHasNoNewline(token: seq<byte>)
    ensures NEWLINE !in Body(token)
  {
    if token != [] {
      BodyHasNoNewline(token[1..]);
      HexDigits(token[0]);
    }
  }

  lemma {:induction false} SkipTo(isOne: byte -> bool, s: seq<byte>, i: nat, k: nat)
    requires i <= k < |s| && !isOne(s[k]) && forall m | i <= m < k :: isOne(s[m])
    ensures Skip(isOne, s, i) == k
    decreases k - i
  {
    if i < k { SkipTo(isOne, s, i + 1, k); }
  }

  /** A printed line is read in one piece. */
  lemma LineReads(token: seq<byte>, rest: seq<byte>)
    requires |token| <= MAX_DICT_FILE
    ensures var l := Line(token); LineLength(l + rest) == |l| && (l + rest)[..|l|] == l && (l + rest)[|l|..] == rest
  {
    var l := Line(token);
    var file := l + rest;
    BodyHasNoNewline(token);
    var other := (b: byte) => b != NEWLINE;
    forall m | 0 <= m < |l| - 1
      ensures file[m] != NEWLINE
    {
      assert file[m] == l[m];
      if 1 <= m < |l| - 2 { assert l[m] == Body(token)[m - 1]; }
    }
    assert file[|l| - 1] == NEWLINE;
    SkipTo(other, file, 0, |l| - 1);
  }

  /** A captured file loads to exactly the captured tokens, or fails at the first one that was printed empty. */
  lemma {:induction false} CaptureFileLoads(cs: seq<Capture>, level: nat)
    ensures Loaded(CaptureFile(cs), level) == Expected(cs)
  {
    hide Parsed, LineLength, Line, Kept;
    if cs != [] {
      CaptureFileLoads(cs[1..], level);
      var rest := CaptureFile(cs[1..]);
      if Printed(cs[0]) {
        var data := Kept(cs[0].token, cs[0].isText);
        KeptLength(cs[0].token, cs[0].isText);
        LineReads(data, rest);
        LineParses(data, level);
      } else {
        assert CaptureFile(cs) == rest;
      }
    }
  }

  lemma KeptLength(token: seq<byte>, isText: bool)
    ensures |Kept(token, isText)| <= |token| && Line(Kept(token, isText)) != []
  {}
}
