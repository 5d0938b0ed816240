/** What is left of a byte string when bytes are deleted. */
module Subsequences {
  import opened Bytes

  /** s is what is left of t after deleting bytes anywhere. */
  ghost predicate Subsequence(s: seq<byte>, t: seq<byte>)
    decreases |t|
  {
    if t == [] then s == []
    else (s != [] && s[0] == t[0] && Subsequence(s[1..], t[1..])) || Subsequence(s, t[1..])
  }

  lemma {:induction false} SubsequenceSelf(s: seq<byte>)
    ensures Subsequence(s, s)
    decreases |s|
  {
    if s != [] { SubsequenceSelf(s[1..]); }
  }

  lemma {:induction false} SubsequenceTrans(s: seq<byte>, t: seq<byte>, u: seq<byte>)
    requires Subsequence(s, t) && Subsequence(t, u)
    ensures Subsequence(s, u)
    decreases |t| + |u|
  {
    if u != [] {
      if Subsequence(t, u[1..]) {
        SubsequenceTrans(s, t, u[1..]);
      } else if Subsequence(s, t[1..]) {
        SubsequenceTrans(s, t[1..], u[1..]);
      } else {
        SubsequenceTrans(s[1..], t[1..], u[1..]);
      }
    }
  }

  lemma Keep(b: byte, s: seq<byte>, t: seq<byte>)
    requires Subsequence(s, t)
    ensures Subsequence([b] + s, [b] + t)
  {
    assert ([b] + s)[1..] == s && ([b] + t)[1..] == t;
  }

  lemma {:induction false} KeepAll(a: seq<byte>, s: seq<byte>, t: seq<byte>)
    requires Subsequence(s, t)
    ensures Subsequence(a + s, a + t)
  {
    if a == [] {
      assert a + s == s && a + t == t;
    } else {
      KeepAll(a[1..], s, t);
      Keep(a[0], a[1..] + s, a[1..] + t);
      assert a + s == [a[0]] + (a[1..] + s) && a + t == [a[0]] + (a[1..] + t);
    }
  }

  lemma {:induction false} DropAll(a: seq<byte>, s: seq<byte>, t: seq<byte>)
    requires Subsequence(s, t)
    ensures Subsequence(s, a + t)
  {
    if a == [] {
      assert a + t == t;
    } else {
      DropAll(a[1..], s, t);
      assert (a + t)[1..] == a[1..] + t;
    }
  }
}
