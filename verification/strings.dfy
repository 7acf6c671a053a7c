/**
 * The two pieces of JavaScript's string library the chat code relies on:
 * `String.prototype.trim` and `String.prototype.split` on a one-character
 * separator.
 */
module Strings {
  import opened Sequences

  /** The code points ECMAScript counts as WhiteSpace or LineTerminator,
      which is exactly what `trim` strips from both ends. */
  const Whitespace: set<char> := {
    '\t', '\n', '\U{000B}', '\U{000C}', '\r', ' ', '\U{00A0}', '\U{1680}',
    '\U{2000}', '\U{2001}', '\U{2002}', '\U{2003}', '\U{2004}', '\U{2005}',
    '\U{2006}', '\U{2007}', '\U{2008}', '\U{2009}', '\U{200A}',
    '\U{2028}', '\U{2029}', '\U{202F}', '\U{205F}', '\U{3000}', '\U{FEFF}'
  }

  predicate IsWhitespace(c: char) {
    c in Whitespace
  }

  /** Every character of `s` is whitespace (the empty string included). */
  predicate IsBlank(s: string) {
    forall i :: 0 <= i < |s| ==> IsWhitespace(s[i])
  }

  /** The number of whitespace characters `s` starts with. */
  function LeadingBlank(s: string): (n: nat)
    ensures n <= |s|
    ensures forall k :: 0 <= k < n ==> IsWhitespace(s[k])
    ensures n < |s| ==> !IsWhitespace(s[n])
  {
    if |s| > 0 && IsWhitespace(s[0]) then
      var n := 1 + LeadingBlank(s[1..]);
      assert forall k :: 1 <= k < n ==> s[k] == s[1..][k - 1];
      n
    else
      0
  }

  /** The number of whitespace characters `s` ends with. */
  function TrailingBlank(s: string): (n: nat)
    ensures n <= |s|
    ensures forall k :: |s| - n <= k < |s| ==> IsWhitespace(s[k])
    ensures n < |s| ==> !IsWhitespace(s[|s| - n - 1])
  {
    if |s| > 0 && IsWhitespace(s[|s| - 1]) then
      var n := 1 + TrailingBlank(s[..|s| - 1]);
      assert forall k :: |s| - n <= k < |s| - 1 ==> s[k] == s[..|s| - 1][k];
      n
    else
      0
  }

  /** JavaScript's `s.trim()`: whitespace removed from both ends, so the result
      neither starts nor ends with whitespace, and it is empty exactly when `s`
      is blank. `TrimSlice` shows it is the middle of `s`. */
  function Trim(s: string): (r: string)
    ensures |r| > 0 ==> !IsWhitespace(r[0]) && !IsWhitespace(r[|r| - 1])
    ensures r == [] <==> IsBlank(s)
  {
    var i := LeadingBlank(s);
    var j := |s| - TrailingBlank(s);
    if j <= i then
      assert i == |s|;
      []
    else
      s[i..j]
  }

  /** What `Trim` removes is a blank prefix and a blank suffix of `s`. */
  lemma TrimSlice(s: string) returns (i: nat)
    ensures i + |Trim(s)| <= |s|
    ensures Trim(s) == s[i..i + |Trim(s)|]
    ensures IsBlank(s[..i]) && IsBlank(s[i + |Trim(s)|..])
  {
    i := LeadingBlank(s);
    var j := |s| - TrailingBlank(s);
    if j <= i {
      i := |s|;
      assert Trim(s) == [];
    } else {
      assert Trim(s) == s[i..j];
      assert forall k :: 0 <= k < |s| - j ==> s[j..][k] == s[j + k];
    }
  }

  /** Trimming text that is blank, then a piece with non-whitespace ends, then
      anything, keeps that piece at the front. */
  lemma TrimKeepsPiece(lead: string, p: string, rest: string)
    requires IsBlank(lead)
    requires |p| > 0 && !IsWhitespace(p[0]) && !IsWhitespace(p[|p| - 1])
    ensures p <= Trim(lead + p + rest)
  {
    var s := lead + p + rest;
    var i := LeadingBlank(s);
    assert s[|lead|] == p[0];
    assert i == |lead|;
    var last := |lead| + |p| - 1;
    assert s[last] == p[|p| - 1];
    var j := |s| - TrailingBlank(s);
    assert last < j;
    assert Trim(s) == s[i..j];
    assert s[i..i + |p|] == p;
  }

  /** Joins pieces with the separator between consecutive pieces
      (the inverse of `Split`). */
  function Join(parts: seq<string>, d: char): string
    requires |parts| >= 1
  {
    if |parts| == 1 then parts[0] else parts[0] + [d] + Join(parts[1..], d)
  }

  /** Joining a concatenation puts one separator between the two joins. */
  lemma {:induction false} JoinAppend(a: seq<string>, b: seq<string>, d: char)
    requires |a| >= 1 && |b| >= 1
    ensures Join(a + b, d) == Join(a, d) + [d] + Join(b, d)
  {
    if |a| > 1 {
      JoinAppend(a[1..], b, d);
      assert (a + b)[1..] == a[1..] + b;
    } else {
      assert (a + b)[1..] == b;
    }
  }

  /** JavaScript's `s.split(d)` for a single character `d`: the maximal
      separator-free pieces, at least one (`"".split(d)` is `[""]`);
      `JoinSplit` shows `Join` glues them back into `s`. */
  function Split(s: string, d: char): (r: seq<string>)
    ensures |r| >= 1
    ensures forall i :: 0 <= i < |r| ==> d !in r[i]
  {
    if |s| == 0 then
      [""]
    else
      var rest := Split(s[1..], d);
      if s[0] == d then
        var r := [""] + rest;
        assert r[1..] == rest;
        r
      else
        var r := [[s[0]] + rest[0]] + rest[1..];
        assert r[1..] == rest[1..];
        r
  }

  /** `Join` undoes `Split`: nothing of the text is lost in the pieces. */
  lemma {:induction false} JoinSplit(s: string, d: char)
    ensures Join(Split(s, d), d) == s
  {
    if |s| > 0 {
      var rest := Split(s[1..], d);
      JoinSplit(s[1..], d);
      assert s == [s[0]] + s[1..];
      if s[0] == d {
        var r := [""] + rest;
        assert r[1..] == rest;
      } else {
        var r := [[s[0]] + rest[0]] + rest[1..];
        assert r[1..] == rest[1..];
        if |rest| > 1 {
          assert Join(rest, d) == rest[0] + [d] + Join(rest[1..], d);
        }
      }
    }
  }

  /** Position of the first occurrence of `c` in `s`. */
  function FirstIndexOf(s: string, c: char): (k: nat)
    requires c in s
    ensures k < |s| && s[k] == c && c !in s[..k]
  {
    if s[0] == c then 0
    else
      var k := 1 + FirstIndexOf(s[1..], c);
      assert s[..k] == [s[0]] + s[1..][..k - 1];
      k
  }

  /** The first occurrence is pinned down by a separator-free prefix. */
  lemma FirstIndexAfterPlain(a: string, s: string, c: char)
    requires c !in a && |a| < |s| && s[..|a|] == a && s[|a|] == c
    ensures FirstIndexOf(s, c) == |a|
  {
  }

  /** The second piece of a split is the text between the first occurrence
      of the separator and the next one (or the end). */
  lemma SplitSecond(s: string, d: char)
    requires d in s
    ensures |Split(s, d)| >= 2
    ensures var k := FirstIndexOf(s, d); var v := Split(s, d)[1];
      && v <= s[k + 1..]
      && (k + 1 + |v| == |s| || s[k + 1 + |v|] == d)
  {
    var k := FirstIndexOf(s, d);
    SplitAtFirst(s, d, k);
    SplitHead(s[k + 1..], d);
  }

  lemma SplitAtFirst(s: string, d: char, k: nat)
    requires k < |s| && s[k] == d && d !in s[..k]
    ensures |Split(s, d)| >= 2 && Split(s, d)[1] == Split(s[k + 1..], d)[0]
  {
    assert s == s[..k] + s[k..];
    assert s[k..][1..] == s[k + 1..];
    SplitPastSeparator(s[..k], s[k..], d);
  }

  /** After a separator-free prefix and a separator, the second piece is the
      first piece of what follows. */
  lemma SplitPastSeparator(a: string, t: string, d: char)
    requires d !in a && |t| > 0 && t[0] == d
    ensures |Split(a + t, d)| >= 2 && Split(a + t, d)[1] == Split(t[1..], d)[0]
  {
    SplitAfterPlain(a, t, d);
    SplitAtSeparator(t, d);
  }

  /** The first piece of a split is the longest separator-free prefix. */
  lemma {:induction false} SplitHead(s: string, d: char)
    ensures Split(s, d)[0] <= s
    ensures |Split(s, d)[0]| == |s| || s[|Split(s, d)[0]|] == d
  {
    if |s| > 0 && s[0] != d {
      SplitHead(s[1..], d);
    }
  }

  /** A string that contains the separator splits into at least two pieces. */
  lemma {:induction false} SplitCount(s: string, d: char)
    requires d in s
    ensures |Split(s, d)| >= 2
  {
    if s[0] != d {
      SplitCount(s[1..], d);
    }
  }

  /** A separator-free prefix merges into the first piece of what follows it. */
  lemma {:induction false} SplitAfterPlain(a: string, rest: string, d: char)
    requires d !in a
    ensures Split(a + rest, d) == [a + Split(rest, d)[0]] + Split(rest, d)[1..]
  {
    if a != [] {
      var S := Split(rest, d);
      assert (a + rest)[0] == a[0];
      assert (a + rest)[1..] == a[1..] + rest;
      SplitAfterPlain(a[1..], rest, d);
      var R := Split(a[1..] + rest, d);
      assert R[0] == a[1..] + S[0];
      assert R[1..] == S[1..];
      assert Split(a + rest, d) == [[a[0]] + R[0]] + R[1..];
      assert [a[0]] + (a[1..] + S[0]) == a + S[0];
    } else {
      var S := Split(rest, d);
      assert a + rest == rest;
      assert a + S[0] == S[0];
      assert [S[0]] + S[1..] == S;
    }
  }

  /** Splitting a join gives the pieces back, followed by whatever a trailing
      text that starts with the separator splits into. With an empty `rest`
      this is `Split(Join(parts, d), d) == parts`. */
  lemma {:induction false} SplitJoinThen(parts: seq<string>, rest: string, d: char)
    requires |parts| >= 1
    requires forall i :: 0 <= i < |parts| ==> d !in parts[i]
    requires rest == [] || rest[0] == d
    ensures Split(Join(parts, d) + rest, d) == parts + Split(rest, d)[1..]
  {
    if |parts| == 1 {
      SplitOneThen(parts[0], rest, d);
      assert parts == [parts[0]];
    } else {
      assert forall i :: 0 <= i < |parts[1..]| ==> parts[1..][i] == parts[i + 1];
      SplitJoinThen(parts[1..], rest, d);
      SplitJoinThenStep(parts, rest, d);
    }
  }

  /** The inductive step of `SplitJoinThen`: one more piece in front. */
  lemma SplitJoinThenStep(parts: seq<string>, rest: string, d: char)
    requires |parts| >= 2 && d !in parts[0]
    requires Split(Join(parts[1..], d) + rest, d) == parts[1..] + Split(rest, d)[1..]
    ensures Split(Join(parts, d) + rest, d) == parts + Split(rest, d)[1..]
  {
    var tail := Join(parts[1..], d) + rest;
    var more := Split(rest, d)[1..];
    JoinThenCons(parts, rest, d);
    SplitConsPiece(parts[0], tail, d);
    assert Split(tail, d) == parts[1..] + more;
    ConsAppend(parts, more);
  }

  lemma JoinThenCons(parts: seq<string>, rest: string, d: char)
    requires |parts| >= 2
    ensures Join(parts, d) + rest == parts[0] + ([d] + (Join(parts[1..], d) + rest))
  {
  }

  lemma SplitOneThen(p: string, rest: string, d: char)
    requires d !in p
    requires rest == [] || rest[0] == d
    ensures Split(p + rest, d) == [p] + Split(rest, d)[1..]
  {
    var S := Split(rest, d);
    SplitAfterPlain(p, rest, d);
    if rest != [] {
      SplitAtSeparator(rest, d);
    }
    assert S[0] == "";
    assert p + S[0] == p;
  }

  lemma SplitConsPiece(p: string, tail: string, d: char)
    requires d !in p
    ensures Split(p + ([d] + tail), d) == [p] + Split(tail, d)
  {
    SplitAfterPlain(p, [d] + tail, d);
    SplitAtSeparator([d] + tail, d);
    assert ([d] + tail)[1..] == tail;
    assert p + "" == p;
  }

  /** A leading separator splits off an empty first piece. */
  lemma SplitAtSeparator(s: string, d: char)
    requires |s| > 0 && s[0] == d
    ensures Split(s, d) == [""] + Split(s[1..], d)
  {
  }

  /** `Split` is a right inverse of `Join` on separator-free pieces. */
  lemma SplitJoin(parts: seq<string>, d: char)
    requires |parts| >= 1
    requires forall i :: 0 <= i < |parts| ==> d !in parts[i]
    ensures Split(Join(parts, d), d) == parts
  {
    SplitJoinThen(parts, [], d);
    assert Join(parts, d) + [] == Join(parts, d);
  }
}
