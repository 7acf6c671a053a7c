/**
 * Reading the session token out of a WebSocket upgrade request's `Cookie`
 * header (`getUserDataFromCookie` in api/index.js). The header is split on
 * `;`, the first piece whose trimmed form starts with `token=` is chosen, and
 * the token is the text after that piece's first `=` up to the next `=`.
 * Verifying the token is the job of a foreign library, so it is a parameter.
 */
module CookieToken {
  import opened Wrappers
  import opened Strings
  import opened Domain
  import opened Sequences

  const TokenPrefix: string := "token="

  /** A `;`-separated piece of the header that, once trimmed, starts with `token=`. */
  predicate IsTokenSegment(seg: string) {
    TokenPrefix <= Trim(seg)
  }

  /** Piece `i` is a token piece and no earlier piece is. */
  predicate FirstTokenAt(segs: seq<string>, i: int) {
    && 0 <= i < |segs|
    && IsTokenSegment(segs[i])
    && forall j :: 0 <= j < i ==> !IsTokenSegment(segs[j])
  }

  /** An empty string counts as no token (`if (!token) return null`). */
  function NonEmpty(v: string): Option<string> {
    if v == "" then None else Some(v)
  }

  /** `segs.find(...)` with the token-piece test: the first match, if any. */
  function FindTokenSegment(segs: seq<string>): (r: Option<nat>)
    ensures r.Some? ==> FirstTokenAt(segs, r.value)
    ensures r.None? ==> forall j :: 0 <= j < |segs| ==> !IsTokenSegment(segs[j])
  {
    if |segs| == 0 then
      None
    else if IsTokenSegment(segs[0]) then
      Some(0)
    else
      match FindTokenSegment(segs[1..])
      case None =>
        NoTokenBehind(segs);
        None
      case Some(i) =>
        FirstTokenBehind(segs, i);
        Some(i + 1)
  }

  lemma NoTokenBehind(segs: seq<string>)
    requires |segs| > 0 && !IsTokenSegment(segs[0])
    requires forall j :: 0 <= j < |segs[1..]| ==> !IsTokenSegment(segs[1..][j])
    ensures forall j :: 0 <= j < |segs| ==> !IsTokenSegment(segs[j])
  {
    assert forall j :: 1 <= j < |segs| ==> segs[j] == segs[1..][j - 1];
  }

  lemma FirstTokenBehind(segs: seq<string>, i: nat)
    requires |segs| > 0 && !IsTokenSegment(segs[0])
    requires FirstTokenAt(segs[1..], i)
    ensures FirstTokenAt(segs, i + 1)
  {
    assert forall j :: 1 <= j <= i + 1 ==> segs[j] == segs[1..][j - 1];
  }

  /** A token piece contains an `=`: the one that ends `token=`. */
  lemma TokenSegmentHasEquals(seg: string)
    requires IsTokenSegment(seg)
    ensures '=' in seg
  {
    var i := TrimSlice(seg);
    assert seg[i + 5] == Trim(seg)[5];
  }

  /** `seg.split("=")[1]`: the text between the piece's first `=` and the
      next `=` (or the end of the piece). */
  function SegmentValue(seg: string): (v: string)
    requires IsTokenSegment(seg)
    ensures '=' in seg && '=' !in v
    ensures var k := FirstIndexOf(seg, '=');
      && v <= seg[k + 1..]
      && (k + 1 + |v| == |seg| || seg[k + 1 + |v|] == '=')
  {
    TokenSegmentHasEquals(seg);
    SplitSecond(seg, '=');
    Split(seg, '=')[1]
  }

  /** The token in a `Cookie` header, or `None` when the header is missing,
      no piece is a token piece, or the first token piece has an empty value.
      A later token piece is never consulted. */
  function ExtractToken(cookie: Option<string>): (r: Option<string>)
    ensures cookie.None? ==> r.None?
    ensures r.Some? ==> r.value != "" && '=' !in r.value && ';' !in r.value
    ensures cookie.Some? && (forall j :: 0 <= j < |Split(cookie.value, ';')| ==> !IsTokenSegment(Split(cookie.value, ';')[j]))
      ==> r.None?
    ensures cookie.Some? ==> forall i :: FirstTokenAt(Split(cookie.value, ';'), i) ==>
      r == NonEmpty(SegmentValue(Split(cookie.value, ';')[i]))
  {
    if cookie.None? then
      None
    else if cookie.value == "" then
      EmptyHeaderHasNoToken();
      None
    else
      var segs := Split(cookie.value, ';');
      match FindTokenSegment(segs)
      case None => None
      case Some(i) =>
        var v := SegmentValue(segs[i]);
        ValueWithin(segs[i]);
        FirstTokenUnique(segs, i);
        NonEmpty(v)
  }

  lemma EmptyHeaderHasNoToken()
    ensures forall j :: 0 <= j < |Split("", ';')| ==> !IsTokenSegment(Split("", ';')[j])
  {
    assert Split("", ';') == [""];
    assert Trim("") == "";
  }

  /** There is at most one first token piece. */
  lemma FirstTokenUnique(segs: seq<string>, i: nat)
    requires FirstTokenAt(segs, i)
    ensures forall j :: FirstTokenAt(segs, j) ==> j == i
  {
  }

  /** The value is a piece of its segment, so it holds only the segment's characters. */
  lemma ValueWithin(seg: string)
    requires IsTokenSegment(seg)
    ensures forall c :: c in SegmentValue(seg) ==> c in seg
  {
    var v := SegmentValue(seg);
    var k := FirstIndexOf(seg, '=');
    forall c | c in v ensures c in seg {
      var m :| 0 <= m < |v| && v[m] == c;
      assert seg[k + 1 + m] == c;
    }
  }

  /** `getUserDataFromCookie`: the verified identity behind the header's token.
      `verify` stands for `jwt.verify` with the server's secret, which yields
      `None` where the library throws. It is only ever asked about a token
      `ExtractToken` found. */
  function UserDataFromCookie(cookie: Option<string>, verify: string -> Option<Identity>): (r: Option<Identity>)
    ensures ExtractToken(cookie).Some? ==> r == verify(ExtractToken(cookie).value)
    ensures ExtractToken(cookie).None? ==> r.None?
  {
    match ExtractToken(cookie)
    case None => None
    case Some(token) => verify(token)
  }

  /** Whitespace contains neither separator. */
  lemma BlankHasNoSeparators(s: string)
    requires IsBlank(s)
    ensures ';' !in s && '=' !in s
  {
  }

  /** The piece `lead token=<t><tail>`, with blank `lead` and a `tail` that is
      empty or starts at the next `=`, carries exactly `t`. */
  lemma ValueOfBuiltSegment(lead: string, t: string, tail: string)
    requires IsBlank(lead)
    requires '=' !in t
    requires tail == "" || tail[0] == '='
    ensures IsTokenSegment(lead + TokenPrefix + t + tail)
    ensures SegmentValue(lead + TokenPrefix + t + tail) == t
  {
    var seg := lead + TokenPrefix + t + tail;
    assert seg == lead + TokenPrefix + (t + tail);
    TrimKeepsPiece(lead, TokenPrefix, t + tail);
    var k := BuiltSegmentEquals(lead, t + tail);
    ValueBeforeNextEquals(seg, k, t, tail);
  }

  /** In `lead token=...` the first `=` is the one of `token=`. */
  lemma BuiltSegmentEquals(lead: string, after: string) returns (k: nat)
    requires IsBlank(lead)
    ensures k == |lead| + 5
    ensures '=' in lead + TokenPrefix + after
    ensures FirstIndexOf(lead + TokenPrefix + after, '=') == k
    ensures (lead + TokenPrefix + after)[k + 1..] == after
  {
    var seg := lead + TokenPrefix + after;
    BlankHasNoSeparators(lead);
    var a := lead + "token";
    assert seg[..|a|] == a && seg[|a|] == '=';
    FirstIndexAfterPlain(a, seg, '=');
    k := |a|;
  }

  /** A value that runs from just after the first `=` to the next `=` is the
      `=`-free text found there. */
  lemma ValueBeforeNextEquals(seg: string, k: nat, t: string, tail: string)
    requires IsTokenSegment(seg) && '=' in seg
    requires FirstIndexOf(seg, '=') == k && seg[k + 1..] == t + tail
    requires '=' !in t && (tail == "" || tail[0] == '=')
    ensures SegmentValue(seg) == t
  {
    var v := SegmentValue(seg);
    var w := seg[k + 1..];
    assert forall m :: 0 <= m < |t| ==> w[m] == t[m] && w[m] != '=';
    assert |w| > |t| ==> w[|t|] == '=';
    assert forall m :: 0 <= m < |v| ==> v[m] == w[m];
    assert |v| == |t|;
  }

  /** Round trip: a header made of pieces without a token piece, then the
      piece `lead token=<t><tail>`, then anything at all after a `;`, yields
      `t` (or nothing when `t` is empty). The first token piece wins even when
      later pieces carry other tokens. */
  lemma {:induction false} ExtractBuiltCookie(pre: seq<string>, lead: string, t: string, tail: string, rest: string)
    requires forall i :: 0 <= i < |pre| ==> ';' !in pre[i] && !IsTokenSegment(pre[i])
    requires IsBlank(lead)
    requires ';' !in t && '=' !in t
    requires ';' !in tail && (tail == "" || tail[0] == '=')
    requires rest == "" || rest[0] == ';'
    ensures ExtractToken(Some(Join(pre + [lead + TokenPrefix + t + tail], ';') + rest)) == NonEmpty(t)
  {
    var seg := lead + TokenPrefix + t + tail;
    var parts := pre + [seg];
    var c := Join(parts, ';') + rest;
    BlankHasNoSeparators(lead);
    assert ';' !in seg;
    assert forall i :: 0 <= i < |parts| ==> ';' !in parts[i];
    SplitJoinThen(parts, rest, ';');
    var segs := Split(c, ';');
    assert segs[|pre|] == seg;
    assert forall j :: 0 <= j < |pre| ==> segs[j] == pre[j];
    ValueOfBuiltSegment(lead, t, tail);
    assert FirstTokenAt(segs, |pre|);
  }

  /** Converse of `ExtractBuiltCookie`: every header a token is extracted
      from has that shape, so the shape characterises extraction exactly. */
  lemma ExtractedTokenShape(c: string, t: string) returns (pre: seq<string>, lead: string, tail: string, rest: string)
    requires ExtractToken(Some(c)) == Some(t)
    ensures forall i :: 0 <= i < |pre| ==> ';' !in pre[i] && !IsTokenSegment(pre[i])
    ensures IsBlank(lead)
    ensures ';' !in tail && (tail == "" || tail[0] == '=')
    ensures rest == "" || rest[0] == ';'
    ensures c == Join(pre + [lead + TokenPrefix + t + tail], ';') + rest
  {
    var segs, i := ExtractedPiece(c, t);
    JoinSplit(c, ';');
    pre, rest := JoinAround(segs, i, ';');
    lead, tail := SegmentShape(segs[i], t);
  }

  /** An extracted token comes from the first token piece of the header. */
  lemma ExtractedPiece(c: string, t: string) returns (segs: seq<string>, i: nat)
    requires ExtractToken(Some(c)) == Some(t)
    ensures segs == Split(c, ';') && FirstTokenAt(segs, i)
    ensures SegmentValue(segs[i]) == t
  {
    segs := Split(c, ';');
    var found := FindTokenSegment(segs);
    i := found.value;
  }

  /** Pieces before `i`, piece `i`, and the joined remainder after a separator. */
  lemma JoinAround(segs: seq<string>, i: nat, d: char) returns (pre: seq<string>, rest: string)
    requires i < |segs|
    ensures pre == segs[..i]
    ensures rest == [] || rest[0] == d
    ensures Join(segs, d) == Join(pre + [segs[i]], d) + rest
  {
    pre := segs[..i];
    assert segs[..i + 1] == pre + [segs[i]];
    if i + 1 < |segs| {
      rest := [d] + Join(segs[i + 1..], d);
      JoinAppend(segs[..i + 1], segs[i + 1..], d);
      assert segs == segs[..i + 1] + segs[i + 1..];
    } else {
      rest := "";
      assert segs == segs[..i + 1];
    }
  }

  /** A token piece whose value is `t` reads `lead token=<t><tail>`. */
  lemma SegmentShape(seg: string, t: string) returns (lead: string, tail: string)
    requires IsTokenSegment(seg) && SegmentValue(seg) == t
    ensures IsBlank(lead)
    ensures tail == "" || tail[0] == '='
    ensures seg == lead + TokenPrefix + t + tail
  {
    var j := TrimSlice(seg);
    lead := seg[..j];
    var k := TokenEquals(seg, j);
    tail := seg[k + 1 + |t|..];
    assert seg[k + 1..k + 1 + |t|] == t by {
      assert t <= seg[k + 1..];
    }
    FourPieces(seg, j, k + 1, k + 1 + |t|);
  }

  /** Where the trimmed piece starts at `j`, the first `=` is at `j + 5`. */
  lemma TokenEquals(seg: string, j: nat) returns (k: nat)
    requires IsTokenSegment(seg)
    requires j + |Trim(seg)| <= |seg| && Trim(seg) == seg[j..j + |Trim(seg)|] && IsBlank(seg[..j])
    ensures k == j + 5 && '=' in seg
    ensures FirstIndexOf(seg, '=') == k
    ensures seg[j..k + 1] == TokenPrefix
  {
    assert seg[j..j + 6] == Trim(seg)[..6];
    var a := seg[..j + 5];
    BlankHasNoSeparators(seg[..j]);
    assert seg[j..j + 5] == TokenPrefix[..5];
    assert a == seg[..j] + seg[j..j + 5];
    assert '=' !in TokenPrefix[..5];
    FirstIndexAfterPlain(a, seg, '=');
    k := j + 5;
  }
}
