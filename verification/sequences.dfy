/** Facts about cutting and gluing sequences that the string and cookie
    proofs share. */
module Sequences {

  /** Splitting a sequence at three points and gluing the pieces back. */
  lemma FourPieces<T>(s: seq<T>, a: nat, b: nat, c: nat)
    requires a <= b <= c <= |s|
    ensures s == s[..a] + s[a..b] + s[b..c] + s[c..]
  {
  }

  /** Putting the head back in front of the rest, with more appended. */
  lemma ConsAppend<T>(x: seq<T>, more: seq<T>)
    requires |x| >= 1
    ensures [x[0]] + (x[1..] + more) == x + more
  {
    assert x == [x[0]] + x[1..];
  }
}
