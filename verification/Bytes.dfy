/** Bytes as the C client sees them: unsigned values 0..255. */
module Bytes {
  type byte = b: int | 0 <= b < 256

  type bytes = seq<byte>

  const NUL: byte := 0
  const TAB: byte := 9
  const LF: byte := 10
  const CR: byte := 13
  const SPACE: byte := 32
  const QUOTE: byte := 34
  const DOLLAR: byte := 36
  const PERCENT: byte := 37
  const APOSTROPHE: byte := 39
  const STAR: byte := 42
  const PLUS: byte := 43
  const MINUS: byte := 45
  const ZERO: byte := 48
  const COLON: byte := 58
  const BACKSLASH: byte := 92

  const CRLF: bytes := [CR, LF]

  predicate IsDigit(b: byte) {
    ZERO <= b < ZERO + 10
  }

  /** isspace() in the C locale. */
  predicate IsSpace(b: byte) {
    b == SPACE || TAB <= b <= CR
  }

  /** isprint() in the C locale. */
  predicate IsPrint(b: byte) {
    SPACE <= b < 127
  }

  /** Where the C string that starts at s[i] ends: at its first NUL, or at the end of s. */
  function StringEnd(s: bytes, i: nat): (n: nat)
    requires i <= |s|
    ensures i <= n <= |s|
    ensures n < |s| ==> s[n] == NUL
    ensures forall k :: i <= k < n ==> s[k] != NUL
    decreases |s| - i
  {
    if i == |s| || s[i] == NUL then i else StringEnd(s, i + 1)
  }

  /** The text a NUL-terminated C string denotes: everything before the first NUL. */
  function CString(s: bytes): bytes {
    s[..StringEnd(s, 0)]
  }

  lemma CStringOfClean(s: bytes, rest: bytes)
    requires NUL !in s
    ensures CString(s) == s
    ensures CString(s + [NUL] + rest) == s
  {
    var t := s + [NUL] + rest;
    assert t[|s|] == NUL;
    assert forall k :: 0 <= k < |s| ==> t[k] == s[k] != NUL;
    assert t[..|s|] == s;
  }

  // ---------------------------------------------------------------- pieces

  /** The pieces, one after the other. */
  function Flat<T>(pieces: seq<seq<T>>): seq<T> {
    if pieces == [] then [] else pieces[0] + Flat(pieces[1..])
  }

  lemma {:induction false} FlatConcat<T>(a: seq<seq<T>>, b: seq<seq<T>>)
    ensures Flat(a + b) == Flat(a) + Flat(b)
  {
    if a == [] {
      assert a + b == b;
    } else {
      FlatConcat(a[1..], b);
      assert (a + b)[1..] == a[1..] + b;
      assert a[0] + (Flat(a[1..]) + Flat(b)) == a[0] + Flat(a[1..]) + Flat(b);
    }
  }

  lemma FlatOne<T>(piece: seq<T>)
    ensures Flat([piece]) == piece
  {
    assert [piece][1..] == [];
    assert piece + [] == piece;
  }
}
