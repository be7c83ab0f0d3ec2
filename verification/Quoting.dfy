/** sdscatrepr and sdssplitargs. */
module Quoting {
  import opened Bytes
  import opened Resp
  import Sds
  import Split

  const LOWER_A: byte := 'a' as int
  const LOWER_B: byte := 'b' as int
  const LOWER_F: byte := 'f' as int
  const LOWER_N: byte := 'n' as int
  const LOWER_R: byte := 'r' as int
  const LOWER_T: byte := 't' as int
  const LOWER_X: byte := 'x' as int
  const UPPER_A: byte := 'A' as int
  const UPPER_F: byte := 'F' as int
  const BELL: byte := 7
  const BACKSPACE: byte := 8

  // ---------------------------------------------------------------- hex digits

  /** is_hex_digit. */
  predicate IsHexDigit(c: byte) {
    IsDigit(c) || LOWER_A <= c <= LOWER_F || UPPER_A <= c <= UPPER_F
  }

  /** hex_digit_to_int. */
  function HexDigitToInt(c: byte): (v: nat)
    ensures v < 16
  {
    if IsDigit(c) then c - ZERO
    else if LOWER_A <= c <= LOWER_F then c - LOWER_A + 10
    else if UPPER_A <= c <= UPPER_F then c - UPPER_A + 10
    else 0
  }

  /** The digit printf's %x prints. */
  function HexDigit(v: nat): (c: byte)
    requires v < 16
    ensures IsHexDigit(c) && HexDigitToInt(c) == v
  {
    if v < 10 then ZERO + v else LOWER_A + (v - 10)
  }

  // ---------------------------------------------------------------- printing

  /** The escape letters: "\n" and its kin. */
  function EscapeLetter(b: byte): Option<byte> {
    if b == LF then Some(LOWER_N)
    else if b == CR then Some(LOWER_R)
    else if b == TAB then Some(LOWER_T)
    else if b == BELL then Some(LOWER_A)
    else if b == BACKSPACE then Some(LOWER_B)
    else None
  }

  /** How one byte stands between quotes. */
  function Repr(b: byte): (r: bytes)
    ensures r != []
    ensures NUL !in r
  {
    if b == BACKSLASH || b == QUOTE then [BACKSLASH, b]
    else if EscapeLetter(b).Some? then [BACKSLASH, EscapeLetter(b).value]
    else if IsPrint(b) then [b]
    else [BACKSLASH, LOWER_X, HexDigit(b / 16), HexDigit(b % 16)]
  }

  /** A quote and a backslash get a backslash, five control characters their letters, what prints stands as
      it is, and everything else is \x with two small hex digits. */
  lemma ReprExactly(b: byte)
    ensures b == '"' as int || b == '\\' as int ==> Repr(b) == ['\\' as int, b]
    ensures b == 10 ==> Repr(b) == ['\\' as int, 'n' as int]
    ensures b == 13 ==> Repr(b) == ['\\' as int, 'r' as int]
    ensures b == 9 ==> Repr(b) == ['\\' as int, 't' as int]
    ensures b == 7 ==> Repr(b) == ['\\' as int, 'a' as int]
    ensures b == 8 ==> Repr(b) == ['\\' as int, 'b' as int]
    ensures ' ' as int <= b <= '~' as int && b != '"' as int && b != '\\' as int ==> Repr(b) == [b]
    ensures (b < 7 || 10 < b < 13 || 13 < b < ' ' as int || b > '~' as int) ==>
              && |Repr(b)| == 4 && Repr(b)[..2] == ['\\' as int, 'x' as int]
              && forall k :: 2 <= k < 4 ==> IsDigit(Repr(b)[k]) || 'a' as int <= Repr(b)[k] <= 'f' as int
  {
  }

  function ReprAll(s: bytes): (r: bytes)
    ensures NUL !in r
  {
    if s == [] then [] else Repr(s[0]) + ReprAll(s[1..])
  }

  /** The text sdscatrepr appends for s. */
  function Quoted(s: bytes): (r: bytes)
    ensures NUL !in r
  {
    [QUOTE] + ReprAll(s) + [QUOTE]
  }

  /** was, an opening quote, and the first i bytes of s. */
  function SoFar(was: bytes, s: bytes, i: nat): bytes
    requires i <= |s|
  {
    if i == 0 then was + [QUOTE] else SoFar(was, s, i - 1) + Repr(s[i - 1])
  }

  lemma {:induction false} SoFarIs(was: bytes, s: bytes, i: nat)
    requires i <= |s|
    ensures SoFar(was, s, i) + ReprAll(s[i..]) == was + [QUOTE] + ReprAll(s)
  {
    if i == 0 {
      assert s[0..] == s;
    } else {
      SoFarIs(was, s, i - 1);
      assert s[i - 1..][1..] == s[i..];
      assert SoFar(was, s, i - 1) + (Repr(s[i - 1]) + ReprAll(s[i..])) ==
             SoFar(was, s, i - 1) + Repr(s[i - 1]) + ReprAll(s[i..]);
    }
  }

  lemma Around(was: bytes, text: bytes)
    ensures was + [QUOTE] + text + [QUOTE] == was + ([QUOTE] + text + [QUOTE])
  {
  }

  lemma SoFarAll(was: bytes, s: bytes)
    ensures SoFar(was, s, |s|) + [QUOTE] == was + Quoted(s)
  {
    SoFarIs(was, s, |s|);
    assert SoFar(was, s, |s|) + [] == SoFar(was, s, |s|);
    Around(was, ReprAll(s));
  }

  /** The piece one turn of the sdscatrepr loop appends. */
  method ReprOf(c: byte) returns (piece: bytes)
    ensures piece == Repr(c)
  {
    if c == BACKSLASH || c == QUOTE {
      piece := [BACKSLASH, c];
    } else if c == LF {
      piece := [BACKSLASH, LOWER_N];
    } else if c == CR {
      piece := [BACKSLASH, LOWER_R];
    } else if c == TAB {
      piece := [BACKSLASH, LOWER_T];
    } else if c == BELL {
      piece := [BACKSLASH, LOWER_A];
    } else if c == BACKSPACE {
      piece := [BACKSLASH, LOWER_B];
    } else if IsPrint(c) {
      piece := [c];
    } else {
      piece := [BACKSLASH, LOWER_X, HexDigit(c / 16), HexDigit(c % 16)];
    }
  }

  /** sdscatrepr. */
  method CatRepr(s: Sds.String, p: bytes)
    requires s.Valid()
    modifies s, s.buf
    ensures s.Valid() && (s.buf == old(s.buf) || fresh(s.buf))
    ensures s.Contents() == old(s.Contents()) + Quoted(p)
  {
    ghost var was := s.Contents();
    s.CatLen([QUOTE]);
    var i := 0;
    while i < |p|
      invariant 0 <= i <= |p| && s.Valid() && (s.buf == old(s.buf) || fresh(s.buf))
      invariant s.Contents() == SoFar(was, p, i)
    {
      var piece := ReprOf(p[i]);
      s.CatLen(piece);
      i := i + 1;
    }
    SoFarAll(was, p);
    s.CatLen([QUOTE]);
  }

  // ---------------------------------------------------------------- reading, on values

  datatype Mode = Plain | Double | Single

  /** One token, and the text after it; Unbalanced for a bad closing quote or a missing one. */
  datatype Token = Token(text: bytes, rest: bytes) | Unbalanced

  function Unescape(c: byte): byte {
    if c == LOWER_N then LF
    else if c == LOWER_R then CR
    else if c == LOWER_T then TAB
    else if c == LOWER_B then BACKSPACE
    else if c == LOWER_A then BELL
    else c
  }

  predicate HexEscape(p: bytes) {
    |p| >= 4 && p[0] == BACKSLASH && p[1] == LOWER_X && IsHexDigit(p[2]) && IsHexDigit(p[3])
  }

  /** A closing quote stands here: nothing or a blank must follow. */
  function CloseQuote(p: bytes, cur: bytes): Token
    requires p != []
  {
    if |p| >= 2 && !IsSpace(p[1]) then Unbalanced else Token(cur, p[1..])
  }

  /** The token loop of sdssplitargs, on the rest p of the line. */
  function Read(p: bytes, mode: Mode, cur: bytes): (t: Token)
    ensures t.Token? ==> |t.rest| <= |p|
    decreases |p|
  {
    match mode
    case Double =>
      if p == [] then Unbalanced
      else if HexEscape(p) then Read(p[4..], Double, cur + [HexDigitToInt(p[2]) * 16 + HexDigitToInt(p[3])])
      else if p[0] == BACKSLASH && |p| >= 2 then Read(p[2..], Double, cur + [Unescape(p[1])])
      else if p[0] == QUOTE then CloseQuote(p, cur)
      else Read(p[1..], Double, cur + [p[0]])
    case Single =>
      if p == [] then Unbalanced
      else if p[0] == BACKSLASH && |p| >= 2 && p[1] == APOSTROPHE then Read(p[2..], Single, cur + [APOSTROPHE])
      else if p[0] == APOSTROPHE then CloseQuote(p, cur)
      else Read(p[1..], Single, cur + [p[0]])
    case Plain =>
      if p == [] then Token(cur, [])
      else if p[0] in {SPACE, LF, CR, TAB} then Token(cur, p[1..])
      else if p[0] == QUOTE then Read(p[1..], Double, cur)
      else if p[0] == APOSTROPHE then Read(p[1..], Single, cur)
      else Read(p[1..], Plain, cur + [p[0]])
  }

  function SkipBlanks(p: bytes): (r: bytes)
    ensures |r| <= |p| && (r != [] ==> !IsSpace(r[0]))
  {
    if p != [] && IsSpace(p[0]) then SkipBlanks(p[1..]) else p
  }

  lemma ReadConsumes(p: bytes, mode: Mode, cur: bytes)
    requires p != [] && (mode == Plain ==> !IsSpace(p[0]))
    ensures var t := Read(p, mode, cur); t.Token? ==> |t.rest| < |p|
  {
  }

  /** All tokens of the line, after those in `vector`; None when quotes do not balance. */
  function ReadAll(p: bytes, vector: seq<bytes>): Option<seq<bytes>>
    decreases |p|
  {
    var q := SkipBlanks(p);
    if q == [] then Some(vector)
    else
      var t := Read(q, Plain, []);
      if t.Unbalanced? then None
      else
        ReadConsumes(q, Plain, []);
        ReadAll(t.rest, vector + [t.text])
  }

  // ---------------------------------------------------------------- round trip

  /** Reading undoes the escape of every byte, whatever stands behind it. */
  lemma ReadRepr(b: byte, p: bytes, cur: bytes)
    ensures Read(Repr(b) + p, Double, cur) == Read(p, Double, cur + [b])
  {
    var q := Repr(b) + p;
    if b == BACKSLASH || b == QUOTE || EscapeLetter(b).Some? {
      assert q[2..] == p;
    } else if IsPrint(b) {
      assert q[1..] == p;
    } else {
      assert q[4..] == p;
    }
  }

  lemma {:induction false} ReadReprAll(s: bytes, p: bytes, cur: bytes)
    ensures Read(ReprAll(s) + p, Double, cur) == Read(p, Double, cur + s)
  {
    if s == [] {
      assert ReprAll(s) + p == p && cur + s == cur;
    } else {
      assert ReprAll(s) + p == Repr(s[0]) + (ReprAll(s[1..]) + p);
      ReadRepr(s[0], ReprAll(s[1..]) + p, cur);
      ReadReprAll(s[1..], p, cur + [s[0]]);
      assert cur + [s[0]] + s[1..] == cur + s;
    }
  }

  lemma AfterQuote(text: bytes, p: bytes)
    ensures ([QUOTE] + text + [QUOTE] + p)[1..] == text + ([QUOTE] + p)
  {
  }

  lemma ReadQuoted(s: bytes, p: bytes)
    requires p == [] || IsSpace(p[0])
    ensures Read(Quoted(s) + p, Plain, []) == Token(s, p)
  {
    AfterQuote(ReprAll(s), p);
    ReadReprAll(s, [QUOTE] + p, []);
    assert [] + s == s;
    assert ([QUOTE] + p)[1..] == p;
  }

  function QuotedAll(args: seq<bytes>): (tokens: seq<bytes>)
    ensures |tokens| == |args| && forall i :: 0 <= i < |args| ==> tokens[i] == Quoted(args[i])
  {
    seq(|args|, i requires 0 <= i < |args| => Quoted(args[i]))
  }

  /** Quoted arguments with a space between them. */
  function Line(args: seq<bytes>): bytes {
    Split.Join(QuotedAll(args), [SPACE])
  }

  lemma {:induction false} LineIsClean(args: seq<bytes>)
    ensures NUL !in Line(args)
  {
    if |args| > 1 {
      LineIsClean(args[1..]);
      assert QuotedAll(args)[1..] == QuotedAll(args[1..]);
    }
  }

  lemma {:induction false} ReadAllLine(args: seq<bytes>, vector: seq<bytes>)
    ensures ReadAll(Line(args), vector) == Some(vector + args)
    decreases |args|
  {
    if args == [] {
      assert vector + args == vector;
    } else {
      LineStep(args, vector);
      ReadAllLine(args[1..], vector + [args[0]]);
      assert vector + [args[0]] + args[1..] == vector + args;
    }
  }

  lemma LineStep(args: seq<bytes>, vector: seq<bytes>)
    requires args != []
    ensures ReadAll(Line(args), vector) == ReadAll(Line(args[1..]), vector + [args[0]])
  {
    var rest := Line(args[1..]);
    assert QuotedAll(args)[1..] == QuotedAll(args[1..]);
    var p := if |args| == 1 then [] else [SPACE] + rest;
    assert Line(args) == Quoted(args[0]) + p;
    ReadQuoted(args[0], p);
    ReadFirst(args[0], p, vector);
    if |args| > 1 {
      SkipOneSpace(rest, vector + [args[0]]);
    }
  }

  lemma ReadFirst(s: bytes, p: bytes, vector: seq<bytes>)
    requires Read(Quoted(s) + p, Plain, []) == Token(s, p)
    ensures ReadAll(Quoted(s) + p, vector) == ReadAll(p, vector + [s])
  {
    assert (Quoted(s) + p)[0] == QUOTE;
    assert SkipBlanks(Quoted(s) + p) == Quoted(s) + p;
  }

  lemma SkipOneSpace(p: bytes, vector: seq<bytes>)
    ensures ReadAll([SPACE] + p, vector) == ReadAll(p, vector)
  {
    assert ([SPACE] + p)[1..] == p;
  }

  // ---------------------------------------------------------------- sdssplitargs

  /** The line is the C string at the start of `line`; `end` is where its NUL stands. */
  predicate IsLine(line: bytes, end: nat) {
    end < |line| && line[end] == NUL && end == StringEnd(line, 0)
  }

  lemma AtEnd(line: bytes, end: nat, p: nat)
    requires IsLine(line, end) && p <= end
    ensures line[p] == NUL <==> p == end
  {
  }

  function ModeOf(inq: bool, insq: bool): Mode {
    if inq then Double else if insq then Single else Plain
  }

  /** The rest of the token is read from here as the whole of it is to be. */
  ghost predicate Reading(line: bytes, end: nat, p: nat, mode: Mode, cur: bytes, whole: Token) {
    p <= end < |line| && Read(line[p..end], mode, cur) == whole
  }

  /** The whole token is read, and p is where the text after it starts. */
  ghost predicate ReadTo(line: bytes, end: nat, p: nat, cur: bytes, whole: Token) {
    p <= end < |line| && whole == Token(cur, line[p..end])
  }

  /** One turn of the token loop in double quotes. */
  method DoubleStep(line: bytes, ghost end: nat, p0: nat, cur: bytes, ghost whole: Token)
    returns (ok: bool, done: bool, p: nat, current: bytes)
    requires IsLine(line, end) && Reading(line, end, p0, Double, cur, whole)
    ensures !ok ==> whole == Unbalanced
    ensures ok && done ==> ReadTo(line, end, p, current, whole)
    ensures ok && !done ==> Reading(line, end, p, Double, current, whole) && p > p0
  {
    ok, done, p, current := true, false, p0, cur;
    AtEnd(line, end, p);
    ghost var rest := line[p..end];
    assert p + 1 <= end ==> rest[1..] == line[p + 1..end];
    assert p + 2 <= end ==> rest[2..] == line[p + 2..end];
    assert p + 4 <= end ==> rest[4..] == line[p + 4..end];
    if line[p] == BACKSLASH && line[p + 1] == LOWER_X && IsHexDigit(line[p + 2]) && IsHexDigit(line[p + 3]) {
      current := current + [HexDigitToInt(line[p + 2]) * 16 + HexDigitToInt(line[p + 3])];
      p := p + 3;
    } else if line[p] == BACKSLASH && line[p + 1] != NUL {
      p := p + 1;
      var c := line[p];
      if c == LOWER_N { c := LF; }
      else if c == LOWER_R { c := CR; }
      else if c == LOWER_T { c := TAB; }
      else if c == LOWER_B { c := BACKSPACE; }
      else if c == LOWER_A { c := BELL; }
      current := current + [c];
    } else if line[p] == QUOTE {
      if line[p + 1] != NUL && !IsSpace(line[p + 1]) {
        return false, done, p, current;
      }
      done := true;
    } else if line[p] == NUL {
      return false, done, p, current;
    } else {
      current := current + [line[p]];
    }
    if line[p] != NUL {
      p := p + 1;
    }
  }

  /** One turn of the token loop in single quotes. */
  method SingleStep(line: bytes, ghost end: nat, p0: nat, cur: bytes, ghost whole: Token)
    returns (ok: bool, done: bool, p: nat, current: bytes)
    requires IsLine(line, end) && Reading(line, end, p0, Single, cur, whole)
    ensures !ok ==> whole == Unbalanced
    ensures ok && done ==> ReadTo(line, end, p, current, whole)
    ensures ok && !done ==> Reading(line, end, p, Single, current, whole) && p > p0
  {
    ok, done, p, current := true, false, p0, cur;
    AtEnd(line, end, p);
    ghost var rest := line[p..end];
    assert p + 1 <= end ==> rest[1..] == line[p + 1..end];
    assert p + 2 <= end ==> rest[2..] == line[p + 2..end];
    if line[p] == BACKSLASH && line[p + 1] == APOSTROPHE {
      p := p + 1;
      current := current + [APOSTROPHE];
    } else if line[p] == APOSTROPHE {
      if line[p + 1] != NUL && !IsSpace(line[p + 1]) {
        return false, done, p, current;
      }
      done := true;
    } else if line[p] == NUL {
      return false, done, p, current;
    } else {
      current := current + [line[p]];
    }
    if line[p] != NUL {
      p := p + 1;
    }
  }

  /** One turn of the token loop outside quotes. */
  method PlainStep(line: bytes, ghost end: nat, p0: nat, cur: bytes, ghost whole: Token)
    returns (done: bool, inq: bool, insq: bool, p: nat, current: bytes)
    requires IsLine(line, end) && Reading(line, end, p0, Plain, cur, whole)
    ensures !(inq && insq)
    ensures done ==> ReadTo(line, end, p, current, whole)
    ensures !done ==> Reading(line, end, p, ModeOf(inq, insq), current, whole) && p > p0
  {
    done, inq, insq, p, current := false, false, false, p0, cur;
    AtEnd(line, end, p);
    assert p + 1 <= end ==> line[p..end][1..] == line[p + 1..end];
    if line[p] in {SPACE, LF, CR, TAB, NUL} {
      done := true;
    } else if line[p] == QUOTE {
      inq := true;
    } else if line[p] == APOSTROPHE {
      insq := true;
    } else {
      current := current + [line[p]];
    }
    if line[p] != NUL {
      p := p + 1;
    }
  }

  /** The token loop of sdssplitargs. */
  method ReadToken(line: bytes, ghost end: nat, start: nat) returns (ok: bool, current: bytes, p: nat)
    requires IsLine(line, end) && start <= end
    ensures !ok ==> Read(line[start..end], Plain, []) == Unbalanced
    ensures ok ==> ReadTo(line, end, p, current, Read(line[start..end], Plain, []))
  {
    ghost var whole := Read(line[start..end], Plain, []);
    var inq, insq, done := false, false, false;
    ok, current, p := true, [], start;
    while !done
      invariant ok && !(inq && insq)
      invariant done ==> ReadTo(line, end, p, current, whole)
      invariant !done ==> Reading(line, end, p, ModeOf(inq, insq), current, whole)
      decreases !done, if done then 0 else end - p
    {
      if inq {
        ok, done, p, current := DoubleStep(line, end, p, current, whole);
        if !ok { return; }
      } else if insq {
        ok, done, p, current := SingleStep(line, end, p, current, whole);
        if !ok { return; }
      } else {
        done, inq, insq, p, current := PlainStep(line, end, p, current, whole);
      }
    }
  }

  /** sdssplitargs: None stands for NULL. */
  method SplitArgs(line: bytes) returns (vector: Option<seq<bytes>>)
    requires NUL in line
    ensures vector == ReadAll(CString(line), [])
  {
    ghost var end := StringEnd(line, 0);
    var args: seq<bytes> := [];
    var p := 0;
    while true
      invariant 0 <= p <= end && IsLine(line, end)
      invariant ReadAll(CString(line), []) == ReadAll(line[p..end], args)
      decreases end - p
    {
      ghost var q := p;
      while line[p] != NUL && IsSpace(line[p])
        invariant q <= p <= end
        invariant SkipBlanks(line[q..end]) == SkipBlanks(line[p..end])
        decreases end - p
      {
        assert line[p..end][1..] == line[p + 1..end];
        p := p + 1;
      }
      AtEnd(line, end, p);
      assert SkipBlanks(line[q..end]) == line[p..end];
      if line[p] == NUL {
        return Some(args);
      }
      ReadConsumes(line[p..end], Plain, []);
      var ok, current, next := ReadToken(line, end, p);
      if !ok {
        return None;
      }
      args := args + [current];
      p := next;
    }
  }

  /** sdssplitargs undoes sdscatrepr: a line of quoted arguments with spaces between them is split
      into exactly those arguments, whatever bytes they hold. */
  lemma QuotingRoundTrip(args: seq<bytes>, junk: bytes)
    ensures ReadAll(CString(Line(args) + [NUL] + junk), []) == Some(args)
  {
    LineIsClean(args);
    CStringOfClean(Line(args), junk);
    ReadAllLine(args, []);
    assert [] + args == args;
  }

  /** The same with the code at work: quote every argument, join with spaces, split. */
  method QuoteThenSplit(args: seq<bytes>) returns (back: Option<seq<bytes>>)
    ensures back == Some(args)
  {
    var tokens: seq<bytes> := [];
    var i := 0;
    while i < |args|
      invariant 0 <= i == |tokens| <= |args|
      invariant forall k :: 0 <= k < i ==> tokens[k] == Quoted(args[k])
    {
      var s := new Sds.String([]);
      CatRepr(s, args[i]);
      tokens := tokens + [s.buf[..s.len]];
      i := i + 1;
    }
    assert tokens == QuotedAll(args);
    var join := Split.JoinSds(tokens, [SPACE]);
    var line := join.buf[..join.len + 1];
    assert line == join.Contents() + [NUL];
    assert Line(args) + [NUL] + [] == line;
    QuotingRoundTrip(args, []);
    back := SplitArgs(line);
  }
}
