/** nextArgument of async.c: a second decoder of formatted commands, on NUL-terminated text. */
module Arguments {
  import opened Bytes
  import opened Decimal
  import opened Resp
  import opened Command

  // ---------------------------------------------------------------- libc, on values

  /** strchr from s[i] on, for a character other than NUL: its index, or -1. */
  function Find(s: bytes, i: nat, c: byte): (r: int)
    requires i <= |s| && c != NUL
    ensures r == -1 || (i <= r < |s| && s[r] == c)
    decreases |s| - i
  {
    if i == |s| then -1 else if s[i] == c then i else if s[i] == NUL then -1 else Find(s, i + 1, c)
  }

  lemma {:induction false} FindAt(s: bytes, i: nat, c: byte, r: nat)
    requires i <= r < |s| && c != NUL && s[r] == c
    requires forall k :: i <= k < r ==> s[k] != c && s[k] != NUL
    ensures Find(s, i, c) == r
    decreases r - i
  {
    if i < r {
      FindAt(s, i + 1, c, r);
    }
  }

  function DigitsValue(s: bytes, v: nat): nat {
    if s == [] || !IsDigit(s[0]) then v else DigitsValue(s[1..], v * 10 + (s[0] - ZERO))
  }

  /** strtol, base 10, on text that is within the range of long. */
  function Strtol(s: bytes): int {
    if s == [] then 0
    else if IsSpace(s[0]) then Strtol(s[1..])
    else if s[0] == MINUS then 0 - DigitsValue(s[1..], 0)
    else if s[0] == PLUS then DigitsValue(s[1..], 0)
    else DigitsValue(s, 0)
  }

  lemma {:induction false} DigitsValueOfDigits(n: nat, rest: bytes)
    ensures DigitsValue(Digits(n) + rest, 0) == DigitsValue(rest, n)
  {
    if n < 10 {
      assert ([ZERO + n] + rest)[1..] == rest;
    } else {
      var d: byte := ZERO + n % 10;
      assert Digits(n) + rest == Digits(n / 10) + ([d] + rest);
      DigitsValueOfDigits(n / 10, [d] + rest);
      assert ([d] + rest)[1..] == rest;
    }
  }

  lemma StrtolOfDigits(n: nat, rest: bytes)
    requires rest != [] && !IsDigit(rest[0])
    ensures Strtol(Digits(n) + rest) == n
  {
    DigitsValueOfDigits(n, rest);
  }

  // ---------------------------------------------------------------- nextArgument

  datatype Argument = Argument(str: nat, len: int, next: int)

  /** The '$' nextArgument settles on, or -1. */
  function Marker(s: bytes, start: nat): (p: int)
    requires start < |s|
    ensures p == -1 || (start <= p < |s| && s[p] == DOLLAR)
  {
    if s[start] != DOLLAR then Find(s, start, DOLLAR) else start
  }

  /** Where the next argument of s at or after start is, or None at the end of the text. */
  function Next(s: bytes, start: nat): Option<Argument>
    requires start < |s|
  {
    var p := Marker(s, start);
    if p == -1 then None
    else
      var len := ToInt(Strtol(s[p + 1..]));
      var q := Find(s, p, CR);
      Some(Argument(q + 2, len, q + 2 + len + 2))
  }

  /** There is a NUL in s at or after i. */
  predicate Terminates(s: bytes, i: nat) {
    i < |s| && NUL in s[i..]
  }

  /** strchr. */
  method StrChr(buf: array<byte>, start: nat, c: byte) returns (r: int)
    requires Terminates(buf[..], start) && c != NUL
    ensures r == Find(buf[..], start, c)
  {
    r := start;
    while buf[r] != c
      invariant start <= r < buf.Length && NUL in buf[r..]
      invariant Find(buf[..], start, c) == Find(buf[..], r, c)
      decreases buf.Length - r
    {
      if buf[r] == NUL {
        return -1;
      }
      assert buf[r..][1..] == buf[r + 1..];
      r := r + 1;
    }
  }

  /** nextArgument; next is -1 for NULL. A '$' is taken to be followed by a line end, as the source asserts. */
  method NextArgument(buf: array<byte>, start: nat) returns (next: int, str: nat, len: int)
    requires Terminates(buf[..], start)
    requires var p := Marker(buf[..], start);
      p != -1 ==> Terminates(buf[..], p) && Find(buf[..], p, CR) != -1
    ensures match Next(buf[..], start)
      case None => next == -1
      case Some(a) => str == a.str && len == a.len && next == a.next
  {
    var p: int := start;
    if buf[p] != DOLLAR {
      p := StrChr(buf, p, DOLLAR);
      if p == -1 {
        return -1, 0, 0;
      }
    }
    assert buf[..][p + 1..] == buf[p + 1..];
    len := ToInt(Strtol(buf[p + 1..]));
    p := StrChr(buf, p, CR);
    assert p != -1;
    str := p + 2;
    next := p + 2 + len + 2;
  }

  // ---------------------------------------------------------------- it undoes the formatters

  function Terminated(args: seq<bytes>): bytes {
    CommandText(args) + [NUL]
  }

  /** The text of an argument that lies within s. */
  function TextOf(s: bytes, a: Argument): Option<bytes> {
    if 0 <= a.len && a.str + a.len <= |s| then Some(s[a.str..a.str + a.len]) else None
  }

  /** An encoded argument within s; d is its length in decimal. */
  lemma Layout(pre: bytes, d: bytes, arg: bytes, post: bytes, s: bytes)
    requires s == pre + ([DOLLAR] + d + CRLF + arg + CRLF) + post
    ensures |pre| < |s| && s[|pre|] == DOLLAR && s[|pre| + 1..] == d + (CRLF + arg + CRLF + post)
  {
  }

  lemma TextWithin(pre: bytes, d: bytes, arg: bytes, post: bytes, s: bytes, a: Argument)
    requires s == pre + ([DOLLAR] + d + CRLF + arg + CRLF) + post
    requires a.str == |pre| + 1 + |d| + 2 && a.len == |arg|
    ensures TextOf(s, a) == Some(arg)
  {
    assert s[a.str..a.str + a.len] == arg;
  }

  /** At a '$' and a decimal number that a CR ends. */
  lemma NextAtNumber(s: bytes, p: nat, n: nat, rest: bytes)
    requires p < |s| && s[p] == DOLLAR && s[p + 1..] == Digits(n) + rest && rest != [] && rest[0] == CR && n <= INT_MAX
    ensures var q := p + 1 + |Digits(n)|;
      Marker(s, p) == p && Find(s, p, CR) == q && Next(s, p) == Some(Argument(q + 2, n, q + 2 + n + 2))
  {
    var q := p + 1 + |Digits(n)|;
    StrtolOfDigits(n, rest);
    forall k | p < k <= q
      ensures s[k] == (Digits(n) + rest)[k - p - 1]
    {
      assert s[p + 1..][k - p - 1] == s[k];
    }
    FindAt(s, p, CR, q);
  }

  /** At an encoded argument. */
  lemma NextAtBulk(pre: bytes, arg: bytes, post: bytes, s: bytes)
    requires |arg| <= INT_MAX && s == pre + Encode(Str(arg)) + post
    ensures |pre| < |s| && s[|pre|] == DOLLAR && Marker(s, |pre|) == |pre| && Find(s, |pre|, CR) != -1
    ensures match Next(s, |pre|)
      case None => false
      case Some(a) =>
        && a.str == |pre| + 1 + |Digits(|arg|)| + 2 && a.len == |arg| && TextOf(s, a) == Some(arg)
        && a.next == a.str + |arg| + 2 == |pre| + |Encode(Str(arg))|
  {
    Layout(pre, Digits(|arg|), arg, post, s);
    NextAtNumber(s, |pre|, |arg|, CRLF + arg + CRLF + post);
    TextWithin(pre, Digits(|arg|), arg, post, s, Next(s, |pre|).value);
  }

  /** At the header of a command. */
  lemma NextAtHeader(n: nat, post: bytes)
    requires post != [] && (post[0] == DOLLAR || post[0] == NUL)
    ensures var s := CountLine(n) + post;
      (Next(s, 0) == if post[0] == DOLLAR then Next(s, |CountLine(n)|) else None) &&
      (Marker(s, 0) == if post[0] == DOLLAR then |CountLine(n)| else -1)
  {
    var s := CountLine(n) + post;
    var h := |CountLine(n)|;
    assert forall k :: 0 <= k < h ==> s[k] == CountLine(n)[k];
    assert forall k :: 0 <= k < h ==> s[k] != DOLLAR && s[k] != NUL;
    if post[0] == DOLLAR {
      FindAt(s, 0, DOLLAR, h);
    } else {
      FindMisses(s, 0, DOLLAR, h);
    }
  }

  lemma {:induction false} FindMisses(s: bytes, i: nat, c: byte, end: nat)
    requires i <= end < |s| && c != NUL && s[end] == NUL
    requires forall k :: i <= k < end ==> s[k] != c && s[k] != NUL
    ensures Find(s, i, c) == -1
    decreases end - i
  {
    if i < end {
      FindMisses(s, i + 1, c, end);
    }
  }

  /** The scan position before argument j: at its '$', or still at the header. */
  predicate At(args: seq<bytes>, j: nat, start: nat) {
    j <= |args| && (start == |Upto(args, j)| || (j == 0 && start == 0))
  }

  lemma Split(args: seq<bytes>, j: nat)
    requires j < |args|
    ensures Terminated(args) == Upto(args, j) + Encode(Str(args[j])) + (Bulks(args[j + 1..]) + [NUL])
  {
    UptoStep(args, j);
    assert args == args[..j + 1] + args[j + 1..];
    BulksConcat(args[..j + 1], args[j + 1..]);
    assert CommandText(args) == Upto(args, j + 1) + Bulks(args[j + 1..]);
  }

  /** nextArgument at the '$' of argument j. */
  lemma NextAtArgument(args: seq<bytes>, j: nat, s: bytes)
    requires s == Terminated(args) && j < |args| && |args[j]| <= INT_MAX
    ensures var start := |Upto(args, j)|;
      && start < |s| && s[start] == DOLLAR && Marker(s, start) == start && Find(s, start, CR) != -1
      && match Next(s, start)
         case None => false
         case Some(a) =>
           && a.str == start + 1 + |Digits(|args[j]|)| + 2 && a.len == |args[j]| && TextOf(s, a) == Some(args[j])
           && a.next == a.str + |args[j]| + 2 == |Upto(args, j + 1)|
  {
    Split(args, j);
    NextAtBulk(Upto(args, j), args[j], Bulks(args[j + 1..]) + [NUL], s);
    UptoStep(args, j);
  }

  /** nextArgument at the start of a command with arguments: it skips the header. */
  lemma NextAtStart(args: seq<bytes>, s: bytes)
    requires s == Terminated(args) && args != []
    ensures var start := |Upto(args, 0)|;
      start < |s| && Next(s, 0) == Next(s, start) && Marker(s, 0) == start
  {
    Split(args, 0);
    assert Upto(args, 0) == CountLine(|args|);
    var post := Encode(Str(args[0])) + (Bulks(args[1..]) + [NUL]);
    assert s == CountLine(|args|) + post;
    NextAtHeader(|args|, post);
  }

  lemma NextAtEnd(args: seq<bytes>, start: nat, s: bytes)
    requires s == Terminated(args) && At(args, |args|, start)
    ensures start < |s| && Marker(s, start) == -1
  {
    UptoEnds(args);
    if start == 0 {
      assert s == CountLine(0) + [NUL];
      NextAtHeader(0, [NUL]);
    } else {
      assert s[start] == NUL;
    }
  }

  /** From the position of argument j, nextArgument delivers argument j and moves to argument j + 1;
      after the last one it delivers NULL. */
  lemma NextInCommand(args: seq<bytes>, j: nat, start: nat, s: bytes)
    requires s == Terminated(args) && At(args, j, start)
    requires forall i :: 0 <= i < |args| ==> |args[i]| <= INT_MAX
    ensures start < |s|
    ensures var p := Marker(s, start); p != -1 ==> Find(s, p, CR) != -1
    ensures match Next(s, start)
      case None => j == |args|
      case Some(a) => j < |args| && TextOf(s, a) == Some(args[j]) && a.next >= 0 && At(args, j + 1, a.next)
  {
    if j == |args| {
      NextAtEnd(args, start, s);
    } else {
      NextAtArgument(args, j, s);
      if start == 0 {
        NextAtStart(args, s);
      }
    }
  }

  lemma EndsInNul(s: bytes, i: nat)
    requires i < |s| && s[|s| - 1] == NUL
    ensures Terminates(s, i)
  {
    assert s[i..][|s| - 1 - i] == NUL;
  }

  /** nextArgument and the text it points to, which lies within the buffer. */
  method NextText(buf: array<byte>, p: nat) returns (next: int, arg: bytes)
    requires Terminates(buf[..], p)
    requires var m := Marker(buf[..], p); m != -1 ==> Terminates(buf[..], m) && Find(buf[..], m, CR) != -1
    requires var a := Next(buf[..], p); a.Some? ==> a.value.next >= 0 && TextOf(buf[..], a.value).Some?
    ensures match Next(buf[..], p)
      case None => next == -1
      case Some(a) => next == a.next && TextOf(buf[..], a) == Some(arg)
  {
    var str, len;
    next, str, len := NextArgument(buf, p);
    arg := if next == -1 then [] else buf[str..str + len];
  }

  /** The text of a command is terminated wherever nextArgument may look. */
  lemma CanLook(args: seq<bytes>, p: nat, s: bytes)
    requires s == Terminated(args) && p < |s|
    ensures Terminates(s, p) && (Marker(s, p) != -1 ==> Terminates(s, Marker(s, p)))
  {
    assert s[|s| - 1] == NUL;
    EndsInNul(s, p);
    if Marker(s, p) != -1 {
      EndsInNul(s, Marker(s, p));
    }
  }

  /** One call of nextArgument on a formatted command. */
  method ArgumentAt(buf: array<byte>, p: nat, ghost args: seq<bytes>, ghost j: nat) returns (next: int, arg: bytes)
    requires buf[..] == Terminated(args) && At(args, j, p)
    requires forall i :: 0 <= i < |args| ==> |args[i]| <= INT_MAX
    ensures if j < |args| then arg == args[j] && next >= 0 && At(args, j + 1, next) else next == -1
  {
    NextInCommand(args, j, p, buf[..]);
    CanLook(args, p, buf[..]);
    next, arg := NextText(buf, p);
  }

  /** Iterating nextArgument over a formatted command yields exactly its arguments, whatever bytes
      they hold, and then NULL. */
  method AllArguments(buf: array<byte>, ghost args: seq<bytes>) returns (list: seq<bytes>)
    requires buf[..] == Terminated(args)
    requires forall i :: 0 <= i < |args| ==> |args[i]| <= INT_MAX
    ensures list == args
  {
    list := [];
    var p := 0;
    while p != -1
      invariant p != -1 ==> 0 <= p && |list| <= |args| && list == args[..|list|] && At(args, |list|, p)
      invariant p == -1 ==> list == args
      decreases p != -1, |args| - |list|
    {
      var next, arg := ArgumentAt(buf, p, args, |list|);
      if next != -1 {
        list := list + [arg];
      }
      p := next;
    }
  }
}
