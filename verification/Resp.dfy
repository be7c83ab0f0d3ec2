/** The RESP version 2 grammar: reply trees, their encoding, and a recursive parser. */
module Resp {
  import opened Bytes
  import opened Decimal

  /** Arrays may be nested this deep: a ninth '*' is a protocol error. */
  const MAX_LEVELS: nat := 8

  /** The replies redisReader builds. The last two are the array objects without children that header
      counts below -1 produce: NegativeArray has no slots, Hollow has NULL in every slot. No encoding
      yields them. */
  datatype Reply =
    | Str(text: bytes)
    | Status(text: bytes)
    | Error(text: bytes)
    | Integer(value: int)
    | Nil
    | Array(elements: seq<Reply>)
    | NegativeArray(count: int)
    | Hollow(slots: nat)

  // ---------------------------------------------------------------- line ends

  predicate IsNewline(u: bytes, i: int) {
    0 <= i && i + 1 < |u| && u[i] == CR && u[i + 1] == LF
  }

  /** Index of the first CRLF at or after i, or -1. */
  function NewlineFrom(u: bytes, i: nat): (r: int)
    requires i <= |u|
    ensures r == -1 ==> forall k :: i <= k ==> !IsNewline(u, k)
    ensures r != -1 ==> i <= r && IsNewline(u, r) && forall k :: i <= k < r ==> !IsNewline(u, k)
    decreases |u| - i
  {
    if i + 1 >= |u| then -1
    else if IsNewline(u, i) then i
    else NewlineFrom(u, i + 1)
  }

  /** Index of the first CRLF of u, or -1. */
  function Newline(u: bytes): (r: int)
    ensures r == -1 ==> forall k :: !IsNewline(u, k)
    ensures r != -1 ==> IsNewline(u, r) && forall k :: 0 <= k < r ==> !IsNewline(u, k)
    ensures r != -1 ==> CR in u
  {
    NewlineFrom(u, 0)
  }

  lemma NewlineIs(u: bytes, r: nat)
    requires IsNewline(u, r) && forall k :: 0 <= k < r ==> !IsNewline(u, k)
    ensures Newline(u) == r
  {
  }

  lemma NewlineAppend(u: bytes, x: bytes)
    requires Newline(u) != -1
    ensures Newline(u + x) == Newline(u)
  {
    forall k | 0 <= k < Newline(u)
      ensures !IsNewline(u + x, k)
    {
      assert !IsNewline(u, k);
    }
    NewlineIs(u + x, Newline(u));
  }

  /** Text that can stand on a RESP line. */
  predicate OneLine(s: bytes) {
    forall k :: 0 <= k < |s| ==> !IsNewline(s, k)
  }

  lemma NewlineAfter(s: bytes, rest: bytes)
    requires OneLine(s)
    ensures Newline(s + CRLF + rest) == |s|
  {
    var u := s + CRLF + rest;
    forall k | 0 <= k < |s|
      ensures !IsNewline(u, k)
    {
      assert !IsNewline(s, k);
    }
    assert IsNewline(u, |s|);
    NewlineIs(u, |s|);
  }

  // ---------------------------------------------------------------- encoding

  function ArrayText(n: nat, body: bytes): bytes {
    [STAR] + Digits(n) + CRLF + body
  }

  function Encode(r: Reply): bytes {
    match r
    case Str(s) => [DOLLAR] + Digits(|s|) + CRLF + s + CRLF
    case Status(s) => [PLUS] + s + CRLF
    case Error(s) => [MINUS] + s + CRLF
    case Integer(v) => [COLON] + Printed(v) + CRLF
    case Nil => [DOLLAR] + Printed(-1) + CRLF
    case Array(es) => ArrayText(|es|, EncodeAll(es))
    case NegativeArray(n) => [STAR] + Printed(n) + CRLF
    case Hollow(n) => [STAR] + Printed(n - UINT_VALUES) + CRLF
  }

  function EncodeAll(rs: seq<Reply>): bytes {
    if rs == [] then [] else Encode(rs[0]) + EncodeAll(rs[1..])
  }

  /** Trees that have an encoding: one-line texts, 64-bit integers, sizes that fit, array levels within the limit. */
  predicate WellFormed(r: Reply, level: nat) {
    match r
    case Str(s) => |s| <= LLONG_MAX
    case Status(s) => OneLine(s)
    case Error(s) => OneLine(s)
    case Integer(v) => LLONG_MIN <= v <= LLONG_MAX
    case Nil => true
    case Array(es) =>
      level < MAX_LEVELS && |es| <= INT_MAX && forall i :: 0 <= i < |es| ==> WellFormed(es[i], level + 1)
    case NegativeArray(_) => false
    case Hollow(_) => false
  }

  /** The text of an integer: a plus sign is optional. */
  predicate Spells(t: bytes, v: int) {
    t == Printed(v) || (v >= 0 && t == [PLUS] + Digits(v))
  }

  /** u is an encoding of r as a server may send it inside `level` arrays. It may write nil as a bulk
      string or as an array of length -1; the latter has to respect the limit on levels, too. */
  ghost predicate Encodes(r: Reply, u: bytes, level: nat)
    decreases r
  {
    match r
    case Integer(v) => LLONG_MIN <= v <= LLONG_MAX && exists t :: Spells(t, v) && u == [COLON] + t + CRLF
    case Nil => u == Encode(Nil) || (level < MAX_LEVELS && u == [STAR] + Printed(-1) + CRLF)
    case Array(es) =>
      && level < MAX_LEVELS && |es| <= INT_MAX
      && exists parts: seq<bytes> ::
           && |parts| == |es| && (forall i :: 0 <= i < |es| ==> Encodes(es[i], parts[i], level + 1))
           && u == ArrayText(|es|, Flat(parts))
    case _ => WellFormed(r, level) && u == Encode(r)
  }

  /** The parts encode the replies, one each. */
  ghost predicate EncodesAll(rs: seq<Reply>, parts: seq<bytes>, level: nat) {
    |parts| == |rs| && forall i :: 0 <= i < |rs| ==> Encodes(rs[i], parts[i], level)
  }

  // ---------------------------------------------------------------- one item

  datatype Kind = KError | KStatus | KInteger | KString | KArray

  datatype Option<+T> = None | Some(value: T)

  function KindOf(b: byte): Option<Kind> {
    if b == MINUS then Some(KError)
    else if b == PLUS then Some(KStatus)
    else if b == COLON then Some(KInteger)
    else if b == DOLLAR then Some(KString)
    else if b == STAR then Some(KArray)
    else None
  }

  /** What follows a type byte: a finished reply, the header of a non-empty array, an item that
      is not there in full yet, or an array nested too deep. */
  datatype Body = Leaf(reply: Reply, used: nat) | Header(count: int, used: nat) | Short | TooDeep

  /** The array for a count that announces no children, once it has been converted to int: a positive
      number of slots is allocated all the same. */
  function Childless(m: int): Reply {
    if m > 0 then Hollow(m) else if m == 0 then Array([]) else NegativeArray(m)
  }

  function ReadBody(kind: Kind, level: nat, u: bytes): (b: Body)
    ensures b.Leaf? || b.Header? ==> 2 <= b.used <= |u|
    ensures b.Header? ==> kind == KArray && level != MAX_LEVELS
    ensures b.TooDeep? <==> kind == KArray && level == MAX_LEVELS
  {
    if kind == KArray && level == MAX_LEVELS then TooDeep
    else
      var nl := Newline(u);
      if nl == -1 then Short
      else
        match kind
        case KError => Leaf(Error(u[..nl]), nl + 2)
        case KStatus => Leaf(Status(u[..nl]), nl + 2)
        case KInteger => Leaf(Integer(Number(u)), nl + 2)
        case KString =>
          var len := Number(u);
          if len < 0 then Leaf(Nil, nl + 2)
          else if nl + 2 + len + 2 <= |u| then Leaf(Str(u[nl + 2..nl + 2 + len]), nl + 2 + len + 2)
          else Short
        case KArray =>
          var n := Number(u);
          if n == -1 then Leaf(Nil, nl + 2)
          else if n > 0 then Header(ToInt(n), nl + 2)
          else Leaf(Childless(ToInt(n)), nl + 2)
  }

  /** More bytes never change an item that was complete. */
  lemma ReadBodyAppend(kind: Kind, level: nat, u: bytes, x: bytes)
    requires !ReadBody(kind, level, u).Short?
    ensures ReadBody(kind, level, u + x) == ReadBody(kind, level, u)
  {
    if !ReadBody(kind, level, u).TooDeep? {
      NewlineAppend(u, x);
      NumberLocal(u, x);
      var nl := Newline(u);
      assert (u + x)[..nl] == u[..nl];
      if kind == KString {
        var len := Number(u);
        if len >= 0 {
          assert (u + x)[nl + 2..nl + 2 + len] == u[nl + 2..nl + 2 + len];
        }
      }
    }
  }

  // ---------------------------------------------------------------- recursive parser

  /** Lost: the program writes through a NULL vector. */
  datatype Parsed<+T> = Done(value: T, rest: bytes) | Incomplete | Bad | Lost

  /** The first child of an array that has no vector for it: as soon as the object of that child is
      made, there is nowhere to put it. */
  function ParseOrphan(u: bytes, level: nat): (p: Parsed<Reply>)
    ensures !p.Done?
  {
    if u == [] then Incomplete
    else
      match KindOf(u[0])
      case None => Bad
      case Some(kind) =>
        match ReadBody(kind, level, u[1..])
        case Short => Incomplete
        case TooDeep => Bad
        case _ => Lost
  }

  /** The reply at the start of u, `level` arrays deep. */
  function Parse(u: bytes, level: nat): (p: Parsed<Reply>)
    ensures p.Done? ==> |p.rest| < |u|
    decreases |u|, 0
  {
    if u == [] then Incomplete
    else
      match KindOf(u[0])
      case None => Bad
      case Some(kind) =>
        var v := u[1..];
        match ReadBody(kind, level, v)
        case Short => Incomplete
        case TooDeep => Bad
        case Leaf(reply, used) => Done(reply, v[used..])
        case Header(count, used) =>
          if count <= 0 then ParseOrphan(v[used..], level + 1)
          else
            match ParseMany(v[used..], count, level + 1)
            case Done(rs, rest) => Done(Array(rs), rest)
            case Incomplete => Incomplete
            case Bad => Bad
            case Lost => Lost
  }

  /** The next n replies of u. */
  function ParseMany(u: bytes, n: nat, level: nat): (p: Parsed<seq<Reply>>)
    ensures p.Done? ==> |p.value| == n && |p.rest| <= |u|
    decreases |u|, 1, n
  {
    if n == 0 then Done([], u)
    else
      match Parse(u, level)
      case Incomplete => Incomplete
      case Bad => Bad
      case Lost => Lost
      case Done(r, rest) =>
        match ParseMany(rest, n - 1, level)
        case Done(rs, rest') => Done([r] + rs, rest')
        case Incomplete => Incomplete
        case Bad => Bad
        case Lost => Lost
  }

  // ---------------------------------------------------------------- encoding is parsed back

  lemma NumberLine(t: bytes, v: int, rest: bytes)
    requires LLONG_MIN <= v <= LLONG_MAX && Spells(t, v)
    ensures Newline(t + CRLF + rest) == |t| && Number(t + CRLF + rest) == v
  {
    NewlineAfter(t, rest);
    assert t + CRLF + rest == t + [CR] + ([LF] + rest);
    if v == LLONG_MIN {
      MinimumRoundTrip(v, [LF] + rest);
    } else {
      DecimalRoundTrip(v, [LF] + rest);
    }
    if v >= 0 && t == [PLUS] + Digits(v) {
      assert (t + CRLF + rest)[1..] == Digits(v) + ([CR] + ([LF] + rest));
      AccumulateDigits(v, [CR] + ([LF] + rest), 1);
    }
  }

  lemma LineBody(kind: Kind, s: bytes, level: nat, rest: bytes)
    requires OneLine(s) && (kind == KStatus || kind == KError)
    ensures var v := s + CRLF + rest;
      ReadBody(kind, level, v) == Leaf(if kind == KError then Error(s) else Status(s), |s| + 2) &&
      v[|s| + 2..] == rest
  {
    NewlineAfter(s, rest);
    assert (s + CRLF + rest)[..|s|] == s;
  }

  lemma BulkBody(s: bytes, level: nat, rest: bytes)
    requires |s| <= LLONG_MAX
    ensures var v := Printed(|s|) + CRLF + (s + CRLF + rest);
      ReadBody(KString, level, v) == Leaf(Str(s), |Printed(|s|)| + 2 + |s| + 2) &&
      v[|Printed(|s|)| + 2 + |s| + 2..] == rest
  {
    NumberLine(Printed(|s|), |s|, s + CRLF + rest);
    BulkSlices(Printed(|s|), s, rest);
  }

  lemma BulkSlices(head: bytes, s: bytes, rest: bytes)
    ensures var v := head + CRLF + (s + CRLF + rest);
      v[|head| + 2..|head| + 2 + |s|] == s && v[|head| + 2 + |s| + 2..] == rest
  {
  }

  lemma NumberBody(kind: Kind, t: bytes, n: int, level: nat, rest: bytes)
    requires LLONG_MIN <= n <= LLONG_MAX && Spells(t, n)
    requires kind == KInteger || (kind == KString && n == -1) ||
             (kind == KArray && -1 <= n <= INT_MAX && level < MAX_LEVELS)
    ensures var v := t + CRLF + rest;
      ReadBody(kind, level, v) ==
      (if kind == KInteger then Leaf(Integer(n), |t| + 2)
       else if n == -1 then Leaf(Nil, |t| + 2)
       else if n == 0 then Leaf(Array([]), |t| + 2)
       else Header(n, |t| + 2)) &&
      v[|t| + 2..] == rest
  {
    NumberLine(t, n, rest);
  }

  lemma ParseTyped(b: byte, v: bytes, level: nat)
    requires KindOf(b).Some?
    ensures var body := ReadBody(KindOf(b).value, level, v);
      body.Leaf? ==> Parse([b] + v, level) == Done(body.reply, v[body.used..])
    ensures var body := ReadBody(KindOf(b).value, level, v);
      body.Header? && body.count > 0 && ParseMany(v[body.used..], body.count, level + 1).Done? ==>
        var p := ParseMany(v[body.used..], body.count, level + 1);
        Parse([b] + v, level) == Done(Array(p.value), p.rest)
  {
    assert ([b] + v)[1..] == v;
  }

  lemma ParseLine(r: Reply, level: nat, rest: bytes)
    requires (r.Status? || r.Error?) && OneLine(r.text)
    ensures Parse(Encode(r) + rest, level) == Done(r, rest)
  {
    var b := if r.Error? then MINUS else PLUS;
    LineBody(KindOf(b).value, r.text, level, rest);
    assert Encode(r) + rest == [b] + (r.text + CRLF + rest);
    ParseTyped(b, r.text + CRLF + rest, level);
  }

  lemma BulkShape(s: bytes, rest: bytes)
    ensures Encode(Str(s)) + rest == [DOLLAR] + (Printed(|s|) + CRLF + (s + CRLF + rest))
  {
  }

  lemma ParseBulk(s: bytes, level: nat, rest: bytes)
    requires |s| <= LLONG_MAX
    ensures Parse(Encode(Str(s)) + rest, level) == Done(Str(s), rest)
  {
    BulkBody(s, level, rest);
    var v := Printed(|s|) + CRLF + (s + CRLF + rest);
    BulkShape(s, rest);
    ParseTyped(DOLLAR, v, level);
  }

  /** An item that a number alone makes up: an integer, or nil in either spelling. */
  lemma ParseNumber(b: byte, t: bytes, n: int, level: nat, rest: bytes)
    requires LLONG_MIN <= n <= LLONG_MAX && Spells(t, n)
    requires b == COLON || (b == DOLLAR && n == -1) || (b == STAR && n == -1 && level < MAX_LEVELS)
    ensures Parse([b] + t + CRLF + rest, level) == Done(if b == COLON then Integer(n) else Nil, rest)
  {
    NumberBody(KindOf(b).value, t, n, level, rest);
    assert [b] + t + CRLF + rest == [b] + (t + CRLF + rest);
    ParseTyped(b, t + CRLF + rest, level);
  }

  lemma ParseArray(es: seq<Reply>, tail: bytes, level: nat, rest: bytes)
    requires level < MAX_LEVELS && |es| <= INT_MAX
    requires ParseMany(tail, |es|, level + 1) == Done(es, rest)
    ensures Parse([STAR] + (Printed(|es|) + CRLF + tail), level) == Done(Array(es), rest)
  {
    NumberBody(KArray, Printed(|es|), |es|, level, tail);
    ParseTyped(STAR, Printed(|es|) + CRLF + tail, level);
  }

  lemma ArrayShape(n: nat, body: bytes, rest: bytes)
    ensures ArrayText(n, body) + rest == [STAR] + (Printed(n) + CRLF + (body + rest))
  {
  }

  /** Every tree is parsed back from every encoding of it, and nothing after it is touched. */
  lemma {:induction false} ParseEncode(r: Reply, u: bytes, level: nat, rest: bytes)
    requires Encodes(r, u, level)
    ensures Parse(u + rest, level) == Done(r, rest)
    decreases r, 1
  {
    match r {
      case Str(s) => ParseBulk(s, level, rest);
      case Status(_) => ParseLine(r, level, rest);
      case Error(_) => ParseLine(r, level, rest);
      case Integer(v) =>
        var t :| Spells(t, v) && u == [COLON] + t + CRLF;
        ParseNumber(COLON, t, v, level, rest);
      case Nil => ParseNumber(u[0], Printed(-1), -1, level, rest);
      case Array(es) =>
        var parts: seq<bytes> :|
          && |parts| == |es| && (forall i :: 0 <= i < |es| ==> Encodes(es[i], parts[i], level + 1))
          && u == ArrayText(|es|, Flat(parts));
        ParseEncodeAll(es, parts, level + 1, rest);
        ArrayShape(|es|, Flat(parts), rest);
        ParseArray(es, Flat(parts) + rest, level, rest);
    }
  }

  lemma {:induction false} ParseEncodeAll(es: seq<Reply>, parts: seq<bytes>, level: nat, rest: bytes)
    requires EncodesAll(es, parts, level)
    ensures ParseMany(Flat(parts) + rest, |es|, level) == Done(es, rest)
    decreases es, 0
  {
    if es == [] {
      assert Flat(parts) + rest == rest;
    } else {
      var others := Flat(parts[1..]) + rest;
      assert Flat(parts) + rest == parts[0] + others;
      ParseEncode(es[0], parts[0], level, others);
      ParseEncodeAll(es[1..], parts[1..], level, rest);
      ParseManyStep(parts[0] + others, es[0], others, |es| - 1, level);
      assert [es[0]] + es[1..] == es;
    }
  }

  lemma ParseManyStep(u: bytes, r: Reply, others: bytes, n: nat, level: nat)
    requires Parse(u, level) == Done(r, others) && ParseMany(others, n, level).Done?
    ensures var p := ParseMany(others, n, level);
      ParseMany(u, n + 1, level) == Done([r] + p.value, p.rest)
  {
  }

  // ---------------------------------------------------------------- which trees have an encoding

  function Parts(es: seq<Reply>): (parts: seq<bytes>)
    ensures |parts| == |es| && forall i :: 0 <= i < |es| ==> parts[i] == Encode(es[i])
  {
    if es == [] then [] else [Encode(es[0])] + Parts(es[1..])
  }

  lemma {:induction false} PartsOf(es: seq<Reply>)
    ensures Flat(Parts(es)) == EncodeAll(es)
  {
    if es != [] {
      PartsOf(es[1..]);
      assert Parts(es)[1..] == Parts(es[1..]);
    }
  }

  lemma {:induction false} EncodesItself(r: Reply, level: nat)
    requires WellFormed(r, level)
    ensures Encodes(r, Encode(r), level)
  {
    match r {
      case Integer(v) => assert Spells(Printed(v), v);
      case Array(es) =>
        forall i | 0 <= i < |es|
          ensures Encodes(es[i], Encode(es[i]), level + 1)
        {
          EncodesItself(es[i], level + 1);
        }
        PartsOf(es);
      case _ =>
    }
  }

  lemma {:induction false} OnlyWellFormed(r: Reply, u: bytes, level: nat)
    requires Encodes(r, u, level)
    ensures WellFormed(r, level)
  {
    if r.Array? {
      var es := r.elements;
      var parts: seq<bytes> :|
        && |parts| == |es| && (forall i :: 0 <= i < |es| ==> Encodes(es[i], parts[i], level + 1))
        && u == ArrayText(|es|, Flat(parts));
      forall i | 0 <= i < |es|
        ensures WellFormed(es[i], level + 1)
      {
        OnlyWellFormed(es[i], parts[i], level + 1);
      }
    }
  }

  /** Exactly the well-formed trees have encodings. */
  lemma EncodableExactly(r: Reply, level: nat)
    ensures WellFormed(r, level) <==> exists u :: Encodes(r, u, level)
  {
    if WellFormed(r, level) {
      EncodesItself(r, level);
      var u := Encode(r);
      assert Encodes(r, u, level);
    }
    if u :| Encodes(r, u, level) {
      OnlyWellFormed(r, u, level);
    }
  }
}
