/** Decimal text: the printers of sds.c, the digit counter of hiredis.c and the number scanner of read.c. */
module Decimal {
  import opened Bytes

  const LLONG_MAX: int := 0x7fff_ffff_ffff_ffff
  const LLONG_MIN: int := -0x8000_0000_0000_0000
  const ULLONG_MAX: int := 0xffff_ffff_ffff_ffff
  const INT_MAX: int := 0x7fff_ffff
  const UINT_VALUES: int := 0x1_0000_0000
  const SDS_LLSTR_SIZE: int := 21

  /** A conversion to int keeps the low 32 bits. */
  function ToInt(x: int): (r: int)
    ensures -INT_MAX - 1 <= r <= INT_MAX
    ensures -INT_MAX - 1 <= x <= INT_MAX ==> r == x
    ensures r > 0 <==> 1 <= x % UINT_VALUES <= INT_MAX
  {
    (x + INT_MAX + 1) % UINT_VALUES - INT_MAX - 1
  }

  // ---------------------------------------------------------------- text of a number

  /** The decimal digits of n, most significant first, without leading zeros. */
  function Digits(n: nat): (s: bytes)
    ensures |s| >= 1
    ensures forall i :: 0 <= i < |s| ==> IsDigit(s[i])
  {
    if n < 10 then [ZERO + n] else Digits(n / 10) + [ZERO + n % 10]
  }

  /** What printf's "%lld" prints. */
  function Printed(v: int): (s: bytes)
    ensures |s| >= 1
    ensures forall i :: 0 <= i < |s| ==> IsDigit(s[i]) || s[i] == MINUS
  {
    if v < 0 then [MINUS] + Digits(-v) else Digits(v)
  }

  function Pow10(k: nat): (p: nat)
    ensures p >= 1
  {
    if k == 0 then 1 else 10 * Pow10(k - 1)
  }

  lemma {:induction false} DigitsLength(n: nat, k: nat)
    requires k >= 1
    ensures |Digits(n)| <= k <==> n < Pow10(k)
  {
    if n < 10 {
      assert Pow10(k) >= 10 by { assert Pow10(k) == 10 * Pow10(k - 1); }
    } else if k == 1 {
      assert Pow10(1) == 10 * Pow10(0);
    } else {
      DigitsLength(n / 10, k - 1);
      assert Pow10(k) == 10 * Pow10(k - 1);
    }
  }

  lemma LongLongFits(v: int)
    requires LLONG_MIN < v <= ULLONG_MAX
    ensures |Printed(v)| <= 20
    ensures |Printed(v)| < SDS_LLSTR_SIZE
  {
    assert Pow10(20) == 100_000_000_000_000_000_000 && Pow10(19) == 10_000_000_000_000_000_000 by {
      PowersOfTen();
    }
    if v < 0 {
      DigitsLength(-v, 19);
    } else {
      DigitsLength(v, 20);
    }
  }

  lemma PowersOfTen()
    ensures Pow10(4) == 10000
    ensures Pow10(19) == 10_000_000_000_000_000_000
    ensures Pow10(20) == 100_000_000_000_000_000_000
  {
    assert Pow10(4) == 10000;
    assert Pow10(8) == 10000 * 10000;
    assert Pow10(12) == 10000 * 10000 * 10000;
    assert Pow10(16) == 10000 * 10000 * 10000 * 10000;
  }

  // ---------------------------------------------------------------- countDigits

  lemma DropFourDigits(v: nat)
    requires v >= 10000
    ensures |Digits(v)| == |Digits(v / 10000)| + 4
  {
    assert v / 10 / 10 / 10 / 10 == v / 10000;
    assert |Digits(v)| == |Digits(v / 10)| + 1;
    assert |Digits(v / 10)| == |Digits(v / 10 / 10)| + 1;
    assert |Digits(v / 10 / 10)| == |Digits(v / 10 / 10 / 10)| + 1;
    assert |Digits(v / 10 / 10 / 10)| == |Digits(v / 10 / 10 / 10 / 10)| + 1;
  }

  lemma FewDigits(v: nat)
    requires v < 10000
    ensures |Digits(v)| == if v < 10 then 1 else if v < 100 then 2 else if v < 1000 then 3 else 4
  {
    assert Pow10(1) == 10;
    assert Pow10(2) == 100;
    assert Pow10(3) == 1000;
    assert Pow10(4) == 10000;
    DigitsLength(v, 1);
    DigitsLength(v, 2);
    DigitsLength(v, 3);
    DigitsLength(v, 4);
  }

  /** countDigits: four digits per division. */
  method CountDigits(n: nat) returns (result: nat)
    requires n <= ULLONG_MAX
    ensures result == |Digits(n)|
  {
    var v := n;
    result := 1;
    while true
      invariant result - 1 + |Digits(v)| == |Digits(n)|
      decreases v
    {
      if v < 10 { FewDigits(v); return result; }
      if v < 100 { FewDigits(v); return result + 1; }
      if v < 1000 { FewDigits(v); return result + 2; }
      if v < 10000 { FewDigits(v); return result + 3; }
      DropFourDigits(v);
      v := v / 10000;
      result := result + 4;
    }
  }

  // ---------------------------------------------------------------- sdsll2str, sdsull2str, sdsfromlonglong

  function Reverse(s: bytes): (r: bytes)
    ensures |r| == |s|
    ensures forall i :: 0 <= i < |s| ==> r[i] == s[|s| - 1 - i]
  {
    if s == [] then [] else Reverse(s[1..]) + [s[0]]
  }

  lemma ReverseSnoc(s: bytes, b: byte)
    ensures Reverse(s + [b]) == [b] + Reverse(s)
  {
  }

  /** The digits of v that are still to be printed once `done` of them are out. */
  function Pending(v: nat): bytes {
    if v == 0 then [] else Digits(v)
  }

  /** The digit one round of a printing loop puts out. */
  function LastDigit(v: nat): byte {
    ZERO + v % 10
  }

  lemma PrintStep(v: nat, done: bytes)
    requires v > 0
    ensures Pending(v / 10) + Reverse(done + [LastDigit(v)]) == Pending(v) + Reverse(done)
    ensures Pending(v / 10) + ([LastDigit(v)] + done) == Pending(v) + done
    ensures |Pending(v)| > 0
  {
    ReverseSnoc(done, LastDigit(v));
    assert Pending(v) == Pending(v / 10) + [LastDigit(v)];
  }

  lemma FirstDigit(v: nat)
    ensures Pending(v / 10) + [LastDigit(v)] == Digits(v)
    ensures Reverse([LastDigit(v)]) == [LastDigit(v)]
  {
  }

  /** Writes the digits of v from a[0] on, least significant first. */
  method PutReversedDigits(a: array<byte>, v0: nat) returns (p: nat)
    requires v0 <= ULLONG_MAX && a.Length >= SDS_LLSTR_SIZE
    modifies a
    ensures p == |Digits(v0)| <= 20
    ensures Reverse(a[..p]) == Digits(v0)
    ensures forall i :: p <= i < a.Length ==> a[i] == old(a[i])
  {
    ghost var text := Digits(v0);
    assert |text| <= 20 by { LongLongFits(v0); }
    FirstDigit(v0);
    a[0] := LastDigit(v0);
    var v: nat := v0 / 10;
    p := 1;
    assert a[..1] == [LastDigit(v0)];
    while v != 0
      invariant 1 <= p <= 20
      invariant Pending(v) + Reverse(a[..p]) == text
      invariant forall i :: p <= i < a.Length ==> a[i] == old(a[i])
      decreases v
    {
      ghost var before := a[..p];
      PrintStep(v, before);
      a[p] := LastDigit(v);
      assert a[..p + 1] == before + [LastDigit(v)];
      v := v / 10;
      p := p + 1;
    }
  }

  /** The two-pointer swap that ends both sds printers. */
  method ReverseInPlace(a: array<byte>, l: nat)
    requires 1 <= l <= a.Length
    modifies a
    ensures a[..l] == Reverse(old(a[..l]))
    ensures forall i :: l <= i < a.Length ==> a[i] == old(a[i])
  {
    var s, p := 0, l - 1;
    while s < p
      invariant 0 <= s <= l && p == l - 1 - s
      invariant s <= p + 1
      invariant forall i :: 0 <= i < s ==> a[i] == old(a[l - 1 - i]) && a[l - 1 - i] == old(a[i])
      invariant forall i :: s <= i <= p ==> a[i] == old(a[i])
      invariant forall i :: l <= i < a.Length ==> a[i] == old(a[i])
      decreases p - s
    {
      a[s], a[p] := a[p], a[s];
      s := s + 1;
      p := p - 1;
    }
    ghost var was := old(a[..l]);
    forall i | 0 <= i < l
      ensures a[i] == Reverse(was)[i]
    {
      assert was[l - 1 - i] == old(a[l - 1 - i]);
      if i > p && i >= s {
        assert a[l - 1 - (l - 1 - i)] == old(a[l - 1 - i]);
      }
    }
  }

  /** The digits backwards, then the sign. */
  method PutReversed(a: array<byte>, value: int) returns (p: nat)
    requires LLONG_MIN < value <= LLONG_MAX && a.Length >= SDS_LLSTR_SIZE
    modifies a
    ensures p == |Printed(value)| < SDS_LLSTR_SIZE && Reverse(a[..p]) == Printed(value)
    ensures forall i :: p <= i < a.Length ==> a[i] == old(a[i])
  {
    LongLongFits(value);
    var v := if value < 0 then -value else value;
    p := PutReversedDigits(a, v);
    if value < 0 {
      ReverseSnoc(a[..p], MINUS);
      ghost var before := a[..p];
      a[p] := MINUS;
      p := p + 1;
      assert a[..p] == before + [MINUS];
    }
  }

  /** sdsll2str: digits backwards, then the sign, then a swap; NUL-terminated. */
  method LongLongToStr(a: array<byte>, value: int) returns (l: nat)
    requires LLONG_MIN < value <= LLONG_MAX && a.Length >= SDS_LLSTR_SIZE
    modifies a
    ensures l == |Printed(value)| < SDS_LLSTR_SIZE
    ensures a[..l] == Printed(value) && a[l] == NUL
    ensures forall i :: l < i < a.Length ==> a[i] == old(a[i])
  {
    l := PutReversed(a, value);
    a[l] := NUL;
    ReverseInPlace(a, l);
  }

  /** sdsull2str. */
  method UnsignedToStr(a: array<byte>, value: nat) returns (l: nat)
    requires value <= ULLONG_MAX && a.Length >= SDS_LLSTR_SIZE
    modifies a
    ensures l == |Digits(value)| < SDS_LLSTR_SIZE
    ensures a[..l] == Digits(value) && a[l] == NUL
    ensures forall i :: l < i < a.Length ==> a[i] == old(a[i])
  {
    var p := PutReversedDigits(a, value);
    l := p;
    a[p] := NUL;
    ReverseInPlace(a, l);
  }

  /** Writes the digits of u so that they end at the last byte of buf; p is the byte before them. */
  method PutDigitsBackwards(buf: array<byte>, u: nat) returns (p: int)
    requires |Digits(u)| <= 20 && buf.Length == 32
    modifies buf
    ensures 11 <= p < 31 && buf[p + 1..] == Digits(u)
  {
    FirstDigit(u);
    p := 31;
    buf[p] := LastDigit(u);
    p := p - 1;
    var v: nat := u / 10;
    while v != 0
      invariant p <= 30
      invariant |Pending(v)| + 31 - p == |Digits(u)|
      invariant Pending(v) + buf[p + 1..] == Digits(u)
      decreases v
    {
      PrintStep(v, buf[p + 1..]);
      buf[p] := LastDigit(v);
      assert buf[p..] == [LastDigit(v)] + buf[p + 1..];
      v := v / 10;
      p := p - 1;
    }
  }

  /** sdsfromlonglong: fills a 32-byte buffer from its end. */
  method FromLongLong(value: int) returns (s: bytes)
    requires LLONG_MIN < value <= LLONG_MAX
    ensures s == Printed(value)
  {
    LongLongFits(if value < 0 then -value else value);
    var buf := new byte[32];
    var p := PutDigitsBackwards(buf, if value < 0 then -value else value);
    if value < 0 {
      buf[p] := MINUS;
      assert buf[p..] == [MINUS] + buf[p + 1..];
      p := p - 1;
    }
    p := p + 1;
    s := buf[p..];
  }

  // ---------------------------------------------------------------- readLongLong

  /** A two's complement 64-bit result; the identity inside the range of long long. */
  function Wrap(x: int): (r: int)
    ensures LLONG_MIN <= r <= LLONG_MAX
    ensures LLONG_MIN <= x <= LLONG_MAX ==> r == x
    decreases if x > LLONG_MAX then x - LLONG_MAX else if x < LLONG_MIN then LLONG_MIN - x else 0
  {
    if x > LLONG_MAX then Wrap(x - ULLONG_MAX - 1)
    else if x < LLONG_MIN then Wrap(x + ULLONG_MAX + 1)
    else x
  }

  /** Digits up to the first CR, added to v; anything else reads as -1 with multiplier 1. */
  function Accumulate(s: bytes, v: int, mult: int): int
    requires CR in s
  {
    if s[0] == CR then Wrap(mult * v)
    else if IsDigit(s[0]) then Accumulate(s[1..], Wrap(Wrap(v * 10) + (s[0] - ZERO)), mult)
    else -1
  }

  /** The number readLongLong finds at the start of s, which must hold a CR. */
  function Number(s: bytes): int
    requires CR in s
  {
    if s[0] == MINUS then Accumulate(s[1..], 0, -1)
    else if s[0] == PLUS then Accumulate(s[1..], 0, 1)
    else Accumulate(s, 0, 1)
  }

  lemma AccumulateStep(s: bytes, v: int, mult: int)
    requires CR in s
    ensures s[0] == CR ==> Accumulate(s, v, mult) == Wrap(mult * v)
    ensures s[0] != CR ==> |s| >= 2 && CR in s[1..]
    ensures s[0] != CR && IsDigit(s[0]) ==>
              Accumulate(s, v, mult) == Accumulate(s[1..], Wrap(Wrap(v * 10) + (s[0] - ZERO)), mult)
    ensures s[0] != CR && !IsDigit(s[0]) ==> Accumulate(s, v, mult) == -1
  {
  }

  /** Largest magnitude the accumulator of readLongLong takes before it is wrapped. */
  function PeakMagnitude(s: bytes, v: nat): (m: nat)
    requires CR in s
    ensures m >= v
  {
    if s[0] == CR || !IsDigit(s[0]) then v
    else PeakMagnitude(s[1..], v * 10 + (s[0] - ZERO))
  }

  /** readLongLong, over the buffer from `start` on. */
  method ReadLongLong(buf: array<byte>, start: nat) returns (r: int)
    requires start <= buf.Length && CR in buf[start..]
    ensures r == Number(buf[start..])
  {
    ghost var text := buf[start..];
    var s, mult := start, 1;
    if buf[s] == MINUS {
      mult := -1;
      s := s + 1;
    } else if buf[s] == PLUS {
      mult := 1;
      s := s + 1;
    }
    r := ScanDigits(buf, s, mult);
    assert text[1..] == buf[start + 1..];
  }

  /** The digit loop of readLongLong. */
  method ScanDigits(buf: array<byte>, start: nat, mult: int) returns (r: int)
    requires start <= buf.Length && CR in buf[start..]
    ensures r == Accumulate(buf[start..], 0, mult)
  {
    ghost var text := buf[start..];
    var s, v := start, 0;
    while buf[s] != CR
      invariant start <= s < buf.Length && CR in buf[s..]
      invariant Accumulate(text, 0, mult) == Accumulate(buf[s..], v, mult)
      decreases buf.Length - s
    {
      AccumulateStep(buf[s..], v, mult);
      assert buf[s..][1..] == buf[s + 1..];
      var dec := buf[s] - ZERO;
      if 0 <= dec < 10 {
        v := Wrap(v * 10);
        v := Wrap(v + dec);
      } else {
        return -1;
      }
      s := s + 1;
    }
    AccumulateStep(buf[s..], v, mult);
    r := Wrap(mult * v);
  }

  lemma OneDigit(v: nat, d: byte, rest: bytes, mult: int)
    requires ZERO <= d < ZERO + 10 && v * 10 + (d - ZERO) <= LLONG_MAX && CR in rest
    ensures Accumulate([d] + rest, v, mult) == Accumulate(rest, v * 10 + (d - ZERO), mult)
    ensures PeakMagnitude([d] + rest, v) == PeakMagnitude(rest, v * 10 + (d - ZERO))
  {
    assert ([d] + rest)[1..] == rest;
  }

  lemma {:induction false} AccumulateDigits(n: nat, rest: bytes, mult: int)
    requires n <= LLONG_MAX && CR in rest
    ensures Accumulate(Digits(n) + rest, 0, mult) == Accumulate(rest, n, mult)
    ensures PeakMagnitude(Digits(n) + rest, 0) == PeakMagnitude(rest, n)
  {
    if n < 10 {
      assert ([ZERO + n] + rest)[1..] == rest;
    } else {
      var d: byte := ZERO + n % 10;
      assert Digits(n) + rest == Digits(n / 10) + ([d] + rest);
      AccumulateDigits(n / 10, [d] + rest, mult);
      OneDigit(n / 10, d, rest, mult);
    }
  }

  /** Printing and scanning are inverse on every long long but the minimum, and the scanner never
      overflows on the way. */
  lemma DecimalRoundTrip(v: int, rest: bytes)
    requires LLONG_MIN < v <= LLONG_MAX
    ensures Number(Printed(v) + [CR] + rest) == v
    ensures v >= 0 ==> PeakMagnitude(Printed(v) + [CR] + rest, 0) <= LLONG_MAX
    ensures v < 0 ==> PeakMagnitude((Printed(v) + [CR] + rest)[1..], 0) <= LLONG_MAX
  {
    var s := Printed(v) + [CR] + rest;
    if v < 0 {
      assert s[1..] == Digits(-v) + ([CR] + rest);
      AccumulateDigits(-v, [CR] + rest, -1);
    } else {
      assert s == Digits(v) + ([CR] + rest);
      AccumulateDigits(v, [CR] + rest, 1);
    }
  }

  lemma LastDigitApart(v: int, rest: bytes)
    requires v <= -10
    ensures Printed(v) + [CR] + rest == [MINUS] + (Digits(-v / 10) + ([ZERO + -v % 10] + ([CR] + rest)))
  {
  }

  /** At the minimum the scanner wraps twice, which comes to the right value. */
  lemma MinimumRoundTrip(v: int, rest: bytes)
    requires v == LLONG_MIN
    ensures Number(Printed(v) + [CR] + rest) == v
  {
    var n, last := -v / 10, [CR] + rest;
    var d: byte := ZERO + -v % 10;
    var tail := [d] + last;
    LastDigitApart(v, rest);
    assert (Printed(v) + [CR] + rest)[1..] == Digits(n) + tail;
    AccumulateDigits(n, tail, -1);
    AccumulateStep(tail, n, -1);
    assert tail[1..] == last;
    AccumulateStep(last, v, -1);
  }

  /** Scanning looks no further than the first CR. */
  lemma {:induction false} AccumulateLocal(s: bytes, x: bytes, v: int, mult: int)
    requires CR in s
    ensures Accumulate(s + x, v, mult) == Accumulate(s, v, mult)
  {
    if s[0] != CR && IsDigit(s[0]) {
      assert (s + x)[1..] == s[1..] + x;
      AccumulateLocal(s[1..], x, Wrap(Wrap(v * 10) + (s[0] - ZERO)), mult);
    }
  }

  lemma NumberLocal(s: bytes, x: bytes)
    requires CR in s
    ensures Number(s + x) == Number(s)
  {
    if s[0] == MINUS || s[0] == PLUS {
      assert (s + x)[1..] == s[1..] + x;
      AccumulateLocal(s[1..], x, 0, if s[0] == MINUS then -1 else 1);
    } else {
      AccumulateLocal(s, x, 0, 1);
    }
  }
}
