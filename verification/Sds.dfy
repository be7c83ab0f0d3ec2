/** The sds dynamic string: a header with len and free, and a buffer that always has a NUL at buf[len]. */
module Sds {
  import opened Bytes
  import opened Decimal

  const SDS_MAX_PREALLOC: nat := 1024 * 1024

  // ---------------------------------------------------------------- growth, on the header alone

  /** The header fields, and how many bytes of content reallocations have carried over so far. */
  datatype Header = Header(len: nat, free: nat, carried: nat)

  function Grown(needed: nat): nat {
    if needed < SDS_MAX_PREALLOC then needed * 2 else needed + SDS_MAX_PREALLOC
  }

  function Room(h: Header, addlen: nat): (r: Header)
    ensures r.len == h.len && r.free >= addlen
  {
    if h.free >= addlen then h
    else Header(h.len, Grown(h.len + addlen) - h.len, h.carried + h.len)
  }

  function Appended(h: Header, n: nat): Header {
    var r := Room(h, n);
    Header(r.len + n, r.free - n, r.carried)
  }

  function AppendAll(h: Header, sizes: seq<nat>): Header
    decreases |sizes|
  {
    if sizes == [] then h else AppendAll(Appended(h, sizes[0]), sizes[1..])
  }

  function Sum(sizes: seq<nat>): nat {
    if sizes == [] then 0 else sizes[0] + Sum(sizes[1..])
  }

  lemma {:induction false} AmortisedFrom(h: Header, sizes: seq<nat>)
    requires h.carried <= h.len + h.free <= 2 * h.len
    requires h.len + Sum(sizes) < SDS_MAX_PREALLOC
    ensures var r := AppendAll(h, sizes);
      r.len == h.len + Sum(sizes) && r.carried <= r.len + r.free <= 2 * r.len
    decreases |sizes|
  {
    if sizes != [] {
      AmortisedFrom(Appended(h, sizes[0]), sizes[1..]);
    }
  }

  /** Appending is amortised: from the empty string, while the lengths asked for stay below the
      preallocation limit, all reallocations together carry over at most twice the final length,
      and the allocation is never more than twice the content. */
  lemma AmortisedGrowth(sizes: seq<nat>)
    requires Sum(sizes) < SDS_MAX_PREALLOC
    ensures var r := AppendAll(Header(0, 0, 0), sizes);
      r.len == Sum(sizes) && r.carried <= 2 * r.len && r.len + r.free <= 2 * r.len
  {
    AmortisedFrom(Header(0, 0, 0), sizes);
  }

  function Sizes(pieces: seq<bytes>): (sizes: seq<nat>)
    ensures |sizes| == |pieces|
  {
    seq(|pieces|, k requires 0 <= k < |pieces| => |pieces[k]|)
  }

  /** At any size, appends leave no more slack than the content or the preallocation limit. */
  lemma {:induction false} SlackBounded(h: Header, sizes: seq<nat>)
    requires h.free <= h.len || h.free <= SDS_MAX_PREALLOC
    ensures var r := AppendAll(h, sizes);
      r.len == h.len + Sum(sizes) && (r.free <= r.len || r.free <= SDS_MAX_PREALLOC)
    decreases |sizes|
  {
    if sizes != [] {
      SlackBounded(Appended(h, sizes[0]), sizes[1..]);
    }
  }

  // ---------------------------------------------------------------- sdsrange, on values

  /** The bytes from start to end, both inclusive, a negative index counting from the end. */
  function Slice(s: bytes, start: int, end: int): bytes {
    var from := if start >= 0 then start else if |s| + start < 0 then 0 else |s| + start;
    var to := if end >= 0 then end else if |s| + end < 0 then 0 else |s| + end;
    var stop := if to < |s| then to + 1 else |s|;
    if from < stop then s[from..stop] else []
  }

  /** With both indices inside, the bytes between them, both included; a negative index counts from the end,
      one before the start is the start, one behind the end is the end; nothing when they cross. */
  lemma SliceMeans(s: bytes, i: nat, j: nat, k: nat, l: int)
    requires i <= j < |s|
    ensures Slice(s, i, j) == Slice(s, i - |s|, j) == s[i..j + 1]
    ensures Slice(s, i, j - |s|) == Slice(s, i - |s|, j - |s|) == s[i..j + 1]
    ensures Slice(s, -|s| - k, j) == s[..j + 1] && Slice(s, i, |s| + k) == s[i..]
    ensures j > i ==> Slice(s, j, i) == Slice(s, j - |s|, i - |s|) == []
    ensures Slice(s, |s| + k, l) == []
  {
    assert s[0..j + 1] == s[..j + 1] && s[i..|s|] == s[i..];
  }

  /** The use the reader and the writer make of sdsrange: drop a prefix. */
  lemma SliceDrops(s: bytes, n: nat)
    requires n <= |s|
    ensures Slice(s, n, -1) == s[n..]
  {
  }

  // ---------------------------------------------------------------- sdscatfmt, on values

  datatype FmtArg = StrArg(text: bytes) | IntArg(value: int) | UnsignedArg(size: nat)

  predicate TakesArg(next: byte) {
    next == 's' as int || next == 'S' as int || next == 'i' as int || next == 'I' as int ||
    next == 'u' as int || next == 'U' as int || next == 'T' as int
  }

  /** The argument fits the directive, as C's va_arg demands. */
  predicate ArgFits(next: byte, arg: FmtArg) {
    if next == 's' as int || next == 'S' as int then arg.StrArg?
    else if next == 'i' as int then arg.IntArg? && -INT_MAX - 1 <= arg.value <= INT_MAX
    else if next == 'I' as int then arg.IntArg? && LLONG_MIN < arg.value <= LLONG_MAX
    else if next == 'u' as int then arg.UnsignedArg? && arg.size < UINT_VALUES
    else arg.UnsignedArg? && arg.size <= ULLONG_MAX
  }

  function ArgText(next: byte, arg: FmtArg): bytes
    requires ArgFits(next, arg)
  {
    match arg
    case StrArg(text) => if next == 's' as int then CString(text) else text
    case IntArg(value) => Printed(value)
    case UnsignedArg(size) => Digits(size)
  }

  /** Every directive has its argument, and no lone '%' ends the format. */
  predicate FmtFits(fmt: bytes, args: seq<FmtArg>) {
    if fmt == [] then true
    else if fmt[0] != PERCENT then FmtFits(fmt[1..], args)
    else
      |fmt| >= 2 &&
      if TakesArg(fmt[1]) then args != [] && ArgFits(fmt[1], args[0]) && FmtFits(fmt[2..], args[1..])
      else FmtFits(fmt[2..], args)
  }

  function Fmt(fmt: bytes, args: seq<FmtArg>): bytes
    requires FmtFits(fmt, args)
  {
    if fmt == [] then []
    else if fmt[0] != PERCENT then [fmt[0]] + Fmt(fmt[1..], args)
    else if TakesArg(fmt[1]) then ArgText(fmt[1], args[0]) + Fmt(fmt[2..], args[1..])
    else [fmt[1]] + Fmt(fmt[2..], args)
  }

  /** %s takes a C string up to its NUL, %S an sds string with all its bytes; the integers are printed; any
      other letter stands for itself. */
  lemma DirectivesMean(text: bytes, junk: bytes, v: int, size: nat, other: byte)
    requires NUL !in text && -INT_MAX - 1 <= v <= INT_MAX && size < UINT_VALUES
    requires other as char !in "sSiIuUT"
    ensures var fmt: bytes := [PERCENT, 's' as int];
      FmtFits(fmt, [StrArg(text + [NUL] + junk)]) && Fmt(fmt, [StrArg(text + [NUL] + junk)]) == text
    ensures var fmt: bytes := [PERCENT, 'S' as int];
      FmtFits(fmt, [StrArg(text + [NUL] + junk)]) && Fmt(fmt, [StrArg(text + [NUL] + junk)]) == text + [NUL] + junk
    ensures var fmt: bytes := [PERCENT, 'i' as int];
      FmtFits(fmt, [IntArg(v)]) && Fmt(fmt, [IntArg(v)]) == Printed(v)
    ensures var fmt: bytes := [PERCENT, 'u' as int];
      FmtFits(fmt, [UnsignedArg(size)]) && Fmt(fmt, [UnsignedArg(size)]) == Digits(size)
    ensures FmtFits([PERCENT, other], []) && Fmt([PERCENT, other], []) == [other]
  {
    CStringOfClean(text, junk);
    OneDirective('s' as int, StrArg(text + [NUL] + junk));
    OneDirective('S' as int, StrArg(text + [NUL] + junk));
    OneDirective('i' as int, IntArg(v));
    OneDirective('u' as int, UnsignedArg(size));
    NoDirective(other);
  }

  lemma OneDirective(next: byte, arg: FmtArg)
    requires TakesArg(next) && ArgFits(next, arg)
    ensures FmtFits([PERCENT, next], [arg]) && Fmt([PERCENT, next], [arg]) == ArgText(next, arg)
  {
    var fmt := [PERCENT, next];
    assert fmt[2..] == [] && [arg][1..] == [];
    assert FmtFits([], []) && Fmt([], []) == [];
  }

  lemma NoDirective(next: byte)
    requires !TakesArg(next)
    ensures FmtFits([PERCENT, next], []) && Fmt([PERCENT, next], []) == [next]
  {
    assert [PERCENT, next][2..] == [];
    assert FmtFits([], []) && Fmt([], []) == [];
  }

  /** One round of the sdscatfmt loop, with c already appended. */
  lemma FmtStep(fmt: bytes, f: nat, args: seq<FmtArg>, a: nat, c: bytes)
    requires f < |fmt| && a <= |args| && FmtFits(fmt[f..], args[a..])
    ensures fmt[f] != PERCENT ==>
              && FmtFits(fmt[f + 1..], args[a..])
              && c + Fmt(fmt[f..], args[a..]) == (c + [fmt[f]]) + Fmt(fmt[f + 1..], args[a..])
    ensures fmt[f] == PERCENT ==> f + 1 < |fmt|
    ensures fmt[f] == PERCENT && !TakesArg(fmt[f + 1]) ==>
              && FmtFits(fmt[f + 2..], args[a..])
              && c + Fmt(fmt[f..], args[a..]) == (c + [fmt[f + 1]]) + Fmt(fmt[f + 2..], args[a..])
    ensures fmt[f] == PERCENT && TakesArg(fmt[f + 1]) ==>
              && a < |args| && ArgFits(fmt[f + 1], args[a]) && FmtFits(fmt[f + 2..], args[a + 1..])
              && c + Fmt(fmt[f..], args[a..]) == (c + ArgText(fmt[f + 1], args[a])) + Fmt(fmt[f + 2..], args[a + 1..])
  {
    if fmt[f] != PERCENT {
      assert fmt[f..][1..] == fmt[f + 1..];
    } else {
      assert fmt[f..][2..] == fmt[f + 2..];
      if TakesArg(fmt[f + 1]) {
        assert args[a..][1..] == args[a + 1..];
      }
    }
  }

  // ---------------------------------------------------------------- the string itself

  class String {
    var len: nat
    var free: nat
    var buf: array<byte>
    ghost var carried: nat

    /** The header describes the allocation. */
    ghost predicate Shaped()
      reads this
    {
      buf.Length == len + free + 1
    }

    ghost predicate Valid()
      reads this, buf
    {
      Shaped() && buf[len] == NUL
    }

    ghost function Contents(): (s: bytes)
      requires Shaped()
      reads this, buf
      ensures |s| == len
    {
      buf[..len]
    }

    ghost function View(): Header
      reads this
    {
      Header(len, free, carried)
    }

    /** sdsnewlen. */
    constructor (init: bytes)
      ensures Valid() && fresh(buf)
      ensures Contents() == init && View() == Header(|init|, 0, 0)
    {
      len := |init|;
      free := 0;
      carried := 0;
      buf := new byte[|init| + 1](i requires 0 <= i < |init| + 1 => if i < |init| then init[i] else NUL);
      new;
      assert buf[..len] == init;
    }

    /** sdsMakeRoomFor. */
    method MakeRoomFor(addlen: nat)
      requires Shaped()
      modifies this
      ensures Shaped() && (old(Valid()) ==> Valid())
      ensures View() == Room(old(View()), addlen)
      ensures Contents() == old(Contents())
      ensures buf == old(buf) || fresh(buf)
    {
      if free >= addlen {
        return;
      }
      var newlen := len + addlen;
      if newlen < SDS_MAX_PREALLOC {
        newlen := newlen * 2;
      } else {
        newlen := newlen + SDS_MAX_PREALLOC;
      }
      var old_buf := buf;
      var new_buf := new byte[newlen + 1];
      forall i | 0 <= i < old_buf.Length {
        new_buf[i] := old_buf[i];
      }
      buf := new_buf;
      carried := carried + len;
      free := newlen - len;
    }

    /** sdscatlen. */
    method CatLen(t: bytes)
      requires Valid()
      modifies this, buf
      ensures Valid() && (buf == old(buf) || fresh(buf))
      ensures Contents() == old(Contents()) + t
      ensures View() == Appended(old(View()), |t|)
    {
      var curlen := len;
      ghost var was := Contents();
      MakeRoomFor(|t|);
      assert Contents() == was;
      forall i | 0 <= i < |t| {
        buf[curlen + i] := t[i];
      }
      len := curlen + |t|;
      free := free - |t|;
      buf[curlen + |t|] := NUL;
      assert buf[..curlen] == was;
      assert buf[curlen..curlen + |t|] == t;
      assert Contents() == buf[..curlen] + buf[curlen..curlen + |t|];
    }

    /** Any sdscatlen calls, one after the other. */
    method CatAll(pieces: seq<bytes>)
      requires Valid()
      modifies this, buf
      ensures Valid() && (buf == old(buf) || fresh(buf))
      ensures Contents() == old(Contents()) + Flat(pieces)
      ensures View() == AppendAll(old(View()), Sizes(pieces))
      decreases |pieces|
    {
      if pieces == [] {
        return;
      }
      CatLen(pieces[0]);
      CatAll(pieces[1..]);
      assert Sizes(pieces)[1..] == Sizes(pieces[1..]);
      assert old(Contents()) + (pieces[0] + Flat(pieces[1..])) == old(Contents()) + pieces[0] + Flat(pieces[1..]);
    }

    /** The index arithmetic of sdsrange: which bytes of a string w stay. */
    static method RangeBounds(n: nat, start: int, end: int, ghost w: bytes) returns (from: nat, newlen: nat)
      requires 0 < n == |w|
      ensures from + newlen <= n || newlen == 0
      ensures newlen <= n
      ensures newlen > 0 ==> w[from..from + newlen] == Slice(w, start, end)
      ensures newlen == 0 ==> Slice(w, start, end) == []
    {
      var s, e := start, end;
      if s < 0 {
        s := n + s;
        if s < 0 { s := 0; }
      }
      if e < 0 {
        e := n + e;
        if e < 0 { e := 0; }
      }
      var kept: int := if s > e then 0 else e - s + 1;
      if kept != 0 {
        if s >= n {
          kept := 0;
        } else if e >= n {
          e := n - 1;
          kept := if s > e then 0 else e - s + 1;
        }
      } else {
        s := 0;
      }
      from, newlen := s, kept;
    }

    /** sdsrange: in place, no reallocation. */
    method Range(start: int, end: int)
      requires Valid()
      modifies this`len, this`free, buf
      ensures Valid()
      ensures Contents() == Slice(old(Contents()), start, end)
      ensures len + free == old(len + free)
    {
      if len == 0 {
        return;
      }
      ghost var was := Contents();
      var from, newlen := RangeBounds(len, start, end, was);
      if from != 0 && newlen != 0 {
        forall i | 0 <= i < newlen {
          buf[i] := buf[from + i];
        }
      }
      buf[newlen] := NUL;
      free := free + (len - newlen);
      len := newlen;
      assert newlen > 0 ==> buf[..newlen] == was[from..from + newlen];
    }

    /** Appends bytes at the write position of sdscatfmt; the NUL comes at the end. */
    method Put(t: bytes)
      requires Shaped()
      modifies this, buf
      ensures Shaped() && (buf == old(buf) || fresh(buf))
      ensures Contents() == old(Contents()) + t
    {
      ghost var was := Contents();
      if free < |t| {
        MakeRoomFor(|t|);
      }
      forall i | 0 <= i < |t| {
        buf[len + i] := t[i];
      }
      assert buf[..len] == was;
      len := len + |t|;
      free := free - |t|;
      assert buf[..len] == was + t;
    }

    /** One turn of the loop of sdscatfmt: a character, or a directive with its argument. */
    method CatOne(fmt: bytes, f0: nat, args: seq<FmtArg>, a0: nat) returns (f: nat, a: nat)
      requires Shaped() && f0 < |fmt| && a0 <= |args| && FmtFits(fmt[f0..], args[a0..])
      modifies this, buf
      ensures Shaped() && (buf == old(buf) || fresh(buf))
      ensures f0 < f <= |fmt| && a <= |args| && FmtFits(fmt[f..], args[a..])
      ensures Contents() + Fmt(fmt[f..], args[a..]) == old(Contents()) + Fmt(fmt[f0..], args[a0..])
    {
      f, a := f0, a0;
      FmtStep(fmt, f, args, a, Contents());
      if free == 0 {
        MakeRoomFor(1);
      }
      if fmt[f] == PERCENT {
        f := f + 1;
        var next := fmt[f];
        if TakesArg(next) {
          var text := RenderArg(next, args[a]);
          Put(text);
          a := a + 1;
        } else {
          Put([next]);
        }
      } else {
        Put([fmt[f]]);
      }
      f := f + 1;
    }

    /** sdscatfmt. */
    method CatFmt(fmt: bytes, args: seq<FmtArg>)
      requires Valid() && FmtFits(fmt, args)
      modifies this, buf
      ensures Valid() && (buf == old(buf) || fresh(buf))
      ensures Contents() == old(Contents()) + Fmt(fmt, args)
    {
      ghost var target := Contents() + Fmt(fmt, args);
      var f, a := 0, 0;
      while f < |fmt|
        invariant 0 <= f <= |fmt| && 0 <= a <= |args|
        invariant Shaped() && (buf == old(buf) || fresh(buf))
        invariant FmtFits(fmt[f..], args[a..])
        invariant target == Contents() + Fmt(fmt[f..], args[a..])
        decreases |fmt| - f
      {
        f, a := CatOne(fmt, f, args, a);
      }
      buf[len] := NUL;
    }

    /** The text of one argument; numbers go through a stack buffer of SDS_LLSTR_SIZE bytes. */
    static method RenderArg(next: byte, arg: FmtArg) returns (text: bytes)
      requires ArgFits(next, arg)
      ensures text == ArgText(next, arg)
    {
      match arg
      case StrArg(s) =>
        text := if next == 's' as int then CString(s) else s;
      case IntArg(v) =>
        var tmp := new byte[SDS_LLSTR_SIZE];
        var l := LongLongToStr(tmp, v);
        text := tmp[..l];
      case UnsignedArg(v) =>
        var tmp := new byte[SDS_LLSTR_SIZE];
        var l := UnsignedToStr(tmp, v);
        text := tmp[..l];
    }
  }

  /** From the empty string, below the preallocation limit: what the appends leave behind, and what
      they have cost. */
  method Collect(pieces: seq<bytes>) returns (s: String)
    requires Sum(Sizes(pieces)) < SDS_MAX_PREALLOC
    ensures fresh(s) && s.Valid() && s.Contents() == Flat(pieces)
    ensures s.carried <= 2 * s.len && s.len + s.free <= 2 * s.len
  {
    s := new String([]);
    s.CatAll(pieces);
    AmortisedGrowth(Sizes(pieces));
    assert [] + Flat(pieces) == Flat(pieces);
  }
}
