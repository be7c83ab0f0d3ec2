/** The command formatters of hiredis.c. */
module Command {
  import opened Bytes
  import opened Decimal
  import opened Resp
  import M = ReaderMachine
  import Sds

  // ---------------------------------------------------------------- the text of a command

  function Bulks(args: seq<bytes>): bytes {
    if args == [] then [] else Encode(Str(args[0])) + Bulks(args[1..])
  }

  /** "Sending commands to a Redis server": an array of bulk strings. */
  function CommandText(args: seq<bytes>): bytes {
    ArrayText(|args|, Bulks(args))
  }

  function CountLine(argc: nat): bytes {
    [STAR] + Digits(argc) + CRLF
  }

  lemma {:induction false} BulksConcat(a: seq<bytes>, b: seq<bytes>)
    ensures Bulks(a + b) == Bulks(a) + Bulks(b)
  {
    if a == [] {
      assert a + b == b;
    } else {
      assert (a + b)[1..] == a[1..] + b;
      BulksConcat(a[1..], b);
      assert Encode(Str(a[0])) + (Bulks(a[1..]) + Bulks(b)) == (Encode(Str(a[0])) + Bulks(a[1..])) + Bulks(b);
    }
  }

  lemma BulksSnoc(args: seq<bytes>, j: nat)
    requires j < |args|
    ensures Bulks(args[..j + 1]) == Bulks(args[..j]) + Encode(Str(args[j]))
  {
    assert args[..j + 1] == args[..j] + [args[j]];
    BulksConcat(args[..j], [args[j]]);
    BulksOne(args[j]);
  }

  lemma BulksOne(s: bytes)
    ensures Bulks([s]) == Encode(Str(s))
  {
    assert Bulks([s]) == Encode(Str(s)) + Bulks([s][1..]);
  }

  /** The command up to and including its first j arguments. */
  function Upto(argv: seq<bytes>, j: nat): bytes
    requires j <= |argv|
  {
    CountLine(|argv|) + Bulks(argv[..j])
  }

  lemma UptoStep(argv: seq<bytes>, j: nat)
    requires j < |argv|
    ensures Upto(argv, j + 1) == Upto(argv, j) + Encode(Str(argv[j]))
    ensures |Upto(argv, j + 1)| <= |CommandText(argv)|
  {
    BulksSnoc(argv, j);
    assert argv == argv[..j + 1] + argv[j + 1..];
    BulksConcat(argv[..j + 1], argv[j + 1..]);
  }

  lemma UptoEnds(argv: seq<bytes>)
    ensures Upto(argv, 0) == CountLine(|argv|)
    ensures Upto(argv, |argv|) == CommandText(argv)
  {
    assert argv[..|argv|] == argv;
  }

  /** redisvFormatCommand and redisFormatCommandArgv add the length up in an int, which has to have room
      for one byte more. */
  predicate SizesFit(args: seq<bytes>) {
    forall j :: 0 <= j <= |args| ==> |Upto(args, j)| < INT_MAX
  }

  /** redisFormatSdsCommandArgv adds it up in an unsigned long long; only the count is an int. */
  predicate CountFits(args: seq<bytes>) {
    |args| <= INT_MAX && |CommandText(args)| <= LLONG_MAX
  }

  lemma {:induction false} BulksBound(args: seq<bytes>)
    ensures |args| <= |Bulks(args)| && forall i :: 0 <= i < |args| ==> |args[i]| <= |Bulks(args)|
  {
    if args != [] {
      BulksBound(args[1..]);
      forall i | 0 <= i < |args|
        ensures |args[i]| <= |Bulks(args)|
      {
        assert i > 0 ==> args[i] == args[1..][i - 1];
      }
    }
  }

  /** No count and no length is greater than that of the whole command. */
  lemma WithinCommand(args: seq<bytes>)
    ensures |args| <= |CommandText(args)| && forall i :: 0 <= i < |args| ==> |args[i]| <= |CommandText(args)|
  {
    BulksBound(args);
  }

  lemma SizesFitExactly(args: seq<bytes>)
    ensures SizesFit(args) <==> |CommandText(args)| < INT_MAX
    ensures SizesFit(args) ==>
              CountFits(args) && |args| <= INT_MAX && forall i :: 0 <= i < |args| ==> |args[i]| <= INT_MAX
  {
    WithinCommand(args);
    UptoEnds(args);
    forall j | 0 <= j < |args|
      ensures |Upto(args, j)| <= |CommandText(args)|
    {
      UptoStep(args, j);
    }
  }

  // ---------------------------------------------------------------- the reader reads commands back

  function Strs(args: seq<bytes>): (rs: seq<Reply>)
    ensures |rs| == |args| && forall i :: 0 <= i < |args| ==> rs[i] == Str(args[i])
  {
    seq(|args|, i requires 0 <= i < |args| => Str(args[i]))
  }

  lemma {:induction false} BulksEncode(args: seq<bytes>)
    ensures Bulks(args) == EncodeAll(Strs(args))
  {
    if args != [] {
      BulksEncode(args[1..]);
      assert Strs(args)[1..] == Strs(args[1..]);
    }
  }

  /** Round trip: a formatted command, cut into any chunks, is read back as one array of exactly its arguments. */
  lemma CommandRoundTrip(args: seq<bytes>, calls: seq<M.Call>)
    requires WellFormed(Array(Strs(args)), 0) && M.Fed(calls) == CommandText(args)
    ensures var d := M.Run(M.FRESH, calls);
      d.replies + M.Drain(d.reader).replies == [Array(Strs(args))] && M.Drain(d.reader).reader == M.FRESH
  {
    CommandEncodes(args);
    FlatOne(CommandText(args));
    M.EncodedStream([Array(Strs(args))], [CommandText(args)], calls);
  }

  /** A formatted command is an encoding of the array of its arguments. */
  lemma CommandEncodes(args: seq<bytes>)
    requires WellFormed(Array(Strs(args)), 0)
    ensures Encodes(Array(Strs(args)), CommandText(args), 0)
  {
    BulksEncode(args);
    EncodesItself(Array(Strs(args)), 0);
  }

  // ---------------------------------------------------------------- lengths

  /** bulklen. */
  method BulkLen(len: nat) returns (r: nat)
    requires len <= LLONG_MAX
    ensures r == 1 + |Digits(len)| + 2 + len + 2
    ensures forall s: bytes :: |s| == len ==> r == |Encode(Str(s))|
  {
    var digits := CountDigits(len);
    r := 1 + digits + 2 + len + 2;
  }

  /** The length computation both argv formatters start with. */
  method TotalLength(argv: seq<bytes>) returns (totlen: nat)
    requires CountFits(argv)
    ensures totlen == |CommandText(argv)|
  {
    WithinCommand(argv);
    var digits := CountDigits(|argv|);
    totlen := 1 + digits + 2;
    var j := 0;
    UptoEnds(argv);
    while j < |argv|
      invariant 0 <= j <= |argv|
      invariant totlen == |Upto(argv, j)|
    {
      var n := BulkLen(|argv[j]|);
      UptoStep(argv, j);
      totlen := totlen + n;
      j := j + 1;
    }
  }

  // ---------------------------------------------------------------- redisFormatCommandArgv

  /** Copies text to cmd[pos..], as sprintf and memcpy do. */
  method PutText(cmd: array<byte>, pos: nat, text: bytes) returns (next: nat)
    requires pos + |text| <= cmd.Length
    modifies cmd
    ensures next == pos + |text| && cmd[..next] == old(cmd[..pos]) + text
  {
    forall i | 0 <= i < |text| {
      cmd[pos + i] := text[i];
    }
    next := pos + |text|;
    assert cmd[pos..next] == text;
    assert cmd[..next] == cmd[..pos] + cmd[pos..next];
  }

  method PutBulk(cmd: array<byte>, pos: nat, arg: bytes) returns (next: nat)
    requires pos + |Encode(Str(arg))| <= cmd.Length
    modifies cmd
    ensures next == pos + |Encode(Str(arg))| && cmd[..next] == old(cmd[..pos]) + Encode(Str(arg))
  {
    ghost var was := cmd[..pos];
    next := PutText(cmd, pos, [DOLLAR] + Digits(|arg|) + CRLF);
    next := PutText(cmd, next, arg);
    next := PutText(cmd, next, CRLF);
    assert was + ([DOLLAR] + Digits(|arg|) + CRLF) + arg + CRLF == was + Encode(Str(arg));
  }

  /** The second half of redisvFormatCommand and redisFormatCommandArgv: malloc, fill, check, terminate. */
  method BuildCommand(argv: seq<bytes>, totlen: nat) returns (cmd: array<byte>)
    requires totlen == |CommandText(argv)|
    ensures fresh(cmd) && cmd.Length == totlen + 1
    ensures cmd[..totlen] == CommandText(argv) && cmd[totlen] == NUL
  {
    UptoEnds(argv);
    cmd := new byte[totlen + 1];
    var pos := PutText(cmd, 0, CountLine(|argv|));
    assert cmd[..pos] == CountLine(|argv|);
    var j := 0;
    while j < |argv|
      invariant 0 <= j <= |argv| && 0 <= pos <= totlen
      invariant cmd[..pos] == Upto(argv, j)
    {
      UptoStep(argv, j);
      pos := PutBulk(cmd, pos, argv[j]);
      j := j + 1;
    }
    assert pos == totlen;
    cmd[pos] := NUL;
  }

  /** redisFormatCommandArgv. */
  method FormatCommandArgv(argv: seq<bytes>) returns (cmd: array<byte>, totlen: nat)
    requires SizesFit(argv)
    ensures fresh(cmd) && totlen == |CommandText(argv)| && cmd.Length == totlen + 1
    ensures cmd[..totlen] == CommandText(argv) && cmd[totlen] == NUL
  {
    SizesFitExactly(argv);
    totlen := TotalLength(argv);
    cmd := BuildCommand(argv, totlen);
  }

  // ---------------------------------------------------------------- redisFormatSdsCommandArgv

  const COUNT_FMT: bytes := [STAR, PERCENT, 'i' as int, CR, LF]
  const SIZE_FMT: bytes := [DOLLAR, PERCENT, 'T' as int, CR, LF]

  lemma CountFmt(n: nat)
    requires n <= INT_MAX
    ensures Sds.FmtFits(COUNT_FMT, [Sds.IntArg(n)])
    ensures Sds.Fmt(COUNT_FMT, [Sds.IntArg(n)]) == CountLine(n)
  {
    var args := [Sds.IntArg(n)];
    assert COUNT_FMT[1..] == [PERCENT, 'i' as int, CR, LF];
    assert COUNT_FMT[1..][2..] == CRLF && args[1..] == [];
    FmtCRLF();
    assert Sds.FmtFits(COUNT_FMT[1..], args);
    assert Sds.Fmt(COUNT_FMT[1..], args) == Digits(n) + CRLF;
  }

  lemma SizeFmt(n: nat)
    requires n <= LLONG_MAX
    ensures Sds.FmtFits(SIZE_FMT, [Sds.UnsignedArg(n)])
    ensures Sds.Fmt(SIZE_FMT, [Sds.UnsignedArg(n)]) == [DOLLAR] + Digits(n) + CRLF
  {
    var args := [Sds.UnsignedArg(n)];
    assert SIZE_FMT[1..] == [PERCENT, 'T' as int, CR, LF];
    assert SIZE_FMT[1..][2..] == CRLF && args[1..] == [];
    FmtCRLF();
    assert Sds.FmtFits(SIZE_FMT[1..], args);
    assert Sds.Fmt(SIZE_FMT[1..], args) == Digits(n) + CRLF;
  }

  lemma FmtCRLF()
    ensures Sds.FmtFits(CRLF, []) && Sds.Fmt(CRLF, []) == CRLF
  {
    assert CRLF[1..] == [LF] && [LF][1..] == [];
    assert Sds.Fmt([LF], []) == [LF];
  }

  method CatBulk(cmd: Sds.String, arg: bytes)
    requires cmd.Valid() && |arg| <= LLONG_MAX
    modifies cmd, cmd.buf
    ensures cmd.Valid() && (cmd.buf == old(cmd.buf) || fresh(cmd.buf))
    ensures cmd.Contents() == old(cmd.Contents()) + Encode(Str(arg))
  {
    ghost var was := cmd.Contents();
    SizeFmt(|arg|);
    cmd.CatFmt(SIZE_FMT, [Sds.UnsignedArg(|arg|)]);
    cmd.CatLen(arg);
    cmd.CatLen(CRLF);
    assert was + ([DOLLAR] + Digits(|arg|) + CRLF) + arg + CRLF == was + Encode(Str(arg));
  }

  /** redisFormatSdsCommandArgv: the same bytes, in an sds string; their number is returned as an int. */
  method FormatSdsCommandArgv(argv: seq<bytes>) returns (cmd: Sds.String, rc: int)
    requires CountFits(argv)
    ensures fresh(cmd) && cmd.Valid() && rc == ToInt(|CommandText(argv)|)
    ensures cmd.Contents() == CommandText(argv)
  {
    WithinCommand(argv);
    var totlen := TotalLength(argv);
    cmd := new Sds.String([]);
    cmd.MakeRoomFor(totlen);
    CountFmt(|argv|);
    UptoEnds(argv);
    cmd.CatFmt(COUNT_FMT, [Sds.IntArg(|argv|)]);
    var j := 0;
    while j < |argv|
      invariant 0 <= j <= |argv| && cmd.Valid() && fresh(cmd.buf)
      invariant cmd.Contents() == Upto(argv, j)
    {
      UptoStep(argv, j);
      CatBulk(cmd, argv[j]);
      j := j + 1;
    }
    assert cmd.len == totlen;
    rc := ToInt(totlen);
  }
}
