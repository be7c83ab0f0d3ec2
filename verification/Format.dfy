/** redisvFormatCommand, for formats of literals, spaces, %s, %b and %%. */
module Format {
  import opened Bytes
  import opened Command

  // ---------------------------------------------------------------- what a format means

  /** A format read once, before any argument is looked at. */
  datatype Piece = Gap | Literal(b: byte) | Text | Blob

  const LOWER_S: byte := 's' as int
  const LOWER_B: byte := 'b' as int

  /** No printf conversion occurs in the format. */
  predicate Simple(f: bytes) {
    if |f| < 2 then true
    else if f[0] != PERCENT then Simple(f[1..])
    else f[1] in {LOWER_S, LOWER_B, PERCENT} && Simple(f[2..])
  }

  function Pieces(f: bytes): seq<Piece>
    requires Simple(f)
  {
    if f == [] then []
    else if f[0] != PERCENT || |f| == 1 then [if f[0] == SPACE then Gap else Literal(f[0])] + Pieces(f[1..])
    else [if f[1] == LOWER_S then Text else if f[1] == LOWER_B then Blob else Literal(PERCENT)] + Pieces(f[2..])
  }

  /** The maximal runs of pieces between gaps. */
  function WordsAfter(word: seq<Piece>, ps: seq<Piece>): seq<seq<Piece>>
    decreases |ps|
  {
    if ps == [] then (if word == [] then [] else [word])
    else if ps[0] == Gap then (if word == [] then [] else [word]) + WordsAfter([], ps[1..])
    else WordsAfter(word + [ps[0]], ps[1..])
  }

  function Words(ps: seq<Piece>): seq<seq<Piece>> {
    WordsAfter([], ps)
  }

  /** How many arguments a piece takes, and what it puts in. */
  function Takes(p: Piece): nat {
    if p.Text? || p.Blob? then 1 else 0
  }

  function Value(p: Piece, args: seq<bytes>, a: nat): bytes
    requires a + Takes(p) <= |args|
  {
    match p
    case Gap => []
    case Literal(b) => [b]
    case Text => CString(args[a])
    case Blob => args[a]
  }

  function Arity(ps: seq<Piece>): nat {
    if ps == [] then 0 else Takes(ps[0]) + Arity(ps[1..])
  }

  /** cur with a run of pieces appended, the arguments from number a on put in: %s up to its NUL, %b as it is. */
  function FillInto(cur: bytes, ps: seq<Piece>, args: seq<bytes>, a: nat): bytes
    requires a + Arity(ps) <= |args|
    decreases |ps|
  {
    if ps == [] then cur else FillInto(cur + Value(ps[0], args, a), ps[1..], args, a + Takes(ps[0]))
  }

  function Fill(ps: seq<Piece>, args: seq<bytes>, a: nat): bytes
    requires a + Arity(ps) <= |args|
  {
    FillInto([], ps, args, a)
  }

  function TotalArity(words: seq<seq<Piece>>): nat {
    if words == [] then 0 else Arity(words[0]) + TotalArity(words[1..])
  }

  /** Every word filled, left to right: one argument of the command per word. */
  function FillAll(words: seq<seq<Piece>>, args: seq<bytes>, a: nat): (r: seq<bytes>)
    requires a + TotalArity(words) <= |args|
    ensures |r| == |words|
    decreases |words|
  {
    if words == [] then []
    else [Fill(words[0], args, a)] + FillAll(words[1..], args, a + Arity(words[0]))
  }

  // ---------------------------------------------------------------- laws

  lemma {:induction false} ArityConcat(a: seq<Piece>, b: seq<Piece>)
    ensures Arity(a + b) == Arity(a) + Arity(b)
  {
    if a == [] {
      assert a + b == b;
    } else {
      assert (a + b)[1..] == a[1..] + b;
      ArityConcat(a[1..], b);
    }
  }

  lemma {:induction false} WordsArity(word: seq<Piece>, ps: seq<Piece>)
    ensures TotalArity(WordsAfter(word, ps)) == Arity(word) + Arity(ps)
    decreases |ps|
  {
    if ps == [] {
      if word != [] {
        assert [word][1..] == [];
      }
    } else if ps[0] == Gap {
      WordsArity([], ps[1..]);
      if word == [] {
        assert [] + WordsAfter([], ps[1..]) == WordsAfter([], ps[1..]);
      } else {
        assert ([word] + WordsAfter([], ps[1..]))[1..] == WordsAfter([], ps[1..]);
      }
    } else {
      ArityConcat(word, [ps[0]]);
      WordsArity(word + [ps[0]], ps[1..]);
    }
  }

  /** No word is empty or holds a gap, and put side by side the words are the format without its gaps. */
  lemma {:induction false} WordsAreTheFormat(word: seq<Piece>, ps: seq<Piece>)
    requires Gap !in word
    ensures forall w :: w in WordsAfter(word, ps) ==> w != [] && Gap !in w
    ensures Flat(WordsAfter(word, ps)) == word + NoGaps(ps)
    decreases |ps|
  {
    if ps == [] {
      assert word + [] == word;
      if word != [] {
        assert [word][1..] == [];
      }
    } else if ps[0] == Gap {
      var rest := WordsAfter([], ps[1..]);
      WordsAreTheFormat([], ps[1..]);
      if word == [] {
        assert [] + rest == rest;
      } else {
        assert ([word] + rest)[1..] == rest;
      }
      assert [] + NoGaps(ps[1..]) == NoGaps(ps[1..]);
    } else {
      WordsAreTheFormat(word + [ps[0]], ps[1..]);
      assert word + [ps[0]] + NoGaps(ps[1..]) == word + ([ps[0]] + NoGaps(ps[1..]));
    }
  }

  function NoGaps(ps: seq<Piece>): seq<Piece> {
    if ps == [] then [] else (if ps[0] == Gap then [] else [ps[0]]) + NoGaps(ps[1..])
  }

  // ---------------------------------------------------------------- the loop state

  /** Where the scanning loop ends up: argv is what is split off, cur is the argument in progress,
      touched says whether it counts yet, ps are the pieces ahead, and a is the number of the next
      va_list argument. */
  function Scan(argv: seq<bytes>, touched: bool, cur: bytes, ps: seq<Piece>, args: seq<bytes>, a: nat): seq<bytes>
    requires a + Arity(ps) <= |args|
    decreases |ps|
  {
    if ps == [] then Close(argv, touched, cur)
    else if ps[0] == Gap then Scan(Close(argv, touched, cur), false, [], ps[1..], args, a)
    else Scan(argv, true, cur + Value(ps[0], args, a), ps[1..], args, a + Takes(ps[0]))
  }

  /** The argument in progress ends here. */
  function Close(argv: seq<bytes>, touched: bool, cur: bytes): seq<bytes> {
    if touched then argv + [cur] else argv
  }

  lemma FillOne(cur: bytes, p: Piece, args: seq<bytes>, a: nat)
    requires a + Takes(p) <= |args|
    ensures Arity([p]) == Takes(p) && FillInto(cur, [p], args, a) == cur + Value(p, args, a)
  {
    assert [p][1..] == [];
  }

  lemma {:induction false} FillSnoc(cur: bytes, word: seq<Piece>, p: Piece, args: seq<bytes>, a: nat)
    requires a + Arity(word) + Takes(p) <= |args| && a + Arity(word + [p]) <= |args|
    ensures FillInto(cur, word + [p], args, a) == FillInto(cur, word, args, a) + Value(p, args, a + Arity(word))
    decreases |word|
  {
    if word == [] {
      assert word + [p] == [p];
      FillOne(cur, p, args, a);
    } else {
      assert (word + [p])[0] == word[0] && (word + [p])[1..] == word[1..] + [p];
      FillSnoc(cur + Value(word[0], args, a), word[1..], p, args, a + Takes(word[0]));
    }
  }

  /** A piece that is no gap joins the word in progress. */
  lemma ScanPiece(argv: seq<bytes>, word: seq<Piece>, ps: seq<Piece>, args: seq<bytes>, a: nat)
    requires a + Arity(word) + Arity(ps) <= |args| && ps != [] && ps[0] != Gap
    ensures a + Arity(word + [ps[0]]) + Arity(ps[1..]) <= |args|
    ensures Scan(argv, word != [], Fill(word, args, a), ps, args, a + Arity(word)) ==
            Scan(argv, true, Fill(word + [ps[0]], args, a), ps[1..], args, a + Arity(word + [ps[0]]))
  {
    ArityConcat(word, [ps[0]]);
    FillOne([], ps[0], args, a + Arity(word));
    FillSnoc([], word, ps[0], args, a);
  }

  /** The loop's argument list is the split format with its words filled in: splitting comes first,
      so no interpolated value is ever split and no empty one is dropped. */
  lemma {:induction false} ScanFillsWords(argv: seq<bytes>, word: seq<Piece>, ps: seq<Piece>, args: seq<bytes>, a: nat)
    requires a + Arity(word) + Arity(ps) <= |args|
    ensures a + TotalArity(WordsAfter(word, ps)) <= |args|
    ensures Scan(argv, word != [], Fill(word, args, a), ps, args, a + Arity(word)) ==
            argv + FillAll(WordsAfter(word, ps), args, a)
    decreases |ps|
  {
    WordsArity(word, ps);
    if ps == [] {
      if word != [] {
        assert [word][1..] == [];
      }
    } else if ps[0] == Gap && word == [] {
      ScanFillsWords(argv, [], ps[1..], args, a);
      assert [] + WordsAfter([], ps[1..]) == WordsAfter([], ps[1..]);
    } else if ps[0] == Gap {
      ScanFillsWords(argv + [Fill(word, args, a)], [], ps[1..], args, a + Arity(word));
      FillFirst(argv, word, WordsAfter([], ps[1..]), args, a);
    } else {
      ScanPiece(argv, word, ps, args, a);
      ScanFillsWords(argv, word + [ps[0]], ps[1..], args, a);
    }
  }

  lemma FillFirst(argv: seq<bytes>, word: seq<Piece>, rest: seq<seq<Piece>>, args: seq<bytes>, a: nat)
    requires a + Arity(word) + TotalArity(rest) <= |args|
    ensures TotalArity([word] + rest) == Arity(word) + TotalArity(rest)
    ensures argv + FillAll([word] + rest, args, a) ==
            argv + [Fill(word, args, a)] + FillAll(rest, args, a + Arity(word))
  {
    assert ([word] + rest)[1..] == rest;
  }

  /** The argument list a format stands for: split at its spaces first, then filled in. How many
      arguments there are, and which of them a value goes to, does not depend on the values. */
  function Meaning(format: bytes, args: seq<bytes>): (argv: seq<bytes>)
    requires Simple(format) && Arity(Pieces(format)) <= |args|
    ensures |argv| == |Words(Pieces(format))|
  {
    WordsArity([], Pieces(format));
    FillAll(Words(Pieces(format)), args, 0)
  }

  lemma ScanIsMeaning(format: bytes, args: seq<bytes>)
    requires Simple(format) && Arity(Pieces(format)) <= |args|
    ensures Scan([], false, [], Pieces(format), args, 0) == Meaning(format, args)
  {
    WordsArity([], Pieces(format));
    ScanFillsWords([], [], Pieces(format), args, 0);
    assert [] + Meaning(format, args) == Meaning(format, args);
  }

  // ---------------------------------------------------------------- redisvFormatCommand

  /** The state of the scanning loop at format[c]: what is split off, what is in progress, and what
      is still to come make up the target. */
  ghost predicate Scanning(format: bytes, c: nat, args: seq<bytes>, a: nat, argv: seq<bytes>,
                           touched: bool, cur: bytes, target: seq<bytes>)
  {
    && c <= |format| && Simple(format[c..]) && a + Arity(Pieces(format[c..])) <= |args|
    && target == Scan(argv, touched, cur, Pieces(format[c..]), args, a)
  }

  lemma PlainStep(format: bytes, c: nat, args: seq<bytes>, a: nat, argv: seq<bytes>,
                  touched: bool, cur: bytes, target: seq<bytes>)
    requires Scanning(format, c, args, a, argv, touched, cur, target) && c < |format|
    requires format[c] != PERCENT || c + 1 == |format|
    ensures format[c] == SPACE ==>
              Scanning(format, c + 1, args, a, Close(argv, touched, cur), false, [], target)
    ensures format[c] != SPACE ==>
              Scanning(format, c + 1, args, a, argv, true, cur + [format[c]], target)
  {
    assert format[c..][1..] == format[c + 1..];
    var p := if format[c] == SPACE then Gap else Literal(format[c]);
    PieceStep(argv, touched, cur, p, Pieces(format[c + 1..]), args, a);
  }

  lemma DirectiveStep(format: bytes, c: nat, args: seq<bytes>, a: nat, argv: seq<bytes>,
                      touched: bool, cur: bytes, target: seq<bytes>)
    requires Scanning(format, c, args, a, argv, touched, cur, target) && c + 1 < |format|
    requires format[c] == PERCENT
    ensures format[c + 1] in {LOWER_S, LOWER_B, PERCENT}
    ensures format[c + 1] == PERCENT ==>
              Scanning(format, c + 2, args, a, argv, true, cur + [PERCENT], target)
    ensures format[c + 1] != PERCENT ==>
              && a < |args|
              && Scanning(format, c + 2, args, a + 1, argv, true,
                          cur + (if format[c + 1] == LOWER_S then CString(args[a]) else args[a]), target)
  {
    assert format[c..][2..] == format[c + 2..];
    var p := if format[c + 1] == LOWER_S then Text else if format[c + 1] == LOWER_B then Blob else Literal(PERCENT);
    PieceStep(argv, touched, cur, p, Pieces(format[c + 2..]), args, a);
  }

  lemma PieceStep(argv: seq<bytes>, touched: bool, cur: bytes, p: Piece, ps: seq<Piece>, args: seq<bytes>, a: nat)
    requires a + Arity([p] + ps) <= |args|
    ensures a + Takes(p) + Arity(ps) <= |args|
    ensures Scan(argv, touched, cur, [p] + ps, args, a) ==
            if p == Gap then Scan(Close(argv, touched, cur), false, [], ps, args, a)
            else Scan(argv, true, cur + Value(p, args, a), ps, args, a + Takes(p))
  {
    assert ([p] + ps)[1..] == ps;
  }

  /** The value %s or %b adds to the current argument; nothing is appended when it is empty. */
  method Interpolate(curarg: bytes, directive: byte, arg: bytes) returns (newarg: bytes)
    ensures newarg == curarg + if directive == LOWER_S then CString(arg) else arg
  {
    newarg := curarg;
    var value := if directive == LOWER_S then CString(arg) else arg;
    if |value| > 0 {
      newarg := newarg + value;
    }
  }

  /** The scanning loop: splits the format into arguments, with the values put in. */
  method SplitFormat(format: bytes, args: seq<bytes>) returns (argv: seq<bytes>)
    requires Simple(format) && Arity(Pieces(format)) <= |args|
    ensures argv == Scan([], false, [], Pieces(format), args, 0)
  {
    var c, a := 0, 0;
    var curarg, touched := [], false;
    argv := [];
    ghost var target := Scan([], false, [], Pieces(format), args, 0);
    assert format[0..] == format;
    while c < |format|
      invariant 0 <= c && 0 <= a && Scanning(format, c, args, a, argv, touched, curarg, target)
      decreases |format| - c
    {
      if format[c] != PERCENT || c + 1 == |format| {
        PlainStep(format, c, args, a, argv, touched, curarg, target);
        if format[c] == SPACE {
          if touched {
            argv := argv + [curarg];
          }
          curarg, touched := [], false;
        } else {
          curarg := curarg + [format[c]];
          touched := true;
        }
      } else {
        DirectiveStep(format, c, args, a, argv, touched, curarg, target);
        if format[c + 1] == PERCENT {
          curarg := curarg + [PERCENT];
        } else {
          curarg := Interpolate(curarg, format[c + 1], args[a]);
          a := a + 1;
        }
        touched := true;
        c := c + 1;
      }
      c := c + 1;
    }
    if touched {
      argv := argv + [curarg];
    }
  }

  /** redisvFormatCommand: the same bytes as redisFormatCommandArgv on the words of the format, filled in. */
  method VFormatCommand(format: bytes, args: seq<bytes>) returns (cmd: array<byte>, totlen: nat)
    requires NUL !in format && Simple(format) && Arity(Pieces(format)) <= |args|
    requires SizesFit(Meaning(format, args))
    ensures fresh(cmd) && totlen == |CommandText(Meaning(format, args))| && cmd.Length == totlen + 1
    ensures cmd[..totlen] == CommandText(Meaning(format, args)) && cmd[totlen] == NUL
  {
    ScanIsMeaning(format, args);
    var argv := SplitFormat(format, args);
    SizesFitExactly(argv);
    totlen := TotalLength(argv);
    cmd := BuildCommand(argv, totlen);
  }
}
