/** The lines sdssplitargs reads, by the way they are written: which ones it splits, into what, and which
    ones it refuses. */
module QuotedLines {
  import opened Bytes
  import opened Resp
  import opened Quoting
  import Split

  // ---------------------------------------------------------------- how a word may be written

  /** A piece of text between quotes: a byte as it is, a backslash and a byte, or \x and two hex digits. */
  datatype Unit = Raw(b: byte) | Pair(c: byte) | Hex(high: byte, low: byte)

  /** A word without quotes, or one that ends in a quoted part. */
  datatype Word = Bare(text: bytes) | Ending(bare: bytes, quote: byte, inner: seq<Unit>)

  /** What is wrong: a quote that is never closed, or one that something other than a blank follows. */
  datatype Fault =
    | Unclosed(bare: bytes, quote: byte, inner: seq<Unit>)
    | Stuck(bare: bytes, quote: byte, inner: seq<Unit>, rest: bytes)

  function UnitText(x: Unit): (t: bytes)
    ensures t != []
  {
    match x
    case Raw(b) => [b]
    case Pair(c) => [BACKSLASH, c]
    case Hex(high, low) => [BACKSLASH, 'x' as int, high, low]
  }

  function UnitsText(xs: seq<Unit>): bytes {
    if xs == [] then [] else UnitText(xs[0]) + UnitsText(xs[1..])
  }

  function WordText(w: Word): bytes {
    match w
    case Bare(text) => text
    case Ending(bare, quote, inner) => bare + ([quote] + (UnitsText(inner) + [quote]))
  }

  function FaultText(f: Fault): bytes {
    match f
    case Unclosed(bare, quote, inner) => bare + ([quote] + UnitsText(inner))
    case Stuck(bare, quote, inner, rest) => bare + ([quote] + (UnitsText(inner) + ([quote] + rest)))
  }

  /** The number a hex digit stands for. */
  predicate Counts(digit: byte, v: nat) {
    || ('0' as int <= digit <= '9' as int && v == digit - '0' as int)
    || ('a' as int <= digit <= 'f' as int && v == digit - 'a' as int + 10)
    || ('A' as int <= digit <= 'F' as int && v == digit - 'A' as int + 10)
  }

  predicate IsHex(c: byte) {
    '0' as int <= c <= '9' as int || 'a' as int <= c <= 'f' as int || 'A' as int <= c <= 'F' as int
  }

  /** x can stand between quotes of this kind when rest follows. In double quotes a backslash goes with what
      follows it; in single quotes only with an apostrophe. */
  predicate UnitOk(quote: byte, x: Unit, rest: bytes) {
    if quote == QUOTE then
      match x
      case Raw(b) => b != QUOTE && (b == BACKSLASH ==> rest == [])
      case Pair(c) => c == 'x' as int ==> !(|rest| >= 2 && IsHex(rest[0]) && IsHex(rest[1]))
      case Hex(high, low) => IsHex(high) && IsHex(low)
    else
      match x
      case Raw(b) => b != APOSTROPHE && (b == BACKSLASH ==> rest == [] || rest[0] != APOSTROPHE)
      case Pair(c) => c == APOSTROPHE
      case Hex(_, _) => false
  }

  predicate UnitsOk(quote: byte, xs: seq<Unit>, rest: bytes) {
    xs == [] || (UnitOk(quote, xs[0], UnitsText(xs[1..]) + rest) && UnitsOk(quote, xs[1..], rest))
  }

  /** The bytes that end a word without quotes. */
  predicate Ends(b: byte) {
    b == SPACE || b == LF || b == CR || b == TAB
  }

  predicate Plainly(b: byte) {
    !Ends(b) && b != QUOTE && b != APOSTROPHE
  }

  /** The part of a word before its quotes. */
  predicate BareOk(t: bytes) {
    (forall k :: 0 <= k < |t| ==> Plainly(t[k])) && (t != [] ==> !IsSpace(t[0]))
  }

  predicate IsQuote(b: byte) {
    b == QUOTE || b == APOSTROPHE
  }

  /** w can stand on a line when rest follows. */
  predicate WordOk(w: Word, rest: bytes) {
    match w
    case Bare(text) => text != [] && BareOk(text) && (rest != [] ==> Ends(rest[0]))
    case Ending(bare, quote, inner) =>
      && BareOk(bare) && IsQuote(quote) && UnitsOk(quote, inner, [quote] + rest)
      && (rest != [] ==> IsSpace(rest[0]))
  }

  predicate FaultOk(f: Fault) {
    && BareOk(f.bare) && IsQuote(f.quote)
    && match f
       case Unclosed(_, quote, inner) => UnitsOk(quote, inner, [])
       case Stuck(_, quote, inner, rest) => UnitsOk(quote, inner, [quote] + rest) && rest != [] && !IsSpace(rest[0])
  }

  // ---------------------------------------------------------------- what it means

  /** What a letter stands for behind a backslash, in double quotes: a control character, or itself. */
  predicate StandsFor(c: byte, b: byte) {
    if c == 'n' as int then b == 10
    else if c == 'r' as int then b == 13
    else if c == 't' as int then b == 9
    else if c == 'b' as int then b == 8
    else if c == 'a' as int then b == 7
    else b == c
  }

  ghost predicate UnitMeans(quote: byte, x: Unit, b: byte) {
    match x
    case Raw(raw) => b == raw
    case Pair(c) => if quote == QUOTE then StandsFor(c, b) else b == c
    case Hex(high, low) => exists v: nat, w: nat :: Counts(high, v) && Counts(low, w) && b == 16 * v + w
  }

  ghost predicate UnitsMean(quote: byte, xs: seq<Unit>, text: bytes) {
    |text| == |xs| && forall k :: 0 <= k < |xs| ==> UnitMeans(quote, xs[k], text[k])
  }

  ghost predicate WordMeans(w: Word, text: bytes) {
    match w
    case Bare(t) => text == t
    case Ending(bare, quote, inner) => exists t :: UnitsMean(quote, inner, t) && text == bare + t
  }

  ghost predicate WordsMean(ws: seq<Word>, args: seq<bytes>) {
    |args| == |ws| && forall k :: 0 <= k < |ws| ==> WordMeans(ws[k], args[k])
  }

  // ---------------------------------------------------------------- lines

  predicate Blank(gap: bytes) {
    forall k :: 0 <= k < |gap| ==> IsSpace(gap[k])
  }

  /** The words with a gap before each, one more gap, and the end. */
  function LineText(gaps: seq<bytes>, ws: seq<Word>, end: bytes): bytes
    requires |gaps| == |ws| + 1
  {
    if ws == [] then gaps[0] + end else gaps[0] + (WordText(ws[0]) + LineText(gaps[1..], ws[1..], end))
  }

  predicate LineOk(gaps: seq<bytes>, ws: seq<Word>, end: bytes)
    requires |gaps| == |ws| + 1
  {
    && Blank(gaps[0])
    && (ws != [] ==> WordOk(ws[0], LineText(gaps[1..], ws[1..], end)) && LineOk(gaps[1..], ws[1..], end))
  }

  /** The line p is written as these words, with these gaps, and ends like this. */
  predicate Written(p: bytes, gaps: seq<bytes>, ws: seq<Word>, end: bytes) {
    |gaps| == |ws| + 1 && LineOk(gaps, ws, end) && p == LineText(gaps, ws, end)
  }

  // ---------------------------------------------------------------- it is read so

  function ModeFor(quote: byte): Mode {
    if quote == QUOTE then Double else Single
  }

  lemma HexIs(c: byte)
    ensures IsHex(c) <==> IsHexDigit(c)
    ensures IsHex(c) ==> forall v: nat :: Counts(c, v) <==> v == HexDigitToInt(c)
  {
  }

  lemma ReadUnit(quote: byte, x: Unit, rest: bytes, cur: bytes, b: byte)
    requires IsQuote(quote) && UnitOk(quote, x, rest) && UnitMeans(quote, x, b)
    ensures Read(UnitText(x) + rest, ModeFor(quote), cur) == Read(rest, ModeFor(quote), cur + [b])
  {
    var p := UnitText(x) + rest;
    match x {
      case Raw(_) => assert p[1..] == rest;
      case Pair(_) =>
        assert p[2..] == rest;
        if |rest| >= 2 {
          assert p[2] == rest[0] && p[3] == rest[1];
          HexIs(rest[0]);
          HexIs(rest[1]);
        }
      case Hex(high, low) =>
        assert p[4..] == rest;
        HexIs(high);
        HexIs(low);
    }
  }

  lemma {:induction false} ReadUnits(quote: byte, xs: seq<Unit>, rest: bytes, cur: bytes, text: bytes)
    requires IsQuote(quote) && UnitsOk(quote, xs, rest) && UnitsMean(quote, xs, text)
    ensures Read(UnitsText(xs) + rest, ModeFor(quote), cur) == Read(rest, ModeFor(quote), cur + text)
    decreases |xs|
  {
    if xs == [] {
      assert UnitsText(xs) + rest == rest && cur + text == cur;
    } else {
      var others := UnitsText(xs[1..]) + rest;
      assert UnitsText(xs) + rest == UnitText(xs[0]) + others;
      ReadUnit(quote, xs[0], others, cur, text[0]);
      ReadUnits(quote, xs[1..], rest, cur + [text[0]], text[1..]);
      assert cur + [text[0]] + text[1..] == cur + text;
    }
  }

  lemma {:induction false} ReadBare(t: bytes, rest: bytes, cur: bytes)
    requires forall k :: 0 <= k < |t| ==> Plainly(t[k])
    ensures Read(t + rest, Plain, cur) == Read(rest, Plain, cur + t)
    decreases |t|
  {
    if t == [] {
      assert t + rest == rest && cur + t == cur;
    } else {
      assert (t + rest)[1..] == t[1..] + rest;
      ReadBare(t[1..], rest, cur + [t[0]]);
      assert cur + [t[0]] + t[1..] == cur + t;
    }
  }

  /** A quoted part, up to where its quote has to be closed. */
  lemma ReadOpened(bare: bytes, quote: byte, xs: seq<Unit>, rest: bytes, text: bytes)
    requires BareOk(bare) && IsQuote(quote) && UnitsOk(quote, xs, rest) && UnitsMean(quote, xs, text)
    ensures Read(bare + ([quote] + (UnitsText(xs) + rest)), Plain, []) == Read(rest, ModeFor(quote), bare + text)
  {
    var p := [quote] + (UnitsText(xs) + rest);
    ReadBare(bare, p, []);
    assert [] + bare == bare;
    assert p[1..] == UnitsText(xs) + rest;
    ReadUnits(quote, xs, rest, bare, text);
  }

  lemma ReadEnding(bare: bytes, quote: byte, xs: seq<Unit>, rest: bytes, text: bytes)
    requires BareOk(bare) && IsQuote(quote) && UnitsOk(quote, xs, [quote] + rest) && UnitsMean(quote, xs, text)
    ensures Read(bare + ([quote] + (UnitsText(xs) + ([quote] + rest))), Plain, []) ==
            if rest != [] && !IsSpace(rest[0]) then Unbalanced else Token(bare + text, rest)
  {
    ReadOpened(bare, quote, xs, [quote] + rest, text);
    assert ([quote] + rest)[1..] == rest;
  }

  /** Blanks before the next word do not matter. */
  lemma {:induction false} SkipGap(gap: bytes, p: bytes, vector: seq<bytes>)
    requires Blank(gap)
    ensures SkipBlanks(gap + p) == SkipBlanks(p) && ReadAll(gap + p, vector) == ReadAll(p, vector)
    decreases |gap|
  {
    if gap == [] {
      assert gap + p == p;
    } else {
      assert (gap + p)[1..] == gap[1..] + p;
      SkipGap(gap[1..], p, vector);
    }
  }

  lemma ReadNext(q: bytes, vector: seq<bytes>, text: bytes, rest: bytes)
    requires q != [] && !IsSpace(q[0]) && Read(q, Plain, []) == Token(text, rest)
    ensures ReadAll(q, vector) == ReadAll(rest, vector + [text])
  {
  }

  lemma EndingShape(bare: bytes, quote: byte, inner: bytes, rest: bytes)
    ensures bare + ([quote] + (inner + [quote])) + rest == bare + ([quote] + (inner + ([quote] + rest)))
    ensures IsQuote(quote) && BareOk(bare) ==>
              var q := bare + ([quote] + (inner + ([quote] + rest))); q != [] && !IsSpace(q[0])
  {
  }

  /** One word, and what follows it. */
  lemma ReadWord(w: Word, rest: bytes, vector: seq<bytes>, text: bytes)
    requires WordOk(w, rest) && WordMeans(w, text)
    ensures ReadAll(WordText(w) + rest, vector) == ReadAll(rest, vector + [text])
  {
    match w {
      case Bare(t) =>
        ReadBare(t, rest, []);
        assert [] + t == t;
        if rest == [] {
          ReadNext(t + rest, vector, t, []);
        } else {
          ReadNext(t + rest, vector, t, rest[1..]);
          SkipGap([rest[0]], rest[1..], vector + [t]);
          assert [rest[0]] + rest[1..] == rest;
        }
      case Ending(bare, quote, inner) =>
        var t :| UnitsMean(quote, inner, t) && text == bare + t;
        EndingShape(bare, quote, UnitsText(inner), rest);
        ReadEnding(bare, quote, inner, rest, t);
        ReadNext(WordText(w) + rest, vector, text, rest);
    }
  }

  lemma GapAndWord(gap: bytes, w: Word, rest: bytes, vector: seq<bytes>, text: bytes)
    requires Blank(gap) && WordOk(w, rest) && WordMeans(w, text)
    ensures ReadAll(gap + (WordText(w) + rest), vector) == ReadAll(rest, vector + [text])
  {
    SkipGap(gap, WordText(w) + rest, vector);
    ReadWord(w, rest, vector, text);
  }

  lemma WordsMeanRest(ws: seq<Word>, args: seq<bytes>)
    requires ws != [] && WordsMean(ws, args)
    ensures WordMeans(ws[0], args[0]) && WordsMean(ws[1..], args[1..])
  {
  }

  lemma {:induction false} ReadLine(gaps: seq<bytes>, ws: seq<Word>, end: bytes, vector: seq<bytes>, args: seq<bytes>)
    requires |gaps| == |ws| + 1 && LineOk(gaps, ws, end) && WordsMean(ws, args)
    ensures ReadAll(LineText(gaps, ws, end), vector) == ReadAll(end, vector + args)
    decreases |ws|
  {
    if ws == [] {
      SkipGap(gaps[0], end, vector);
      assert vector + args == vector;
    } else {
      WordsMeanRest(ws, args);
      GapAndWord(gaps[0], ws[0], LineText(gaps[1..], ws[1..], end), vector, args[0]);
      ReadLine(gaps[1..], ws[1..], end, vector + [args[0]], args[1..]);
      assert vector + [args[0]] + args[1..] == vector + args;
    }
  }

  lemma UnclosedShape(bare: bytes, quote: byte, inner: bytes)
    ensures bare + ([quote] + (inner + [])) == bare + ([quote] + inner)
    ensures IsQuote(quote) && BareOk(bare) ==> var q := bare + ([quote] + inner); q != [] && !IsSpace(q[0])
  {
    assert inner + [] == inner;
  }

  lemma ReadFault(f: Fault, vector: seq<bytes>)
    requires FaultOk(f)
    ensures ReadAll(FaultText(f), vector) == None
  {
    var text := UnitsMeaning(f.quote, f.inner, if f.Unclosed? then [] else [f.quote] + f.rest);
    match f {
      case Unclosed(bare, quote, inner) =>
        UnclosedShape(bare, quote, UnitsText(inner));
        ReadOpened(bare, quote, inner, [], text);
      case Stuck(bare, quote, inner, rest) =>
        EndingShape(bare, quote, UnitsText(inner), rest);
        ReadEnding(bare, quote, inner, rest, text);
    }
  }

  // ---------------------------------------------------------------- every word has a meaning

  lemma UnitMeaning(quote: byte, x: Unit, rest: bytes) returns (b: byte)
    requires UnitOk(quote, x, rest)
    ensures UnitMeans(quote, x, b)
  {
    match x {
      case Raw(raw) => b := raw;
      case Pair(c) => b := if quote == QUOTE then Unescape(c) else c;
      case Hex(high, low) =>
        HexIs(high);
        HexIs(low);
        b := 16 * HexDigitToInt(high) + HexDigitToInt(low);
        assert Counts(high, HexDigitToInt(high)) && Counts(low, HexDigitToInt(low));
    }
  }

  lemma {:induction false} UnitsMeaning(quote: byte, xs: seq<Unit>, rest: bytes) returns (text: bytes)
    requires UnitsOk(quote, xs, rest)
    ensures UnitsMean(quote, xs, text)
    decreases |xs|
  {
    if xs == [] {
      text := [];
    } else {
      var b := UnitMeaning(quote, xs[0], UnitsText(xs[1..]) + rest);
      var others := UnitsMeaning(quote, xs[1..], rest);
      text := [b] + others;
    }
  }

  lemma WordMeaning(w: Word, rest: bytes) returns (text: bytes)
    requires WordOk(w, rest)
    ensures WordMeans(w, text)
  {
    match w {
      case Bare(t) => text := t;
      case Ending(bare, quote, inner) =>
        var t := UnitsMeaning(quote, inner, [quote] + rest);
        text := bare + t;
    }
  }

  lemma {:induction false} LineMeaning(gaps: seq<bytes>, ws: seq<Word>, end: bytes) returns (args: seq<bytes>)
    requires |gaps| == |ws| + 1 && LineOk(gaps, ws, end)
    ensures WordsMean(ws, args)
    decreases |ws|
  {
    if ws == [] {
      args := [];
    } else {
      var text := WordMeaning(ws[0], LineText(gaps[1..], ws[1..], end));
      var others := LineMeaning(gaps[1..], ws[1..], end);
      args := [text] + others;
    }
  }

  // ---------------------------------------------------------------- every line is written somehow

  lemma {:induction false} CutUnits(quote: byte, p: bytes) returns (xs: seq<Unit>, rest: bytes)
    requires IsQuote(quote)
    ensures p == UnitsText(xs) + rest && UnitsOk(quote, xs, rest) && (rest != [] ==> rest[0] == quote)
    decreases |p|
  {
    if p == [] || p[0] == quote {
      xs, rest := [], p;
      assert UnitsText([]) + p == p;
    } else {
      var x :=
        if quote == QUOTE then
          if |p| >= 4 && p[0] == BACKSLASH && p[1] == 'x' as int && IsHex(p[2]) && IsHex(p[3]) then Hex(p[2], p[3])
          else if p[0] == BACKSLASH && |p| >= 2 then Pair(p[1])
          else Raw(p[0])
        else if p[0] == BACKSLASH && |p| >= 2 && p[1] == APOSTROPHE then Pair(APOSTROPHE)
        else Raw(p[0]);
      var n := |UnitText(x)|;
      var others;
      others, rest := CutUnits(quote, p[n..]);
      xs := [x] + others;
      assert p == UnitText(x) + p[n..];
      MoreUnits(x, others, rest);
    }
  }

  lemma MoreUnits(x: Unit, xs: seq<Unit>, rest: bytes)
    ensures ([x] + xs)[1..] == xs && UnitsText([x] + xs) + rest == UnitText(x) + (UnitsText(xs) + rest)
  {
    assert ([x] + xs)[1..] == xs;
  }

  lemma {:induction false} CutBare(p: bytes) returns (t: bytes, rest: bytes)
    ensures p == t + rest && (forall k :: 0 <= k < |t| ==> Plainly(t[k])) && (rest != [] ==> !Plainly(rest[0]))
    decreases |p|
  {
    if p == [] || !Plainly(p[0]) {
      t, rest := [], p;
    } else {
      t, rest := CutBare(p[1..]);
      t := [p[0]] + t;
    }
  }

  /** A word, or a fault. */
  lemma CutWord(p: bytes) returns (w: Word, fault: Option<Fault>, rest: bytes)
    requires p != [] && !IsSpace(p[0])
    ensures fault == None ==> p == WordText(w) + rest && WordOk(w, rest) && |rest| < |p|
    ensures fault.Some? ==> p == FaultText(fault.value) && FaultOk(fault.value)
  {
    var t, after := CutBare(p);
    w, fault, rest := Bare(t), None, after;
    if after != [] && IsQuote(after[0]) {
      var quote := after[0];
      var inner, closing := CutUnits(quote, after[1..]);
      assert after == [quote] + (UnitsText(inner) + closing);
      if closing == [] {
        UnclosedShape(t, quote, UnitsText(inner));
        fault := Some(Unclosed(t, quote, inner));
      } else {
        rest := closing[1..];
        assert closing == [quote] + rest;
        EndingShape(t, quote, UnitsText(inner), rest);
        if rest != [] && !IsSpace(rest[0]) {
          fault := Some(Stuck(t, quote, inner, rest));
        } else {
          w := Ending(t, quote, inner);
        }
      }
    }
  }

  lemma {:induction false} CutGap(p: bytes) returns (gap: bytes, rest: bytes)
    ensures p == gap + rest && Blank(gap) && (rest != [] ==> !IsSpace(rest[0]))
    decreases |p|
  {
    if p == [] || !IsSpace(p[0]) {
      gap, rest := [], p;
    } else {
      gap, rest := CutGap(p[1..]);
      gap := [p[0]] + gap;
    }
  }

  function EndText(fault: Option<Fault>): bytes {
    if fault == None then [] else FaultText(fault.value)
  }

  lemma {:induction false} CutLine(p: bytes) returns (gaps: seq<bytes>, ws: seq<Word>, fault: Option<Fault>)
    ensures Written(p, gaps, ws, EndText(fault)) && (fault.Some? ==> FaultOk(fault.value))
    decreases |p|
  {
    var gap, q := CutGap(p);
    gaps, ws, fault := [gap], [], None;
    if q == [] {
      assert p == gap + [];
    } else {
      var w, rest;
      w, fault, rest := CutWord(q);
      if fault == None {
        var gaps', ws';
        gaps', ws', fault := CutLine(rest);
        gaps, ws := [gap] + gaps', [w] + ws';
        assert gaps[1..] == gaps' && ws[1..] == ws';
      }
    }
  }

  // ---------------------------------------------------------------- the main results

  /** A line is split exactly when it is written as words and gaps, and then into what the words mean. */
  lemma SplitsExactly(p: bytes, args: seq<bytes>)
    ensures ReadAll(p, []) == Some(args) <==>
            exists gaps, ws :: Written(p, gaps, ws, []) && WordsMean(ws, args)
  {
    if gaps, ws :| Written(p, gaps, ws, []) && WordsMean(ws, args) {
      ReadLine(gaps, ws, [], [], args);
      assert [] + args == args;
    }
    if ReadAll(p, []) == Some(args) {
      var gaps, ws, fault := CutLine(p);
      var texts := LineMeaning(gaps, ws, EndText(fault));
      ReadLine(gaps, ws, EndText(fault), [], texts);
      assert [] + texts == texts;
      if fault.Some? {
        ReadFault(fault.value, texts);
      }
      assert Written(p, gaps, ws, []) && WordsMean(ws, args);
    }
  }

  /** It is refused exactly when, after some words, a quote is never closed or is closed and something other
      than a blank follows. */
  lemma RefusedExactly(p: bytes)
    ensures ReadAll(p, []) == None <==>
            exists gaps, ws, f :: FaultOk(f) && Written(p, gaps, ws, FaultText(f))
  {
    if gaps, ws, f :| FaultOk(f) && Written(p, gaps, ws, FaultText(f)) {
      var args := LineMeaning(gaps, ws, FaultText(f));
      ReadLine(gaps, ws, FaultText(f), [], args);
      ReadFault(f, [] + args);
    }
    if ReadAll(p, []) == None {
      var gaps, ws, fault := CutLine(p);
      if fault == None {
        var args := LineMeaning(gaps, ws, []);
        ReadLine(gaps, ws, [], [], args);
      } else {
        assert FaultOk(fault.value) && Written(p, gaps, ws, FaultText(fault.value));
      }
    }
  }

  /** Words without blanks and quotes, with a space between them, are split into themselves. */
  lemma {:induction false} PlainWords(words: seq<bytes>, vector: seq<bytes>)
    requires forall i :: 0 <= i < |words| ==> words[i] != [] && BareOk(words[i])
    ensures ReadAll(Split.Join(words, [SPACE]), vector) == Some(vector + words)
    decreases |words|
  {
    if words == [] {
      assert vector + words == vector;
    } else {
      FirstPlainWord(words, vector);
      PlainWords(words[1..], vector + [words[0]]);
      assert vector + [words[0]] + words[1..] == vector + words;
    }
  }

  lemma FirstPlainWord(words: seq<bytes>, vector: seq<bytes>)
    requires words != [] && words[0] != [] && BareOk(words[0])
    ensures ReadAll(Split.Join(words, [SPACE]), vector) ==
            ReadAll(Split.Join(words[1..], [SPACE]), vector + [words[0]])
  {
    var others := Split.Join(words[1..], [SPACE]);
    var rest := if |words| == 1 then [] else [SPACE] + others;
    assert Split.Join(words, [SPACE]) == words[0] + rest;
    ReadWord(Bare(words[0]), rest, vector, words[0]);
    if |words| > 1 {
      SkipGap([SPACE], others, vector + [words[0]]);
    }
  }
}
