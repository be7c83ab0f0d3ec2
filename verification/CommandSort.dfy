/** How __redisAsyncCommand tells the commands that change the mode of a connection from plain ones:
    by looking at the text of the formatted command. */
module CommandSort {
  import opened Bytes
  import opened Decimal
  import opened Resp
  import opened Command
  import opened Arguments

  datatype Sort = Subscribe | Unsubscribe | Monitor | Plain

  const CAPITAL_A: byte := 'A' as int
  const CAPITAL_Z: byte := 'Z' as int
  const SMALL_A: byte := 'a' as int
  const SMALL_P: byte := 'p' as int
  const SMALL_Z: byte := 'z' as int

  function ToLower(b: byte): byte {
    if CAPITAL_A <= b <= CAPITAL_Z then b + 32 else b
  }

  /** The bytes of a word in small letters. */
  function Text(s: string): (t: bytes)
    requires forall k :: 0 <= k < |s| ==> 'a' <= s[k] <= 'z'
    ensures forall b :: b in t ==> SMALL_A <= b <= SMALL_Z
  {
    seq(|s|, k requires 0 <= k < |s| => s[k] as int)
  }

  const SUBSCRIBE: bytes := Text("subscribe")
  const UNSUBSCRIBE: bytes := Text("unsubscribe")
  const MONITOR: bytes := Text("monitor")

  /** strncasecmp finds no difference between line and the whole of word, which is in lower case. */
  predicate Begins(line: bytes, word: bytes) {
    |word| <= |line| && forall k :: 0 <= k < |word| ==> ToLower(line[k]) == word[k]
  }

  /** The name of a command, without the p of a pattern variant. */
  function Name(args: seq<bytes>): bytes
    requires args != []
  {
    if args[0] != [] && ToLower(args[0][0]) == SMALL_P then args[0][1..] else args[0]
  }

  function SortOf(args: seq<bytes>): Sort
    requires args != []
  {
    var line := Name(args) + CRLF;
    if |args| > 1 && Begins(line, SUBSCRIBE + CRLF) then Subscribe
    else if Begins(line, UNSUBSCRIBE + CRLF) then Unsubscribe
    else if Begins(line, MONITOR + CRLF) then Monitor
    else Plain
  }

  /** A command whose length the formatters can count and that leaves the mode of the connection alone. */
  predicate IsPlain(args: seq<bytes>) {
    args != [] && (forall j :: 0 <= j <= |args| ==> |Upto(args, j)| < INT_MAX) && SortOf(args) == Plain
  }

  type PlainCommand = args: seq<bytes> | IsPlain(args) witness [[]]

  /** strncasecmp(buf + from, word, |word|) == 0. */
  method StrNCaseEq(buf: array<byte>, from: nat, word: bytes) returns (same: bool)
    requires Terminates(buf[..], from) && NUL !in word
    ensures same <==> Begins(buf[from..], word)
  {
    var k := 0;
    while k < |word|
      invariant 0 <= k <= |word| && from + k < buf.Length && NUL in buf[from + k..]
      invariant forall i :: 0 <= i < k ==> ToLower(buf[from + i]) == word[i]
    {
      assert buf[from + k] == buf[from..][k];
      if ToLower(buf[from + k]) != word[k] {
        return false;
      }
      assert word[k] in word;
      assert buf[from + k..][1..] == buf[from + k + 1..];
      k := k + 1;
    }
    return true;
  }

  /** Looking past the end of the line makes no difference. */
  lemma BeginsLine(name: bytes, rest: bytes, letters: bytes)
    requires CR !in letters
    ensures Begins(name + CRLF + rest, letters + CRLF) <==> Begins(name + CRLF, letters + CRLF)
  {
    var line, word := name + CRLF, letters + CRLF;
    if |letters| > |name| {
      assert (line + rest)[|name|] == CR && word[|name|] == letters[|name|];
      assert letters[|name|] in letters;
      assert ToLower(CR) == CR;
    } else {
      assert forall k :: 0 <= k < |line| ==> (line + rest)[k] == line[k];
    }
  }

  lemma LineWithin(pre: bytes, d: bytes, arg: bytes, post: bytes, s: bytes, str: nat)
    requires s == pre + ([DOLLAR] + d + CRLF + arg + CRLF) + post && post != []
    requires str == |pre| + 1 + |d| + 2
    ensures str + |arg| + 2 < |s| && s[str..str + |arg| + 2] == arg + CRLF && s[str + |arg| + 2] == post[0]
  {
  }

  lemma BulksStart(args: seq<bytes>)
    ensures (Bulks(args) + [NUL])[0] == DOLLAR <==> args != []
  {
    if args != [] {
      assert Encode(Str(args[0]))[0] == DOLLAR;
    }
  }

  lemma FirstPlace(args: seq<bytes>, s: bytes)
    requires s == Terminated(args) && args != [] && |args[0]| <= INT_MAX
    ensures match Next(s, 0)
      case None => false
      case Some(a) => a.str == |Upto(args, 0)| + 1 + |Digits(|args[0]|)| + 2 && a.next == a.str + |args[0]| + 2
  {
    NextAtArgument(args, 0, s);
    NextAtStart(args, s);
  }

  /** Where nextArgument finds the first argument, the text runs on to the end of its line. */
  lemma FirstLine(args: seq<bytes>, s: bytes)
    requires s == Terminated(args) && args != [] && |args[0]| <= INT_MAX
    ensures match Next(s, 0)
      case None => false
      case Some(a) =>
        && 0 <= a.next < |s| && a.str <= a.next && s[a.str..a.next] == args[0] + CRLF
        && (s[a.next] == DOLLAR <==> |args| > 1)
  {
    FirstPlace(args, s);
    Split(args, 0);
    var post := Bulks(args[1..]) + [NUL];
    BulksStart(args[1..]);
    LineWithin(Upto(args, 0), Digits(|args[0]|), args[0], post, s, Next(s, 0).value.str);
  }

  /** Whether the line that starts at from, which is name's, is taken for the one of a word. */
  method IsLineOf(buf: array<byte>, from: nat, letters: bytes, ghost name: bytes) returns (same: bool)
    requires Terminates(buf[..], from) && forall b :: b in letters ==> SMALL_A <= b <= SMALL_Z
    requires name + CRLF <= buf[from..]
    ensures same <==> Begins(name + CRLF, letters + CRLF)
  {
    ghost var rest := buf[from..][|name| + 2..];
    assert buf[from..] == name + CRLF + rest;
    BeginsLine(name, rest, letters);
    same := StrNCaseEq(buf, from, letters + CRLF);
  }

  /** The part of __redisAsyncCommand that finds out which command will be appended. */
  method FindSort(buf: array<byte>, ghost args: seq<bytes>) returns (sort: Sort)
    requires buf[..] == Terminated(args) && args != []
    requires forall i :: 0 <= i < |args| ==> |args[i]| <= INT_MAX
    ensures sort == SortOf(args)
  {
    var from, hasnext := FindName(buf, args);
    var same := IsLineOf(buf, from, SUBSCRIBE, Name(args));
    if hasnext && same {
      return Subscribe;
    }
    same := IsLineOf(buf, from, UNSUBSCRIBE, Name(args));
    if same {
      return Unsubscribe;
    }
    same := IsLineOf(buf, from, MONITOR, Name(args));
    return if same then Monitor else Plain;
  }

  /** Where the name of the command is, and whether an argument follows. */
  method FindName(buf: array<byte>, ghost args: seq<bytes>) returns (from: nat, hasnext: bool)
    requires buf[..] == Terminated(args) && args != []
    requires forall i :: 0 <= i < |args| ==> |args[i]| <= INT_MAX
    ensures Terminates(buf[..], from) && Name(args) + CRLF <= buf[from..]
    ensures hasnext <==> |args| > 1
  {
    ghost var s := buf[..];
    NextInCommand(args, 0, 0, s);
    FirstLine(args, s);
    assert s[|s| - 1] == NUL;
    EndsInNul(s, 0);
    EndsInNul(s, Marker(s, 0));
    var next, str, len := NextArgument(buf, 0);
    hasnext := buf[next] == DOLLAR;
    NameFrom(args, s, str, next);
    var pvariant := if ToLower(buf[str]) == SMALL_P then 1 else 0;
    from := str + pvariant;
  }

  /** Past a leading p, the name and the end of the line follow. */
  lemma NameFrom(args: seq<bytes>, s: bytes, str: nat, end: nat)
    requires args != [] && str <= end < |s| && s[str..end] == args[0] + CRLF && s[|s| - 1] == NUL
    ensures var from := str + if ToLower(s[str]) == SMALL_P then 1 else 0;
      Terminates(s, from) && Name(args) + CRLF <= s[from..]
  {
    var from := str + if ToLower(s[str]) == SMALL_P then 1 else 0;
    assert s[str] == (args[0] + CRLF)[0];
    assert s[from..end] == Name(args) + CRLF;
    assert s[from..] == s[from..end] + s[end..];
    EndsInNul(s, from);
  }

  // ---------------------------------------------------------------- how good the test is

  /** name is the word, in small letters, capitals or both. */
  predicate InAnyCase(name: bytes, word: bytes) {
    |name| == |word| && forall k :: 0 <= k < |name| ==> name[k] == word[k] || name[k] as int + 32 == word[k]
  }

  predicate Small(word: bytes) {
    forall b :: b in word ==> SMALL_A <= b <= SMALL_Z
  }

  lemma LetterByLetter(c: byte, letter: byte)
    requires SMALL_A <= letter <= SMALL_Z
    ensures ToLower(c) == letter <==> c == letter || c as int + 32 == letter
  {
  }

  lemma BeginsInAnyCase(name: bytes, word: bytes)
    requires Small(word)
    ensures |word| <= |name| && Begins(name[..|word|], word) <==> |word| <= |name| && InAnyCase(name[..|word|], word)
  {
    if |word| <= |name| {
      forall k | 0 <= k < |word|
        ensures ToLower(name[k]) == word[k] <==> name[k] == word[k] || name[k] as int + 32 == word[k]
      {
        assert word[k] in word;
        LetterByLetter(name[k], word[k]);
      }
    }
  }

  /** The test takes a name for a word when it is that word in any case, and also when the word and a
      line end are only how it starts. */
  lemma TakenForExactly(name: bytes, word: bytes)
    requires Small(word)
    ensures Begins(name + CRLF, word + CRLF) <==>
            || InAnyCase(name, word)
            || (|word| + 2 <= |name| && InAnyCase(name[..|word|], word) && name[|word|..|word| + 2] == CRLF)
  {
    var line, all := name + CRLF, word + CRLF;
    BeginsInAnyCase(name, word);
    assert ToLower(CR) == CR && ToLower(LF) == LF;
    if |name| < |word| {
      assert line[|name|] == CR && all[|name|] == word[|name|] && word[|name|] in word;
    } else {
      BeginsSplit(line, word);
      assert line[..|word|] == name[..|word|];
      if |name| == |word| {
        assert name[..|word|] == name;
      } else if |name| > |word| + 1 {
        assert line[|word|] == name[|word|] && line[|word| + 1] == name[|word| + 1];
      }
    }
  }

  lemma BeginsSplit(line: bytes, word: bytes)
    requires |word| + 2 <= |line|
    ensures Begins(line, word + CRLF) <==> Begins(line[..|word|], word) && line[|word|] == CR && line[|word| + 1] == LF
  {
    var all := word + CRLF;
    assert all[|word|] == CR && all[|word| + 1] == LF;
    assert forall k :: 0 <= k < |word| ==> all[k] == word[k] && line[..|word|][k] == line[k];
  }

  /** The commands that change the mode are recognised in any case, with the p of their pattern variants
      or without. */
  lemma ModesRecognised(args: seq<bytes>)
    requires args != []
    ensures InAnyCase(args[0], MONITOR) ==> SortOf(args) == Monitor
    ensures InAnyCase(args[0], UNSUBSCRIBE) || InAnyCase(args[0], [SMALL_P] + UNSUBSCRIBE) ==>
              SortOf(args) == Unsubscribe
    ensures |args| > 1 && (InAnyCase(args[0], SUBSCRIBE) || InAnyCase(args[0], [SMALL_P] + SUBSCRIBE)) ==>
              SortOf(args) == Subscribe
  {
    FirstLetters();
    TakenForExactly(Name(args), SUBSCRIBE);
    TakenForExactly(Name(args), UNSUBSCRIBE);
    TakenForExactly(Name(args), MONITOR);
    NameOf(args, MONITOR);
    NameOf(args, SUBSCRIBE);
    NameOf(args, UNSUBSCRIBE);
    Apart(Name(args), SUBSCRIBE, UNSUBSCRIBE);
    Apart(Name(args), SUBSCRIBE, MONITOR);
    Apart(Name(args), UNSUBSCRIBE, MONITOR);
  }

  lemma FirstLetters()
    ensures SUBSCRIBE != [] && SUBSCRIBE[0] == 's' as int
    ensures UNSUBSCRIBE != [] && UNSUBSCRIBE[0] == 'u' as int
    ensures MONITOR != [] && MONITOR[0] == 'm' as int
  {
  }

  /** The p is dropped, and nothing else. */
  lemma NameOf(args: seq<bytes>, word: bytes)
    requires args != [] && word != [] && Small(word) && word[0] != SMALL_P
    ensures InAnyCase(args[0], word) ==> Name(args) == args[0]
    ensures InAnyCase(args[0], [SMALL_P] + word) ==> InAnyCase(Name(args), word)
  {
    if args[0] != [] {
      assert word[0] in word;
      LetterByLetter(args[0][0], word[0]);
      LetterByLetter(args[0][0], SMALL_P);
      assert ([SMALL_P] + word)[1..] == word;
      assert forall k :: 0 <= k < |word| ==> ([SMALL_P] + word)[k + 1] == word[k];
    }
  }

  /** A name is not taken for two words that start differently. */
  lemma Apart(name: bytes, a: bytes, b: bytes)
    requires a != [] && b != [] && a[0] != b[0]
    ensures !(Begins(name + CRLF, a + CRLF) && Begins(name + CRLF, b + CRLF))
  {
    assert (a + CRLF)[0] == a[0] && (b + CRLF)[0] == b[0];
  }
}
