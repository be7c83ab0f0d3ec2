/** sdssplitlen and sdsjoinsds. */
module Split {
  import opened Bytes
  import opened Resp
  import Sds

  // ---------------------------------------------------------------- joining and splitting, on values

  function Join(tokens: seq<bytes>, sep: bytes): bytes {
    if tokens == [] then []
    else if |tokens| == 1 then tokens[0]
    else tokens[0] + sep + Join(tokens[1..], sep)
  }

  predicate Occurs(s: bytes, sep: bytes, at: nat) {
    at + |sep| <= |s| && s[at..at + |sep|] == sep
  }

  ghost predicate Free(s: bytes, sep: bytes) {
    forall k :: 0 <= k < |s| ==> !Occurs(s, sep, k)
  }

  /** Every token but the last ends at the first separator that follows its start. */
  ghost predicate Leftmost(token: bytes, sep: bytes) {
    forall k :: 0 <= k < |token| ==> !Occurs(token + sep, sep, k)
  }

  ghost predicate IsSplit(s: bytes, sep: bytes, tokens: seq<bytes>) {
    && tokens != [] && Join(tokens, sep) == s
    && (forall i :: 0 <= i < |tokens| ==> Free(tokens[i], sep))
    && (forall i :: 0 <= i < |tokens| - 1 ==> Leftmost(tokens[i], sep))
  }

  lemma {:induction false} JoinSnoc(tokens: seq<bytes>, t: bytes, sep: bytes)
    ensures Join(tokens + [t], sep) == if tokens == [] then t else Join(tokens, sep) + sep + t
  {
    if tokens == [] {
      assert [] + [t] == [t];
    } else {
      assert (tokens + [t])[1..] == tokens[1..] + [t];
      JoinSnoc(tokens[1..], t, sep);
      if |tokens| > 1 {
        assert tokens[0] + sep + (Join(tokens[1..], sep) + sep + t) ==
               tokens[0] + sep + Join(tokens[1..], sep) + sep + t;
      }
    }
  }

  /** Splitting the last token of a join at a separator leaves the join as it is. */
  lemma JoinCut(tokens: seq<bytes>, a: bytes, b: bytes, sep: bytes)
    ensures Join(tokens + [a] + [b], sep) == Join(tokens + [a + sep + b], sep)
  {
    JoinSnoc(tokens + [a], b, sep);
    JoinSnoc(tokens, a, sep);
    JoinSnoc(tokens, a + sep + b, sep);
    if tokens != [] {
      assert Join(tokens, sep) + sep + a + sep + b == Join(tokens, sep) + sep + (a + sep + b);
    }
  }

  /** Where the first separator of a split string is: the split is determined by the string. */
  lemma FirstCut(s: bytes, sep: bytes, tokens: seq<bytes>)
    requires sep != [] && IsSplit(s, sep, tokens)
    ensures |tokens| == 1 ==> Free(s, sep)
    ensures |tokens| > 1 ==>
              && Occurs(s, sep, |tokens[0]|)
              && (forall k :: 0 <= k < |tokens[0]| ==> !Occurs(s, sep, k))
              && s[..|tokens[0]|] == tokens[0]
              && IsSplit(s[|tokens[0]| + |sep|..], sep, tokens[1..])
  {
    if |tokens| > 1 {
      var t := tokens[0];
      var rest := Join(tokens[1..], sep);
      assert s == t + sep + rest;
      forall k | 0 <= k < |t|
        ensures !Occurs(s, sep, k)
      {
        assert Leftmost(t, sep) && !Occurs(t + sep, sep, k);
        assert s[k..k + |sep|] == (t + sep)[k..k + |sep|];
      }
      assert s[|t|..|t| + |sep|] == sep;
      assert s[|t| + |sep|..] == rest;
      forall i | 0 <= i < |tokens[1..]|
        ensures Free(tokens[1..][i], sep)
      {
        assert Free(tokens[i + 1], sep);
      }
      forall i | 0 <= i < |tokens[1..]| - 1
        ensures Leftmost(tokens[1..][i], sep)
      {
        assert Leftmost(tokens[i + 1], sep);
      }
    }
  }

  /** There is only one way to split a string. */
  lemma {:induction false} SplitUnique(s: bytes, sep: bytes, a: seq<bytes>, b: seq<bytes>)
    requires sep != [] && IsSplit(s, sep, a) && IsSplit(s, sep, b)
    ensures a == b
    decreases |s|
  {
    FirstCut(s, sep, a);
    FirstCut(s, sep, b);
    if |a| > 1 && |b| > 1 {
      assert |a[0]| == |b[0]|;
      SplitUnique(s[|a[0]| + |sep|..], sep, a[1..], b[1..]);
      assert a == [a[0]] + a[1..] && b == [b[0]] + b[1..];
    } else if |a| == 1 && |b| == 1 {
      assert a == [s] && b == [s];
    }
  }

  // ---------------------------------------------------------------- sdssplitlen

  /** The loop state: what is cut off so far, and no separator since start. */
  ghost predicate Cutting(s: bytes, sep: bytes, tokens: seq<bytes>, start: nat, j: nat) {
    && start <= j && start <= |s|
    && Join(tokens + [s[start..]], sep) == s
    && (forall k :: start <= k < j ==> !Occurs(s, sep, k))
    && (forall i :: 0 <= i < |tokens| ==> Free(tokens[i], sep) && Leftmost(tokens[i], sep))
  }

  lemma Cut(s: bytes, sep: bytes, tokens: seq<bytes>, start: nat, j: nat)
    requires sep != [] && Cutting(s, sep, tokens, start, j) && Occurs(s, sep, j)
    ensures Cutting(s, sep, tokens + [s[start..j]], j + |sep|, j + |sep|)
  {
    var t := s[start..j];
    var rest := s[j + |sep|..];
    assert s[start..] == t + sep + rest;
    JoinCut(tokens, t, rest, sep);
    forall k | 0 <= k < |t|
      ensures !Occurs(t + sep, sep, k) && !Occurs(t, sep, k)
    {
      assert !Occurs(s, sep, start + k);
      assert t + sep == s[start..j + |sep|];
      if k + |sep| <= |t| + |sep| {
        assert (t + sep)[k..k + |sep|] == s[start + k..start + k + |sep|];
      }
      if k + |sep| <= |t| {
        assert t[k..k + |sep|] == s[start + k..start + k + |sep|];
      }
    }
  }

  lemma CutEnds(s: bytes, sep: bytes, tokens: seq<bytes>, start: nat, j: nat)
    requires sep != [] && Cutting(s, sep, tokens, start, j) && j + |sep| > |s|
    ensures IsSplit(s, sep, tokens + [s[start..]])
  {
    var t := s[start..];
    forall k | 0 <= k < |t|
      ensures !Occurs(t, sep, k)
    {
      if k + |sep| <= |t| {
        assert !Occurs(s, sep, start + k);
        assert t[k..k + |sep|] == s[start + k..start + k + |sep|];
      }
    }
  }

  /** The reallocation of the token vector. */
  method Grow(tokens: array<bytes>, elements: nat, slots: nat) returns (newtokens: array<bytes>)
    requires elements <= tokens.Length <= slots
    ensures fresh(newtokens) && newtokens.Length == slots && newtokens[..elements] == tokens[..elements]
  {
    newtokens := new bytes[slots];
    forall i | 0 <= i < elements {
      newtokens[i] := tokens[i];
    }
  }

  method Store(tokens: array<bytes>, elements: nat, token: bytes)
    requires elements < tokens.Length
    modifies tokens
    ensures tokens[..elements + 1] == old(tokens[..elements]) + [token]
  {
    tokens[elements] := token;
  }

  /** The two tests for a separator at s[j]: one for a single byte, one for any length. */
  method IsSeparator(s: bytes, sep: bytes, j: nat) returns (found: bool)
    requires sep != [] && j + |sep| <= |s|
    ensures found <==> Occurs(s, sep, j)
  {
    if |sep| == 1 {
      assert s[j..j + 1] == [s[j]] && sep == [sep[0]];
    }
    found := (|sep| == 1 && s[j] == sep[0]) || s[j..j + |sep|] == sep;
  }

  /** sdssplitlen. None stands for NULL. `vec` is the token vector with its slots, of which the
      first `count` are in use. */
  method SplitLen(s: bytes, sep: bytes) returns (vec: Option<array<bytes>>, count: nat)
    ensures vec == None <==> sep == []
    ensures vec.Some? ==> count <= vec.value.Length
    ensures vec.Some? && s == [] ==> count == 0
    ensures vec.Some? && s != [] ==> IsSplit(s, sep, vec.value[..count])
  {
    if |sep| < 1 {
      return None, 0;
    }
    var slots, elements, start, j := 5, 0, 0, 0;
    var tokens := new bytes[slots];
    if |s| == 0 {
      return Some(tokens), 0;
    }
    assert tokens[..0] + [s[0..]] == [s];
    while j < |s| - (|sep| - 1)
      invariant fresh(tokens) && tokens.Length == slots && elements + 1 <= slots
      invariant 0 <= j && 0 <= start && 0 <= elements && Cutting(s, sep, tokens[..elements], start, j)
      decreases |s| - j
    {
      if slots < elements + 2 {
        slots := slots * 2;
        tokens := Grow(tokens, elements, slots);
      }
      var found := IsSeparator(s, sep, j);
      if found {
        Cut(s, sep, tokens[..elements], start, j);
        Store(tokens, elements, s[start..j]);
        elements := elements + 1;
        start := j + |sep|;
        j := j + |sep| - 1;
      }
      j := j + 1;
    }
    CutEnds(s, sep, tokens[..elements], start, j);
    Store(tokens, elements, s[start..]);
    elements := elements + 1;
    return Some(tokens), elements;
  }

  /** sdsjoinsds. */
  method JoinSds(argv: seq<bytes>, sep: bytes) returns (join: Sds.String)
    ensures fresh(join) && join.Valid() && join.Contents() == Join(argv, sep)
  {
    join := new Sds.String([]);
    var j := 0;
    while j < |argv|
      invariant 0 <= j <= |argv| && join.Valid() && fresh(join.buf)
      invariant join.Contents() == Join(argv[..j], sep) + if 0 < j < |argv| then sep else []
    {
      assert argv[..j + 1] == argv[..j] + [argv[j]];
      JoinSnoc(argv[..j], argv[j], sep);
      join.CatLen(argv[j]);
      assert join.Contents() == Join(argv[..j + 1], sep);
      if j != |argv| - 1 {
        join.CatLen(sep);
      }
      j := j + 1;
    }
    assert argv[..|argv|] == argv;
  }

  /** Splitting and joining with the same separator gives the string back. */
  method SplitThenJoin(s: bytes, sep: bytes) returns (back: Sds.String)
    requires sep != []
    ensures back.Valid() && back.Contents() == s
  {
    var vec, count := SplitLen(s, sep);
    back := JoinSds(vec.value[..count], sep);
  }
}
