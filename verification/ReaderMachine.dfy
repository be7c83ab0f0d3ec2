/** The incremental reader as a state machine on values: what redisReader's fields mean,
    and the laws its runs obey. */
module ReaderMachine {
  import opened Bytes
  import opened Decimal
  import opened Resp

  /** An array still being filled: its header's count as an int and the children it has so far. */
  datatype Frame = Frame(count: int, items: seq<Reply>)

  /** Reading: the open arrays from the root down, the type byte of the current item when it
      has been read, and the unread bytes. Failed: err is set. Lost: the program has written through
      a NULL vector, and nothing is known of it any more. */
  datatype Reader =
    | Reading(frames: seq<Frame>, kind: Option<Kind>, unread: bytes)
    | Failed
    | Lost

  const FRESH: Reader := Reading([], None, [])

  /** An array whose count is positive and not reached. */
  predicate Open(f: Frame) {
    |f.items| < f.count
  }

  /** An array whose count was positive until it was converted to int: it waits for children, and there
      is no vector to put them in. */
  predicate Vectorless(f: Frame) {
    f.count <= 0 && f.items == []
  }

  /** Every array is open, save that the innermost one may have no vector. */
  predicate FramesOk(frames: seq<Frame>) {
    && |frames| <= MAX_LEVELS
    && (forall i :: 0 <= i < |frames| - 1 ==> Open(frames[i]))
    && (frames != [] ==> Open(frames[|frames| - 1]) || Vectorless(frames[|frames| - 1]))
  }

  predicate NoVector(frames: seq<Frame>) {
    frames != [] && Vectorless(frames[|frames| - 1])
  }

  predicate Wf(r: Reader) {
    r.Reading? ==>
      FramesOk(r.frames) && !(|r.frames| == MAX_LEVELS && r.kind == Some(KArray))
  }

  // ---------------------------------------------------------------- one item

  /** Where a finished reply goes: it may complete any number of enclosing arrays. */
  datatype Delivered = Root(reply: Reply) | Inside(frames: seq<Frame>)

  function Deliver(frames: seq<Frame>, r: Reply): (d: Delivered)
    requires FramesOk(frames) && !NoVector(frames)
    ensures d.Inside? ==> FramesOk(d.frames) && !NoVector(d.frames) && 0 < |d.frames| <= |frames|
    decreases |frames|
  {
    if frames == [] then Root(r)
    else
      var last := |frames| - 1;
      var items := frames[last].items + [r];
      if |items| == frames[last].count then Deliver(frames[..last], Array(items))
      else Inside(frames[..last] + [Frame(frames[last].count, items)])
  }

  lemma DeliverStep(frames: seq<Frame>, r: Reply)
    requires FramesOk(frames) && !NoVector(frames) && frames != []
    ensures var (below, f) := (frames[..|frames| - 1], frames[|frames| - 1]);
      && FramesOk(below) && !NoVector(below)
      && Deliver(frames, r) ==
         if |f.items| + 1 == f.count then Deliver(below, Array(f.items + [r]))
         else Inside(below + [Frame(f.count, f.items + [r])])
  {
  }

  /** Moved: an item was consumed. Finished: it was the last one of a reply. Waiting: bytes are missing.
      Astray: the object of the item has nowhere to go. */
  datatype Stepped =
    | Moved(frames: seq<Frame>, rest: bytes)
    | Finished(reply: Reply, rest: bytes)
    | Waiting(kind: Option<Kind>, rest: bytes)
    | Broken
    | Astray

  function Typed(frames: seq<Frame>, kind: Kind, u: bytes): (s: Stepped)
    requires FramesOk(frames)
    ensures s.Moved? ==> FramesOk(s.frames) && |s.rest| < |u|
    ensures s.Finished? ==> |s.rest| < |u|
    ensures s.Waiting? ==> s.kind == Some(kind) && s.rest == u && !(kind == KArray && |frames| == MAX_LEVELS)
    ensures s.Broken? <==> kind == KArray && |frames| == MAX_LEVELS
  {
    match ReadBody(kind, |frames|, u)
    case Short => Waiting(Some(kind), u)
    case TooDeep => Broken
    case _ => if NoVector(frames) then Astray else Consumed(frames, kind, u)
  }

  /** The item is there, and so is the slot for its object. */
  function Consumed(frames: seq<Frame>, kind: Kind, u: bytes): (s: Stepped)
    requires FramesOk(frames) && !NoVector(frames)
    requires ReadBody(kind, |frames|, u).Leaf? || ReadBody(kind, |frames|, u).Header?
    ensures s.Moved? || s.Finished?
    ensures s.Moved? ==> FramesOk(s.frames) && |s.rest| < |u|
    ensures s.Finished? ==> |s.rest| < |u|
  {
    match ReadBody(kind, |frames|, u)
    case Header(count, used) => Moved(frames + [Frame(count, [])], u[used..])
    case Leaf(reply, used) =>
      match Deliver(frames, reply)
      case Root(r) => Finished(r, u[used..])
      case Inside(frames') => Moved(frames', u[used..])
  }

  function Item(frames: seq<Frame>, kind: Option<Kind>, u: bytes): (s: Stepped)
    requires Wf(Reading(frames, kind, u))
    ensures s.Moved? ==> FramesOk(s.frames) && |s.rest| < |u|
    ensures s.Finished? ==> |s.rest| < |u|
    ensures s.Waiting? ==> Wf(Reading(frames, s.kind, s.rest)) && |s.rest| <= |u|
  {
    match kind
    case Some(k) => Typed(frames, k, u)
    case None =>
      if u == [] then Waiting(None, u)
      else
        match KindOf(u[0])
        case None => Broken
        case Some(k) => Typed(frames, k, u[1..])
  }

  /** The reader breaks on an unknown type byte and on a '*' with eight arrays around it, and on nothing else. */
  lemma BreaksExactlyWhen(frames: seq<Frame>, kind: Option<Kind>, u: bytes)
    requires Wf(Reading(frames, kind, u))
    ensures Item(frames, kind, u).Broken? <==>
            kind == None && u != [] &&
            (KindOf(u[0]) == None || (u[0] == STAR && |frames| == MAX_LEVELS))
  {
  }

  /** An array is opened without a vector exactly when the count in its header is positive and its low
      32 bits are not, as an int. */
  lemma VectorlessExactlyWhen(frames: seq<Frame>, u: bytes)
    requires FramesOk(frames) && !NoVector(frames)
    ensures var s := Typed(frames, KArray, u);
      s.Moved? && NoVector(s.frames) <==>
      |frames| < MAX_LEVELS && Newline(u) != -1 && Number(u) > 0 && !(1 <= Number(u) % UINT_VALUES <= INT_MAX)
  {
  }

  /** The program writes through NULL exactly when such an array is the innermost one and its first child,
      of whatever type, is there; with eight arrays around it that child may not be another array. */
  lemma AstrayExactlyWhen(frames: seq<Frame>, kind: Kind, u: bytes)
    requires Wf(Reading(frames, Some(kind), u))
    ensures Typed(frames, kind, u).Astray? <==> NoVector(frames) && !ReadBody(kind, |frames|, u).Short?
  {
  }

  // ---------------------------------------------------------------- GetReply and Feed

  datatype Emission = Emission(reply: Option<Reply>, reader: Reader)

  /** redisReaderGetReply: at most one reply, and the reader afterwards. */
  function GetReply(r: Reader): (e: Emission)
    requires Wf(r)
    ensures Wf(e.reader)
    ensures e.reply.Some? ==>
              && r.Reading? && e.reader.Reading? && e.reader.frames == [] && e.reader.kind == None
              && |e.reader.unread| < |r.unread|
    ensures e.reader.Reading? ==> r.Reading? && |e.reader.unread| <= |r.unread|
    decreases if r.Reading? then |r.unread| else 0
  {
    if !r.Reading? then Emission(None, r)
    else
      match Item(r.frames, r.kind, r.unread)
      case Moved(frames, rest) => GetReply(Reading(frames, None, rest))
      case Finished(reply, rest) => Emission(Some(reply), Reading([], None, rest))
      case Waiting(kind, rest) => Emission(None, Reading(r.frames, kind, rest))
      case Broken => Emission(None, Failed)
      case Astray => Emission(None, Reader.Lost)
  }

  lemma NothingUnread(r: Reader)
    requires Wf(r) && r.Reading? && r.unread == []
    ensures GetReply(r) == Emission(None, r)
  {
  }

  /** redisReaderFeed: bytes fed after an error are dropped. */
  function Feed(r: Reader, x: bytes): (r': Reader)
    ensures Wf(r) ==> Wf(r')
  {
    if r.Reading? then r.(unread := r.unread + x) else r
  }

  datatype Drained = Drained(replies: seq<Reply>, reader: Reader)

  /** Calls GetReply until it gives no reply. */
  function Drain(r: Reader): (d: Drained)
    requires Wf(r)
    ensures Wf(d.reader)
    decreases if r.Reading? then |r.unread| else 0
  {
    var e := GetReply(r);
    if e.reply.None? then Drained([], e.reader)
    else
      var d := Drain(e.reader);
      Drained([e.reply.value] + d.replies, d.reader)
  }

  // ---------------------------------------------------------------- chunking does not matter

  lemma TypedAppend(frames: seq<Frame>, kind: Kind, u: bytes, x: bytes)
    requires FramesOk(frames) && !Typed(frames, kind, u).Waiting?
    ensures var s, s' := Typed(frames, kind, u), Typed(frames, kind, u + x);
      match s
      case Moved(frames', rest) => s' == Moved(frames', rest + x)
      case Finished(reply, rest) => s' == Finished(reply, rest + x)
      case _ => s' == s
  {
    ReadBodyAppend(kind, |frames|, u, x);
    var b := ReadBody(kind, |frames|, u);
    if b.Leaf? || b.Header? {
      assert (u + x)[b.used..] == u[b.used..] + x;
    }
  }

  lemma ItemAppend(frames: seq<Frame>, kind: Option<Kind>, u: bytes, x: bytes)
    requires Wf(Reading(frames, kind, u))
    ensures var s, s' := Item(frames, kind, u), Item(frames, kind, u + x);
      match s
      case Broken => s' == s
      case Astray => s' == s
      case Waiting(k, rest) => s' == Item(frames, k, rest + x)
      case Moved(frames', rest) => s' == Moved(frames', rest + x)
      case Finished(reply, rest) => s' == Finished(reply, rest + x)
  {
    var s := Item(frames, kind, u);
    if kind.Some? {
      if !s.Waiting? { TypedAppend(frames, kind.value, u, x); }
    } else if u != [] {
      assert (u + x)[0] == u[0] && (u + x)[1..] == u[1..] + x;
      if KindOf(u[0]).Some? && !s.Waiting? {
        TypedAppend(frames, KindOf(u[0]).value, u[1..], x);
      }
    } else {
      assert u + x == x;
    }
  }

  /** A reply that was complete stays the same when more bytes follow; otherwise parsing resumes where it stopped. */
  lemma {:induction false} GetReplyFeed(r: Reader, x: bytes)
    requires Wf(r)
    ensures var e := GetReply(r);
      GetReply(Feed(r, x)) ==
      if e.reply.Some? then Emission(e.reply, Feed(e.reader, x)) else GetReply(Feed(e.reader, x))
    decreases if r.Reading? then |r.unread| else 0
  {
    if r.Reading? {
      ItemAppend(r.frames, r.kind, r.unread, x);
      match Item(r.frames, r.kind, r.unread) {
        case Moved(frames, rest) => GetReplyFeed(Reading(frames, None, rest), x);
        case _ =>
      }
    }
  }

  /** Replies that came out before those of d. */
  function Before(replies: seq<Reply>, d: Drained): Drained {
    Drained(replies + d.replies, d.reader)
  }

  lemma BeforeBefore(first: seq<Reply>, second: seq<Reply>, d: Drained)
    ensures Before(first, Before(second, d)) == Before(first + second, d)
    ensures Before([], d) == d
  {
    assert first + (second + d.replies) == (first + second) + d.replies;
  }

  function Replies(e: Emission): seq<Reply> {
    if e.reply.Some? then [e.reply.value] else []
  }

  lemma DrainStep(r: Reader)
    requires Wf(r) && GetReply(r).reply.Some?
    ensures Drain(r) == Before(Replies(GetReply(r)), Drain(GetReply(r).reader))
  {
  }

  /** Draining, feeding and draining again is feeding first and draining once. */
  lemma {:induction false} DrainFeed(r: Reader, x: bytes)
    requires Wf(r)
    ensures Drain(Feed(r, x)) == Before(Drain(r).replies, Drain(Feed(Drain(r).reader, x)))
    decreases if r.Reading? then |r.unread| else 0
  {
    var e := GetReply(r);
    GetReplyFeed(r, x);
    if e.reply.Some? {
      DrainStep(r);
      DrainStep(Feed(r, x));
      DrainFeed(e.reader, x);
      BeforeBefore(Replies(e), Drain(e.reader).replies, Drain(Feed(Drain(e.reader).reader, x)));
    } else {
      DrainUnemitted(r, x);
    }
  }

  /** Asking again without new bytes changes nothing. */
  lemma Settled(r: Reader)
    requires Wf(r) && GetReply(r).reply.None?
    ensures GetReply(GetReply(r).reader) == GetReply(r)
    ensures Drain(GetReply(r).reader) == Drain(r)
  {
    GetReplyFeed(r, []);
    FeedFeed(r, [], []);
    FeedFeed(GetReply(r).reader, [], []);
  }

  lemma DrainUnemitted(r: Reader, x: bytes)
    requires Wf(r) && GetReply(r).reply.None?
    ensures Drain(r) == Drained([], GetReply(r).reader)
    ensures Drain(Feed(r, x)) == Drain(Feed(GetReply(r).reader, x))
    ensures Drain(Feed(r, x)) == Before([], Drain(Feed(GetReply(r).reader, x)))
  {
    GetReplyFeed(r, x);
    BeforeBefore([], [], Drain(Feed(r, x)));
  }

  /** What a client does with a reader. */
  datatype Call = FeedCall(chunk: bytes) | GetCall

  function Run(r: Reader, calls: seq<Call>): (d: Drained)
    requires Wf(r)
    ensures Wf(d.reader)
    decreases |calls|
  {
    if calls == [] then Drained([], r)
    else
      match calls[0]
      case FeedCall(chunk) => Run(Feed(r, chunk), calls[1..])
      case GetCall =>
        var e := GetReply(r);
        Before(Replies(e), Run(e.reader, calls[1..]))
  }

  /** Every byte the calls feed, in order. */
  function Fed(calls: seq<Call>): bytes {
    if calls == [] then []
    else (if calls[0].FeedCall? then calls[0].chunk else []) + Fed(calls[1..])
  }

  lemma FeedFeed(r: Reader, x: bytes, y: bytes)
    ensures Feed(Feed(r, x), y) == Feed(r, x + y)
    ensures Feed(r, []) == r
  {
    if r.Reading? {
      assert r.unread + x + y == r.unread + (x + y);
    }
  }

  lemma {:induction false} ChunkingFrom(r: Reader, calls: seq<Call>)
    requires Wf(r)
    ensures Drain(Feed(r, Fed(calls))) == Before(Run(r, calls).replies, Drain(Run(r, calls).reader))
    decreases |calls|
  {
    if calls == [] {
      FeedFeed(r, [], []);
      BeforeBefore([], [], Drain(r));
    } else {
      var rest := Fed(calls[1..]);
      match calls[0] {
        case FeedCall(chunk) =>
          FeedFeed(r, chunk, rest);
          ChunkingFrom(Feed(r, chunk), calls[1..]);
        case GetCall =>
          assert [] + rest == rest;
          ChunkingFrom(GetReply(r).reader, calls[1..]);
          DrainAfterGet(r, rest);
          var d := Run(GetReply(r).reader, calls[1..]);
          BeforeBefore(Replies(GetReply(r)), d.replies, Drain(d.reader));
      }
    }
  }

  /** A GetReply call before the last feed only brings its reply forward. */
  lemma DrainAfterGet(r: Reader, x: bytes)
    requires Wf(r)
    ensures Drain(Feed(r, x)) == Before(Replies(GetReply(r)), Drain(Feed(GetReply(r).reader, x)))
  {
    if GetReply(r).reply.Some? {
      GetReplyFeed(r, x);
      DrainStep(Feed(r, x));
    } else {
      DrainUnemitted(r, x);
    }
  }

  /** Chunking does not matter: however a byte stream is cut into feeds, and wherever GetReply is
      called in between, the replies that come out, the final error and the final reader are those
      of feeding the whole stream at once. */
  lemma ChunkingDoesNotMatter(calls: seq<Call>)
    ensures var d := Run(FRESH, calls);
      var d' := Drain(d.reader);
      var whole := Drain(Feed(FRESH, Fed(calls)));
      d.replies + d'.replies == whole.replies && d'.reader == whole.reader
  {
    ChunkingFrom(FRESH, calls);
  }

  // ---------------------------------------------------------------- the stack refines the recursive parser

  /** What GetReply does once the item in progress, with `frames` around it, has been parsed as p. */
  function After(frames: seq<Frame>, p: Parsed<Reply>): Emission
    requires FramesOk(frames) && !NoVector(frames)
  {
    if !p.Done? then Emission(None, Failed)
    else
      match Deliver(frames, p.value)
      case Root(r) => Emission(Some(r), Reading([], None, p.rest))
      case Inside(frames') => GetReply(Reading(frames', None, p.rest))
  }

  /** e is what a reader does whose item in progress is parsed as p. */
  predicate Agrees(frames: seq<Frame>, p: Parsed<Reply>, e: Emission)
    requires FramesOk(frames) && !NoVector(frames)
  {
    match p
    case Done(_, _) => e == After(frames, p)
    case Incomplete => e.reply.None? && e.reader.Reading?
    case Bad => e == Emission(None, Failed)
    case Lost => e == Emission(None, Reader.Lost)
  }

  /** The array `top` once its missing children have been parsed as p. */
  function Filled(top: Frame, p: Parsed<seq<Reply>>): Parsed<Reply> {
    match p
    case Done(rs, rest) => Done(Array(top.items + rs), rest)
    case Incomplete => Incomplete
    case Bad => Bad
    case Lost => Parsed.Lost
  }

  function Missing(top: Frame, u: bytes, level: nat): Parsed<Reply>
    requires |top.items| <= top.count
  {
    Filled(top, ParseMany(u, top.count - |top.items|, level))
  }

  lemma MissingStep(top: Frame, u: bytes, level: nat)
    requires |top.items| < top.count
    ensures Missing(top, u, level) ==
            match Parse(u, level)
            case Done(r, rest) => Missing(Frame(top.count, top.items + [r]), rest, level)
            case Incomplete => Incomplete
            case Bad => Bad
            case Lost => Parsed.Lost
  {
    var p := Parse(u, level);
    if p.Done? {
      var m := ParseMany(p.rest, top.count - |top.items| - 1, level);
      assert top.count - |top.items + [p.value]| == top.count - |top.items| - 1;
      if m.Done? {
        assert top.items + ([p.value] + m.value) == top.items + [p.value] + m.value;
      }
    }
  }

  lemma MissingNone(top: Frame, u: bytes, level: nat)
    requires |top.items| == top.count
    ensures Missing(top, u, level) == Done(Array(top.items), u)
  {
    assert top.items + [] == top.items;
  }

  lemma {:induction false} StackParses(frames: seq<Frame>, u: bytes)
    requires FramesOk(frames) && !NoVector(frames)
    ensures Agrees(frames, Parse(u, |frames|), GetReply(Reading(frames, None, u)))
    decreases |u|, 1
  {
    if u != [] && KindOf(u[0]).Some? && ReadBody(KindOf(u[0]).value, |frames|, u[1..]).Header? {
      var h := ReadBody(KindOf(u[0]).value, |frames|, u[1..]);
      if h.count > 0 {
        StackParsesHeader(frames, u, h.count, h.used);
      } else {
        StackParsesVectorless(frames, u, h.count, h.used);
      }
    } else {
      StackParsesOther(frames, u);
    }
  }

  /** u starts with the header of an array. */
  predicate AtHeader(u: bytes, level: nat, count: int, used: nat) {
    u != [] && KindOf(u[0]).Some? && ReadBody(KindOf(u[0]).value, level, u[1..]) == Header(count, used)
  }

  lemma {:induction false} StackParsesHeader(frames: seq<Frame>, u: bytes, count: int, used: nat)
    requires FramesOk(frames) && !NoVector(frames) && AtHeader(u, |frames|, count, used) && count > 0
    ensures Agrees(frames, Parse(u, |frames|), GetReply(Reading(frames, None, u)))
    decreases |u|, 0
  {
    OpensFrame(frames, u, count, used);
    ParseHeader(u, |frames|, count, used);
    StackParsesMany(frames, Frame(count, []), u[1..][used..]);
  }

  lemma StackParsesVectorless(frames: seq<Frame>, u: bytes, count: int, used: nat)
    requires FramesOk(frames) && !NoVector(frames) && AtHeader(u, |frames|, count, used) && count <= 0
    ensures Agrees(frames, Parse(u, |frames|), GetReply(Reading(frames, None, u)))
  {
    OpensFrame(frames, u, count, used);
    ParseVectorless(u, |frames|, count, used);
    StackParsesOrphan(frames + [Frame(count, [])], u[1..][used..]);
  }

  lemma ParseVectorless(u: bytes, level: nat, count: int, used: nat)
    requires AtHeader(u, level, count, used) && count <= 0
    ensures Parse(u, level) == ParseOrphan(u[1..][used..], level + 1)
  {
  }

  lemma OpensFrame(frames: seq<Frame>, u: bytes, count: int, used: nat)
    requires FramesOk(frames) && !NoVector(frames) && AtHeader(u, |frames|, count, used)
    ensures |frames| < MAX_LEVELS && FramesOk(frames + [Frame(count, [])])
    ensures GetReply(Reading(frames, None, u)) == GetReply(Reading(frames + [Frame(count, [])], None, u[1..][used..]))
  {
  }

  lemma StackParsesOther(frames: seq<Frame>, u: bytes)
    requires FramesOk(frames) && !NoVector(frames)
    requires u != [] && KindOf(u[0]).Some? ==> !ReadBody(KindOf(u[0]).value, |frames|, u[1..]).Header?
    ensures Agrees(frames, Parse(u, |frames|), GetReply(Reading(frames, None, u)))
  {
  }

  lemma StackParsesOrphan(frames: seq<Frame>, u: bytes)
    requires FramesOk(frames) && NoVector(frames)
    ensures var e := GetReply(Reading(frames, None, u));
      match ParseOrphan(u, |frames|)
      case Incomplete => e.reply.None? && e.reader.Reading?
      case Bad => e == Emission(None, Failed)
      case _ => e == Emission(None, Reader.Lost)
  {
  }

  lemma ParseHeader(u: bytes, level: nat, count: int, used: nat)
    requires AtHeader(u, level, count, used) && count > 0
    ensures Parse(u, level) == Missing(Frame(count, []), u[1..][used..], level + 1)
  {
    var m := ParseMany(u[1..][used..], count, level + 1);
    if m.Done? {
      assert [] + m.value == m.value;
    }
  }

  lemma AfterChild(frames: seq<Frame>, top: Frame, p: Parsed<Reply>)
    requires FramesOk(frames) && !NoVector(frames) && |frames| < MAX_LEVELS && Open(top) && p.Done?
    ensures var top' := Frame(top.count, top.items + [p.value]);
      After(frames + [top], p) ==
      if |top'.items| == top.count then After(frames, Done(Array(top'.items), p.rest))
      else GetReply(Reading(frames + [top'], None, p.rest))
  {
    assert (frames + [top])[..|frames|] == frames && (frames + [top])[|frames|] == top;
  }

  /** The children still missing from the innermost open array. */
  lemma {:induction false} StackParsesMany(frames: seq<Frame>, top: Frame, u: bytes)
    requires FramesOk(frames) && !NoVector(frames) && |frames| < MAX_LEVELS && Open(top)
    ensures Agrees(frames, Missing(top, u, |frames| + 1), GetReply(Reading(frames + [top], None, u)))
    decreases |u|, 2, top.count - |top.items|
  {
    StackParses(frames + [top], u);
    MissingStep(top, u, |frames| + 1);
    var p := Parse(u, |frames| + 1);
    if p.Done? {
      AfterChild(frames, top, p);
      var top' := Frame(top.count, top.items + [p.value]);
      if |top'.items| < top.count {
        StackParsesMany(frames, top', p.rest);
      } else {
        MissingNone(top', p.rest, |frames| + 1);
      }
    }
  }

  /** The explicit stack refines the recursive parser, on every byte string: GetReply yields a reply
      exactly when the parser does, the same one, with the same bytes left; it fails exactly when
      the parser rejects, and is lost exactly when the parser is; otherwise it waits. */
  lemma StackRefinesRecursion(u: bytes)
    ensures var e := GetReply(Reading([], None, u));
      match Parse(u, 0)
      case Done(r, rest) => e == Emission(Some(r), Reading([], None, rest))
      case Incomplete => e.reply.None? && e.reader.Reading?
      case Bad => e == Emission(None, Failed)
      case Lost => e == Emission(None, Reader.Lost)
  {
    StackParses([], u);
  }

  /** A buffer that starts with an encoding of a tree yields exactly that tree and leaves exactly the rest. */
  lemma GetReplyEncoded(t: Reply, u: bytes, rest: bytes)
    requires Encodes(t, u, 0)
    ensures GetReply(Reading([], None, u + rest)) == Emission(Some(t), Reading([], None, rest))
  {
    ParseEncode(t, u, 0, rest);
    StackRefinesRecursion(u + rest);
  }

  lemma DrainOne(u: bytes, t: Reply, rest: bytes)
    requires GetReply(Reading([], None, u)) == Emission(Some(t), Reading([], None, rest))
    ensures Drain(Reading([], None, u)) == Before([t], Drain(Reading([], None, rest)))
  {
  }

  lemma {:induction false} DrainEncoded(ts: seq<Reply>, parts: seq<bytes>)
    requires EncodesAll(ts, parts, 0)
    ensures Drain(Reading([], None, Flat(parts))) == Drained(ts, FRESH)
  {
    if ts != [] {
      var rest := Flat(parts[1..]);
      GetReplyEncoded(ts[0], parts[0], rest);
      DrainOne(Flat(parts), ts[0], rest);
      DrainEncoded(ts[1..], parts[1..]);
      assert [ts[0]] + ts[1..] == ts;
    }
  }

  /** A stream of encoded replies, cut anywhere, comes out as those replies, and the reader is clean again. */
  lemma EncodedStream(ts: seq<Reply>, parts: seq<bytes>, calls: seq<Call>)
    requires EncodesAll(ts, parts, 0) && Fed(calls) == Flat(parts)
    ensures var d := Run(FRESH, calls);
      d.replies + Drain(d.reader).replies == ts && Drain(d.reader).reader == FRESH
  {
    ChunkingDoesNotMatter(calls);
    assert [] + Flat(parts) == Flat(parts);
    DrainEncoded(ts, parts);
  }

  // ---------------------------------------------------------------- counts beyond int

  /** The header of an array and what follows it. */
  function ArrayHeader(n: int, rest: bytes): bytes {
    [STAR] + Printed(n) + CRLF + rest
  }

  lemma HeaderRead(n: int, rest: bytes)
    requires LLONG_MIN <= n <= LLONG_MAX
    ensures var u := ArrayHeader(n, rest)[1..];
      Newline(u) == |Printed(n)| && Number(u) == n && u[|Printed(n)| + 2..] == rest
  {
    NumberLine(Printed(n), n, rest);
    assert ArrayHeader(n, rest)[1..] == Printed(n) + CRLF + rest;
  }

  lemma ParseChildless(n: int, u: bytes)
    requires LLONG_MIN <= n <= 0
    ensures Parse(ArrayHeader(n, u), 0) == Done(if n == -1 then Nil else Childless(ToInt(n)), u)
  {
    HeaderRead(n, u);
  }

  lemma HeaderOf(n: int, u: bytes)
    requires 0 < n <= LLONG_MAX
    ensures AtHeader(ArrayHeader(n, u), 0, ToInt(n), |Printed(n)| + 2)
    ensures ArrayHeader(n, u)[1..][|Printed(n)| + 2..] == u
  {
    HeaderRead(n, u);
  }

  /** An array header with one reply behind it, in any encoding. */
  lemma ParseOneChild(s: bytes, m: int, used: nat, t: Reply, u: bytes)
    requires AtHeader(s, 0, m, used) && s[1..][used..] == u && Encodes(t, u, 1)
    ensures Parse(s, 0) ==
            if m <= 0 then Parsed.Lost else if m == 1 then Done(Array([t]), []) else Incomplete
  {
    ParseEncode(t, u, 1, []);
    assert u + [] == u;
    if m <= 0 {
      ParseVectorless(s, 0, m, used);
      OrphanLost(u, 1);
    } else {
      ParseHeader(s, 0, m, used);
      MissingStep(Frame(m, []), u, 1);
      assert [] + [t] == [t];
      if m == 1 {
        MissingNone(Frame(m, [t]), [], 1);
      } else {
        MissingStep(Frame(m, [t]), [], 1);
      }
    }
  }

  lemma OrphanLost(u: bytes, level: nat)
    requires Parse(u, level).Done?
    ensures ParseOrphan(u, level) == Parsed.Lost
  {
  }

  /** What becomes of any array count with one reply behind it: nil or an array without children up to 0,
      and above it whatever the count is as an int, where all that is not positive loses the program. */
  lemma CountOutcome(n: int, t: Reply, u: bytes)
    requires LLONG_MIN <= n <= LLONG_MAX && Encodes(t, u, 1)
    ensures var e := GetReply(Reading([], None, ArrayHeader(n, u)));
      if n <= 0 then
        e == Emission(Some(if n == -1 then Nil else Childless(ToInt(n))), Reading([], None, u))
      else if ToInt(n) <= 0 then e == Emission(None, Reader.Lost)
      else if ToInt(n) == 1 then e == Emission(Some(Array([t])), FRESH)
      else e.reply.None? && e.reader.Reading?
  {
    StackRefinesRecursion(ArrayHeader(n, u));
    if n <= 0 {
      ParseChildless(n, u);
    } else {
      HeaderOf(n, u);
      ParseOneChild(ArrayHeader(n, u), ToInt(n), |Printed(n)| + 2, t, u);
    }
  }

  /** The program is lost if and only if the count is positive and its low 32 bits, as an int, are not. */
  lemma LostExactlyWhen(n: int, t: Reply, u: bytes)
    requires LLONG_MIN <= n <= LLONG_MAX && Encodes(t, u, 1)
    ensures GetReply(Reading([], None, ArrayHeader(n, u))).reader.Lost? <==>
            n > 0 && !(1 <= n % UINT_VALUES <= INT_MAX)
  {
    CountOutcome(n, t, u);
  }

  lemma EmptyStatus(u: bytes)
    requires u == [PLUS] + CRLF
    ensures Encodes(Status([]), u, 1)
  {
    assert [PLUS] + [] + CRLF == u;
  }

  lemma Reached(n: int, m: int, u: bytes)
    requires 0 < n <= LLONG_MAX && m == ToInt(n) && m <= 1 && Encodes(Status([]), u, 1)
    ensures GetReply(Reading([], None, ArrayHeader(n, u))) ==
            if m <= 0 then Emission(None, Reader.Lost) else Emission(Some(Array([Status([])])), FRESH)
  {
    CountOutcome(n, Status([]), u);
  }

  lemma Conversions()
    ensures ToInt(INT_MAX + 1) == -INT_MAX - 1 && ToInt(UINT_VALUES + 1) == 1
  {
  }

  /** The smallest count that loses the program. */
  lemma LostReached(n: int, u: bytes)
    requires n == INT_MAX + 1 && u == [PLUS] + CRLF
    ensures GetReply(Reading([], None, ArrayHeader(n, u))) == Emission(None, Reader.Lost)
  {
    EmptyStatus(u);
    Conversions();
    Reached(n, -INT_MAX - 1, u);
  }

  /** A count that int cuts down: one child is taken for a whole array of 4294967297. */
  lemma CutCountReached(n: int, u: bytes)
    requires n == UINT_VALUES + 1 && u == [PLUS] + CRLF
    ensures GetReply(Reading([], None, ArrayHeader(n, u))) == Emission(Some(Array([Status([])])), FRESH)
  {
    EmptyStatus(u);
    Conversions();
    Reached(n, 1, u);
  }

  /** A count that int makes positive: an array of one NULL slot. */
  lemma HollowReached(n: int)
    requires n == 1 - UINT_VALUES
    ensures GetReply(Reading([], None, ArrayHeader(n, []))) == Emission(Some(Hollow(1)), FRESH)
  {
    ParseChildless(n, []);
    StackRefinesRecursion(ArrayHeader(n, []));
  }
}
