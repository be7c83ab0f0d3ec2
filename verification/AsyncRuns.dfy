/** What every run of the asynchronous connection keeps. */
module AsyncRuns {
  import opened Bytes
  import opened Decimal
  import opened Resp
  import opened Socket
  import opened AsyncMachine
  import C = Command
  import S = CommandSort
  import M = ReaderMachine

  // ---------------------------------------------------------------- the invariant

  function Callbacks(departed: seq<Departed>): (cs: seq<Callback>)
    ensures |cs| == |departed| && forall k :: 0 <= k < |cs| ==> cs[k] == departed[k].cb
  {
    seq(|departed|, k requires 0 <= k < |departed| => departed[k].cb)
  }

  /** The texts of the commands, one each. */
  function Texts(commands: seq<S.PlainCommand>): (texts: seq<bytes>)
    ensures |texts| == |commands| && forall k :: 0 <= k < |texts| ==> texts[k] == C.CommandText(commands[k])
  {
    seq(|commands|, k requires 0 <= k < |commands| => C.CommandText(commands[k]))
  }

  /** The k-th callback to leave left with the k-th reply taken from the reader, or with NULL if there is none. */
  ghost predicate InOrder(departed: seq<Departed>, got: seq<Reply>) {
    forall k :: 0 <= k < |departed| ==> departed[k].reply == if k < |got| then Some(got[k]) else None
  }

  /** The replies taken so far and those the reader still holds are the replies of the bytes received. */
  ghost predicate Stream(s: Ctx) {
    M.Wf(s.reader) && M.Before(s.h.got, M.Drain(s.reader)) == M.Drain(M.Feed(M.FRESH, s.h.received))
  }

  /** The reader has no reply to give, and asking it changes nothing. */
  ghost predicate Polled(s: Ctx)
    requires M.Wf(s.reader)
  {
    M.GetReply(s.reader) == M.Emission(None, s.reader)
  }

  /** Callbacks leave in the order they came, none twice and none lost; the bytes written and those
      waiting to be written are the accepted commands. */
  ghost predicate Books(s: Ctx) {
    && s.h.issued == Callbacks(s.h.departed) + s.queue
    && |s.h.commands| == |s.h.issued|
    && s.h.sent + s.obuf == Flat(Texts(s.h.commands))
    && InOrder(s.h.departed, s.h.got)
  }

  /** As long as the context lives: every reply taken has gone to a callback, and no callback has left without. */
  ghost predicate Sound(s: Ctx) {
    && s.status == Live && !s.inCallback && s.reader.Reading?
    && Books(s) && Stream(s) && |s.h.departed| == |s.h.got|
  }

  /** Between events no reply waits in the reader, and an error can be pending only before the
      connection is established. */
  ghost predicate LiveOk(s: Ctx) {
    Sound(s) && Polled(s) && (s.failed ==> !s.connected)
  }

  /** Why a context is being freed. Replies are left in the reader only when the user frees it or the
      server has sent one too many, which was an error; callbacks are left without one only when the user frees it or
      there was an error. */
  ghost predicate Parting(s: Ctx)
    requires M.Wf(s.reader)
  {
    && (Polled(s) || s.freeing || |s.h.got| > |s.h.issued|)
    && (s.failed || s.freeing || (s.queue == [] && |s.h.got| == |s.h.departed|))
    && (s.queue == [] || |s.h.got| <= |s.h.departed|)
    && (|s.h.got| > |s.h.issued| ==> ErrorReply(s.h.got[|s.h.issued|]))
    && !s.reader.Lost?
  }

  /** After any event. When the context is gone, so is the queue. The assertion of
      redisProcessCallbacks has failed only on a reply that was no error and nobody's. The program has
      crashed only when its reader is lost. */
  ghost predicate Ok(s: Ctx) {
    match s.status
    case Live => LiveOk(s)
    case Freed => Books(s) && Stream(s) && s.queue == [] && Parting(s)
    case Aborted =>
      && Books(s) && Stream(s) && s.queue == [] && |s.h.got| == |s.h.departed| + 1
      && !ErrorReply(s.h.got[|s.h.departed|]) && s.reader.Reading?
    case Crashed => Books(s) && Stream(s) && s.reader.Lost? && |s.h.departed| == |s.h.got|
  }

  // ---------------------------------------------------------------- callbacks

  lemma TextsSnoc(commands: seq<S.PlainCommand>, args: S.PlainCommand)
    ensures Flat(Texts(commands + [args])) == Flat(Texts(commands)) + C.CommandText(args)
  {
    assert Texts(commands + [args]) == Texts(commands) + [C.CommandText(args)];
    FlatConcat(Texts(commands), [C.CommandText(args)]);
    FlatOne(C.CommandText(args));
  }

  lemma Regroup<T>(a: seq<T>, b: seq<T>, c: seq<T>)
    ensures a + (b + c) == a + b + c
  {
  }

  lemma InsideKeepsBooks(s: Ctx, act: Act)
    requires Books(s)
    ensures Books(Inside(s, act))
  {
    if act.Command? && !Closing(s) {
      TextsSnoc(s.h.commands, act.args);
      Regroup(s.h.sent, s.obuf, C.CommandText(act.args));
      Regroup(Callbacks(s.h.departed), s.queue, [act.cb]);
    }
  }

  lemma {:induction false} PerformKeepsBooks(s: Ctx, acts: seq<Act>)
    requires Books(s)
    ensures Books(Perform(s, acts))
    decreases |acts|
  {
    if acts != [] {
      InsideKeepsBooks(s, acts[0]);
      PerformKeepsBooks(Inside(s, acts[0]), acts[1..]);
    }
  }

  /** All that a callback can change: the queue and output grow, and the connection may start closing. */
  lemma RunKeeps(u: User, s: Ctx, cb: Callback, reply: Option<Reply>)
    requires Books(s) && !s.inCallback
    ensures var r := RunCallback(u, s, cb, reply);
      && Books(r) && !r.inCallback && r.failed == s.failed && r.reader == s.reader && r.status == s.status
      && r.h.departed == s.h.departed && r.h.got == s.h.got && r.h.received == s.h.received
      && r.connected == s.connected
  {
    if cb.fn != 0 {
      var s' := Enter(u, s, cb, reply);
      PerformKeepsBooks(s', u(s.h, cb, reply));
      PerformKeeps(s', u(s.h, cb, reply));
    }
  }

  lemma ShiftKeepsBooks(s: Ctx, reply: Option<Reply>)
    requires Books(s) && s.queue != []
    requires reply == if |s.h.departed| < |s.h.got| then Some(s.h.got[|s.h.departed|]) else None
    ensures Books(Shift(s, reply))
  {
    var t := Shift(s, reply);
    assert Callbacks(t.h.departed) == Callbacks(s.h.departed) + [s.queue[0]];
    assert Callbacks(s.h.departed) + s.queue == Callbacks(s.h.departed) + [s.queue[0]] + s.queue[1..];
  }

  // ---------------------------------------------------------------- closing

  lemma {:induction false} FreeKeeps(u: User, s: Ctx)
    requires Closing(s) && !s.inCallback && Books(s) && Stream(s) && Parting(s)
    ensures Ok(DoFree(u, s))
    decreases |s.queue|
  {
    if s.queue != [] {
      var s' := Shift(s, None);
      var cb := s.queue[0];
      ShiftKeepsBooks(s, None);
      ClosingStays(Enter(u, s', cb, None), u(s'.h, cb, None));
      RunKeeps(u, s', cb, None);
      FreeKeeps(u, RunCallback(u, s', cb, None));
    }
  }

  lemma DisconnectKeeps(u: User, s: Ctx)
    requires !s.inCallback && (!s.failed ==> s.queue == [] && Closing(s)) && Books(s) && Stream(s)
    requires Parting(s)
    ensures Ok(DoDisconnect(u, s))
  {
    FreeKeeps(u, if s.failed then s.(disconnecting := true) else s);
  }

  // ---------------------------------------------------------------- replies

  lemma TakeKeepsStream(s: Ctx)
    requires Stream(s)
    ensures Stream(TakeReply(s))
  {
    var e := M.GetReply(s.reader);
    if e.reply.Some? {
      M.DrainStep(s.reader);
      M.BeforeBefore(s.h.got, M.Replies(e), M.Drain(e.reader));
    } else {
      M.Settled(s.reader);
      assert s.h.got + [] == s.h.got;
    }
  }

  lemma TakeKeepsBooks(s: Ctx)
    requires Books(s) && M.Wf(s.reader) && |s.h.departed| <= |s.h.got|
    ensures Books(TakeReply(s))
  {
  }

  lemma TurnKeeps(u: User, s: Ctx)
    requires Sound(s) && !s.failed
    ensures var r := TakeTurn(u, s);
      if r.more then Sound(r.s) && !r.s.failed else Ok(r.s)
  {
    var e := M.GetReply(s.reader);
    var t := TakeReply(s);
    TakeKeepsStream(s);
    TakeKeepsBooks(s);
    if e.reply.None? {
      assert t.h.got == s.h.got;
      M.Settled(s.reader);
      if e.reader.Failed? || (e.reader.Reading? && t.disconnecting && t.obuf == [] && t.queue == []) {
        DisconnectKeeps(u, t);
      }
    } else if t.queue == [] {
      assert |t.h.issued| == |t.h.departed|;
      if ErrorReply(e.reply.value) {
        DisconnectKeeps(u, t.(failed := true));
      }
    } else {
      AnswerKeeps(u, s, e.reply.value);
      var r := RunCallback(u, Shift(t, e.reply), t.queue[0], e.reply);
      if t.queue[0].fn != 0 && r.freeing {
        FreeKeeps(u, r);
      }
    }
  }

  lemma {:induction false} ProcessKeeps(u: User, s: Ctx)
    requires Sound(s) && !s.failed
    ensures Ok(ProcessCallbacks(u, s))
    decreases |s.reader.unread|
  {
    var r := TakeTurn(u, s);
    TurnKeeps(u, s);
    if r.more {
      ProcessKeeps(u, r.s);
    }
  }

  /** One reply goes to the callback at the head of the queue. */
  lemma AnswerKeeps(u: User, s: Ctx, reply: Reply)
    requires Sound(s) && M.GetReply(s.reader).reply == Some(reply) && s.queue != []
    ensures var r := RunCallback(u, Shift(TakeReply(s), Some(reply)), s.queue[0], Some(reply));
      Sound(r) && r.failed == s.failed
    ensures M.GetReply(s.reader).reader.Reading?
  {
    var t := TakeReply(s);
    TakeKeepsStream(s);
    TakeKeepsBooks(s);
    ShiftKeepsBooks(t, Some(reply));
    RunKeeps(u, Shift(t, Some(reply)), s.queue[0], Some(reply));
  }

  // ---------------------------------------------------------------- events

  lemma ReadKeeps(s: Ctx, data: bytes)
    requires Stream(s) && s.reader.Reading?
    ensures Stream(s.(reader := M.Feed(s.reader, data), h := s.h.(received := s.h.received + data)))
  {
    var whole := M.Feed(M.FRESH, s.h.received);
    M.FeedFeed(M.FRESH, s.h.received, data);
    M.DrainFeed(whole, data);
    M.DrainFeed(s.reader, data);
    M.BeforeBefore(s.h.got, M.Drain(s.reader).replies, M.Drain(M.Feed(M.Drain(s.reader).reader, data)));
  }

  lemma ReadIsSound(s: Ctx, input: Input)
    requires Sound(s)
    ensures Sound(BufferRead(s, input))
  {
    if input.Data? {
      ReadKeeps(s, input.data);
    }
  }

  lemma WriteMoves(s: Ctx, output: Output)
    ensures var t := BufferWrite(s, output);
      t.h.sent + t.obuf == s.h.sent + s.obuf
  {
    var n := Taken(s.obuf, output);
    assert s.obuf[..n] + s.obuf[n..] == s.obuf;
    assert s.h.sent + s.obuf[..n] + s.obuf[n..] == s.h.sent + (s.obuf[..n] + s.obuf[n..]);
  }

  lemma WriteKeeps(s: Ctx, output: Output)
    requires Books(s)
    ensures Books(BufferWrite(s, output))
  {
    WriteMoves(s, output);
  }

  /** redisBufferWrite reports that it is done exactly when every accepted command is out. */
  lemma DoneMeansAllSent(s: Ctx, output: Output)
    requires Books(s)
    ensures var t := BufferWrite(s, output); t.obuf == [] <==> t.h.sent == Flat(Texts(s.h.commands))
  {
    var t := BufferWrite(s, output);
    WriteKeeps(s, output);
    if t.obuf == [] {
      assert t.h.sent + [] == t.h.sent;
    } else {
      assert |t.h.sent| < |t.h.sent + t.obuf|;
    }
  }

  lemma HandleReadKeeps(u: User, s: Ctx, input: Input)
    requires Sound(s) && Polled(s)
    ensures Ok(HandleRead(u, s, input))
  {
    if s.failed {
      DisconnectKeeps(u, s);
    } else {
      var t := BufferRead(s, input);
      ReadIsSound(s, input);
      if t.failed {
        DisconnectKeeps(u, t);
      } else {
        ProcessKeeps(u, t);
      }
    }
  }

  lemma OutsideKeeps(u: User, s: Ctx, act: Act)
    requires LiveOk(s)
    ensures Ok(Outside(u, s, act))
  {
    match act
    case Command(_, _) => InsideKeepsBooks(s, act);
    case Disconnect =>
      if s.queue == [] {
        DisconnectKeeps(u, s.(disconnecting := true));
      }
    case Free => FreeKeeps(u, s.(freeing := true));
  }

  lemma HandleWriteKeeps(u: User, s: Ctx, output: Output)
    requires Sound(s) && Polled(s)
    ensures Ok(HandleWrite(u, s, output))
  {
    WriteKeeps(s, output);
    var t := if s.failed then s else BufferWrite(s, output);
    if t.failed {
      DisconnectKeeps(u, t);
    }
  }

  lemma ConnectKeeps(u: User, s: Ctx, conn: Connecting)
    requires LiveOk(s)
    ensures var t := Connect(u, s, conn);
      if t.status == Live && t.connected then Sound(t) && Polled(t) else Ok(t)
  {
    if !s.connected && conn.Refused? {
      DisconnectKeeps(u, s.(failed := true));
    }
  }

  lemma StepKeeps(u: User, s: Ctx, e: Event)
    requires LiveOk(s)
    ensures Ok(Step(u, s, e))
  {
    match e
    case Call(act) => OutsideKeeps(u, Noted(s, Asked(act)), act);
    case Readable(conn, input) =>
      ConnectKeeps(u, s, conn);
      var t := Connect(u, s, conn);
      if t.status == Live && t.connected {
        HandleReadKeeps(u, t, input);
      }
    case Writable(conn, output) =>
      ConnectKeeps(u, s, conn);
      var t := Connect(u, s, conn);
      if t.status == Live && t.connected {
        HandleWriteKeeps(u, t, output);
      }
  }

  // ---------------------------------------------------------------- runs

  /** Events are handled until the context is gone. */
  ghost function Run(u: User, s: Ctx, es: seq<Event>): Ctx
    requires Ok(s)
    decreases |es|
  {
    if es == [] || s.status != Live then s
    else
      StepKeeps(u, s, es[0]);
      Run(u, Step(u, s, es[0]), es[1..])
  }

  lemma {:induction false} RunKeepsOk(u: User, s: Ctx, es: seq<Event>)
    requires Ok(s)
    ensures Ok(Run(u, s, es))
    decreases |es|
  {
    if es != [] && s.status == Live {
      StepKeeps(u, s, es[0]);
      RunKeepsOk(u, Step(u, s, es[0]), es[1..]);
    }
  }

  lemma InitialOk()
    ensures Ok(INITIAL)
  {
    assert M.Feed(M.FRESH, []) == M.FRESH;
  }

  /** The replies that the bytes received spell out. */
  ghost function Spelled(s: Ctx): seq<Reply> {
    M.Drain(M.Feed(M.FRESH, s.h.received)).replies
  }

  /** Where the bytes received leave a reader that is asked for all its replies. */
  ghost function Outcome(s: Ctx): M.Reader {
    M.Drain(M.Feed(M.FRESH, s.h.received)).reader
  }

  lemma GotAreSpelled(s: Ctx)
    requires Stream(s)
    ensures s.h.got <= Spelled(s)
    ensures Polled(s) ==> s.h.got == Spelled(s) && Outcome(s) == s.reader
    ensures Polled(s) || s.reader.Reading?
  {
    assert Spelled(s) == s.h.got + M.Drain(s.reader).replies;
  }

  /** What the books say of the callbacks that have left. */
  lemma InTheirOrder(s: Ctx)
    requires Books(s) && Stream(s)
    ensures forall k :: 0 <= k < |s.h.departed| ==>
              s.h.departed[k] == Departed(s.h.issued[k], if k < |s.h.got| then Some(Spelled(s)[k]) else None)
  {
    GotAreSpelled(s);
    forall k | 0 <= k < |s.h.departed|
      ensures s.h.departed[k] == Departed(s.h.issued[k], if k < |s.h.got| then Some(Spelled(s)[k]) else None)
    {
      assert s.h.issued[k] == Callbacks(s.h.departed)[k] == s.h.departed[k].cb;
    }
  }

  /** What becomes of a context, as far as the bytes received decide it. */
  lemma StatusMeans(s: Ctx)
    requires Ok(s)
    ensures s.h.got != Spelled(s) ==> s.freeing || |Spelled(s)| > |s.h.issued|
    ensures s.status == Crashed ==> Outcome(s).Lost? && |Spelled(s)| <= |s.h.issued|
    ensures s.status == Aborted ==> |Spelled(s)| > |s.h.issued| && !ErrorReply(Spelled(s)[|s.h.issued|])
    ensures !s.freeing && |Spelled(s)| <= |s.h.issued| && Outcome(s).Lost? ==> s.status == Crashed
    ensures !s.freeing && |Spelled(s)| > |s.h.issued| && !ErrorReply(Spelled(s)[|s.h.issued|]) ==> s.status == Aborted
  {
    GotAreSpelled(s);
    assert |s.h.issued| == |s.h.departed| + |s.queue|;
    assert s.h.got != Spelled(s) ==> |s.h.got| < |Spelled(s)|;
  }

  /** In every run, whatever the callbacks do and however the server's bytes arrive: the callbacks
      that have left the queue are the first ones issued, in order, each once, and the k-th of them
      has got the k-th reply that the bytes received spell out, or NULL. As long as the context
      lives, every reply received has gone to its callback, and no other callback has left. When it
      is gone, no callback is left behind, save when the program has crashed; a reply received was
      withheld only if the user has freed the context or the server has sent more than was asked for;
      a callback got NULL only if there was an error or the user has freed the context. */
  lemma RepliesInOrder(u: User, es: seq<Event>)
    ensures Ok(INITIAL)
    ensures var s := Run(u, INITIAL, es);
      var replies := Spelled(s);
      && s.h.issued == Callbacks(s.h.departed) + s.queue
      && s.h.got <= replies
      && (forall k :: 0 <= k < |s.h.departed| ==>
            s.h.departed[k] == Departed(s.h.issued[k], if k < |s.h.got| then Some(replies[k]) else None))
      && (s.status == Live ==>
            && |s.h.departed| == |replies| <= |s.h.issued|
            && forall k :: 0 <= k < |replies| ==> s.h.departed[k] == Departed(s.h.issued[k], Some(replies[k])))
      && (s.status == Freed || s.status == Aborted ==> s.queue == [])
      && (s.h.got != replies ==> s.freeing || |replies| > |s.h.issued|)
      && (|s.h.got| < |s.h.departed| ==> s.failed || s.freeing)
  {
    InitialOk();
    RunKeepsOk(u, INITIAL, es);
    var s := Run(u, INITIAL, es);
    GotAreSpelled(s);
    InTheirOrder(s);
    StatusMeans(s);
  }

  /** In every run the bytes written, followed by the output buffer, are the texts of the accepted
      commands in order, one for every callback issued. */
  lemma OutputBooked(u: User, es: seq<Event>)
    ensures Ok(INITIAL)
    ensures var s := Run(u, INITIAL, es);
      s.h.sent + s.obuf == Flat(Texts(s.h.commands)) && |s.h.commands| == |s.h.issued|
  {
    InitialOk();
    RunKeepsOk(u, INITIAL, es);
  }

  /** So that the server, when everything is written, reads exactly those commands, each as one array. */
  lemma ServerReadsTheCommands(u: User, es: seq<Event>)
    ensures Ok(INITIAL)
    ensures var s := Run(u, INITIAL, es);
      s.obuf == [] ==> M.Drain(M.Feed(M.FRESH, s.h.sent)) == M.Drained(Arrays(s.h.commands), M.FRESH)
  {
    OutputBooked(u, es);
    var s := Run(u, INITIAL, es);
    forall k | 0 <= k < |s.h.commands|
      ensures Encodes(Arrays(s.h.commands)[k], Texts(s.h.commands)[k], 0)
    {
      C.SizesFitExactly(s.h.commands[k]);
      C.CommandEncodes(s.h.commands[k]);
    }
    M.DrainEncoded(Arrays(s.h.commands), Texts(s.h.commands));
    if s.obuf == [] {
      assert s.h.sent + [] == s.h.sent;
      assert [] + s.h.sent == s.h.sent;
    }
  }

  function Arrays(commands: seq<S.PlainCommand>): (rs: seq<Reply>)
    ensures |rs| == |commands| && forall k :: 0 <= k < |rs| ==> rs[k] == Array(C.Strs(commands[k]))
  {
    seq(|commands|, k requires 0 <= k < |commands| => Array(C.Strs(commands[k])))
  }

  // ---------------------------------------------------------------- a server that answers

  lemma SpelledGrow(a: bytes, b: bytes)
    ensures M.Drain(M.Feed(M.FRESH, a)).replies <= M.Drain(M.Feed(M.FRESH, a + b)).replies
  {
    M.FeedFeed(M.FRESH, a, b);
    M.DrainFeed(M.Feed(M.FRESH, a), b);
  }

  lemma SpelledEncoded(ts: seq<Reply>, parts: seq<bytes>)
    requires EncodesAll(ts, parts, 0)
    ensures M.Drain(M.Feed(M.FRESH, Flat(parts))).replies == ts
  {
    assert [] + Flat(parts) == Flat(parts);
    M.DrainEncoded(ts, parts);
  }

  /** What the bytes received spell out when they are encoded replies, cut off anywhere: a part of
      them, with all those that have arrived whole. */
  lemma SpelledBetween(s: Ctx, ts: seq<Reply>, parts: seq<bytes>, n: nat, more: bytes)
    requires EncodesAll(ts, parts, 0) && n <= |ts|
    requires Flat(parts[..n]) <= s.h.received && s.h.received + more == Flat(parts)
    ensures ts[..n] <= Spelled(s) <= ts
    ensures more == [] ==> Spelled(s) == ts
  {
    var whole := Flat(parts[..n]);
    SpelledGrow(s.h.received, more);
    SpelledEncoded(ts, parts);
    SpelledEncoded(ts[..n], parts[..n]);
    SpelledGrow(whole, s.h.received[|whole|..]);
    assert whole + s.h.received[|whole|..] == s.h.received;
    assert more == [] ==> s.h.received + more == s.h.received;
  }

  lemma NeverLost(s: Ctx, ts: seq<Reply>, parts: seq<bytes>, more: bytes)
    requires EncodesAll(ts, parts, 0) && s.h.received + more == Flat(parts)
    ensures !Outcome(s).Lost?
  {
    M.FeedFeed(M.FRESH, s.h.received, more);
    M.DrainFeed(M.Feed(M.FRESH, s.h.received), more);
    assert [] + Flat(parts) == Flat(parts);
    M.DrainEncoded(ts, parts);
  }

  /** When the bytes received, perhaps cut off in the middle, are encoded replies and n of them have
      arrived whole, a context that lives has given each of the n to its callback; whatever callback
      has got a reply, it is the one with its number. The program never crashes, and the assertion of
      redisProcessCallbacks fails only when the server has sent more replies than there were commands,
      and then on one that is no error. */
  lemma EncodedRepliesReachTheirCallbacks(u: User, es: seq<Event>,
                                          ts: seq<Reply>, parts: seq<bytes>, n: nat, more: bytes)
    requires EncodesAll(ts, parts, 0) && n <= |ts|
    ensures Ok(INITIAL)
    ensures var s := Run(u, INITIAL, es);
      Flat(parts[..n]) <= s.h.received && s.h.received + more == Flat(parts) ==>
      && |s.h.departed| <= |s.h.issued|
      && (forall k :: 0 <= k < |s.h.departed| && s.h.departed[k].reply.Some? ==>
            k < |ts| && s.h.departed[k] == Departed(s.h.issued[k], Some(ts[k])))
      && (s.status == Live ==> n <= |s.h.departed| && forall k :: 0 <= k < n ==> s.h.departed[k].reply.Some?)
      && (s.status == Live && more == [] ==> |s.h.departed| == |ts|)
      && (s.status == Aborted ==> |ts| > |s.h.issued| && !ErrorReply(ts[|s.h.issued|]))
      && s.status != Crashed
  {
    var s := Run(u, INITIAL, es);
    RepliesInOrder(u, es);
    AbortedExactlyWhen(u, es);
    CrashedExactlyWhen(u, es);
    if Flat(parts[..n]) <= s.h.received && s.h.received + more == Flat(parts) {
      SpelledBetween(s, ts, parts, n, more);
      NeverLost(s, ts, parts, more);
    }
  }

  // ---------------------------------------------------------------- the assertion of redisProcessCallbacks

  /** The assertion of redisProcessCallbacks that the context is subscribed or monitoring, which it
      never is here, fails in exactly this case. */
  lemma AbortsExactlyWhen(u: User, s: Ctx)
    requires Sound(s) && !s.failed
    ensures var reply := M.GetReply(s.reader).reply;
      TakeTurn(u, s).s.status == Aborted <==> reply.Some? && s.queue == [] && !reply.value.Error?
  {
    if M.GetReply(s.reader).reply.Some? && s.queue != [] {
      AnswerStands(u, TakeReply(s), M.GetReply(s.reader).reply);
    }
  }

  lemma AnswerStands(u: User, t: Ctx, reply: Option<Reply>)
    requires !t.inCallback && t.queue != []
    ensures Answer(u, t, reply).s.status in {t.status, Freed}
  {
    var shifted := Shift(t, reply);
    PerformKeeps(Enter(u, shifted, t.queue[0], reply), u(shifted.h, t.queue[0], reply));
  }

  /** In every run it fails only when the bytes received spell out more replies than there were commands
      and the first one too many is no error; unless the user has freed the context, it then does fail. */
  lemma AbortedExactlyWhen(u: User, es: seq<Event>)
    ensures Ok(INITIAL)
    ensures var s := Run(u, INITIAL, es);
      var unasked := |Spelled(s)| > |s.h.issued| && !ErrorReply(Spelled(s)[|s.h.issued|]);
      (s.status == Aborted ==> unasked) && (!s.freeing ==> (s.status == Aborted <==> unasked))
  {
    InitialOk();
    RunKeepsOk(u, INITIAL, es);
    StatusMeans(Run(u, INITIAL, es));
  }

  /** A run in which it fails: the server greets a new connection with an empty status. */
  lemma AbortedReached(u: User)
    ensures Ok(INITIAL)
    ensures Run(u, INITIAL, [Readable(Established, Data([PLUS] + CRLF))]).status == Aborted
  {
    InitialOk();
    Greeted(u, [PLUS] + CRLF);
    assert [PLUS] + CRLF + [] == [PLUS] + CRLF;
    assert [PLUS] + [] + CRLF == [PLUS] + CRLF;
    M.GetReplyEncoded(Status([]), [PLUS] + CRLF, []);
  }

  /** What a server sends over a new connection before it is asked for anything. */
  lemma Greeted(u: User, data: bytes)
    requires Ok(INITIAL)
    ensures var t := INITIAL.(connected := true, reader := M.Reading([], None, data),
                              h := NO_HISTORY.(received := data));
      Sound(t) && Run(u, INITIAL, [Readable(Established, Data(data))]) == ProcessCallbacks(u, t)
  {
    var e := Readable(Established, Data(data));
    OneStep(u, INITIAL, e);
    EstablishedStep(u, INITIAL, data);
    ReadIsSound(INITIAL.(connected := true), Data(data));
    assert [] + data == data;
  }

  // ---------------------------------------------------------------- a write through NULL

  /** In every run the program crashes only when the bytes received lose the reader and do not spell out
      more replies than there were commands; unless the user has freed the context, it then does crash. */
  lemma CrashedExactlyWhen(u: User, es: seq<Event>)
    ensures Ok(INITIAL)
    ensures var s := Run(u, INITIAL, es);
      var lost := Outcome(s).Lost? && |Spelled(s)| <= |s.h.issued|;
      (s.status == Crashed ==> lost) && (!s.freeing ==> (s.status == Crashed <==> lost))
  {
    InitialOk();
    RunKeepsOk(u, INITIAL, es);
    StatusMeans(Run(u, INITIAL, es));
  }

  /** A run in which it crashes: the server greets a new connection with an array of 2147483648. */
  lemma CrashedReached(u: User, n: int, data: bytes)
    requires n == INT_MAX + 1 && data == M.ArrayHeader(n, [PLUS] + CRLF)
    ensures Ok(INITIAL)
    ensures Run(u, INITIAL, [Readable(Established, Data(data))]).status == Crashed
  {
    InitialOk();
    Greeted(u, data);
    M.LostReached(n, [PLUS] + CRLF);
  }

  lemma OneStep(u: User, s: Ctx, e: Event)
    requires LiveOk(s)
    ensures Run(u, s, [e]) == Step(u, s, e)
  {
    StepKeeps(u, s, e);
  }

  // ---------------------------------------------------------------- a requested disconnect

  /** The user has asked to disconnect, and nothing is left to be sent or answered. */
  predicate Idle(s: Ctx) {
    s.disconnecting && s.queue == [] && s.obuf == []
  }

  /** A call of redisAsyncDisconnect goes through at once exactly when no callback is pending. */
  lemma CallDisconnects(u: User, s: Ctx)
    requires LiveOk(s)
    ensures var t := Step(u, s, Call(Disconnect));
      && (t.status == Freed <==> s.queue == [])
      && (s.queue != [] ==> t == Noted(s, Asked(Disconnect)).(disconnecting := true))
  {
  }

  /** Later it goes through when the descriptor is readable: with nothing to read, exactly on an idle
      context, and no other is changed by that. */
  lemma QuietReadDisconnects(u: User, s: Ctx, conn: Connecting)
    requires LiveOk(s) && s.connected
    ensures var t := Step(u, s, Readable(conn, NoInput));
      (t.status == Freed <==> Idle(s)) && (!Idle(s) ==> t == s)
  {
    assert s.h.got + [] == s.h.got;
    assert TakeReply(s) == s;
  }

  /** The last turn. */
  lemma TurnDisconnects(u: User, s: Ctx)
    requires Sound(s) && !s.failed
    ensures var r := TakeTurn(u, s); !r.more && r.s.status == Live ==> !Idle(r.s)
  {
  }

  lemma IdleTurn(u: User, s: Ctx)
    requires Sound(s) && !s.failed && Idle(s)
    ensures var r := TakeTurn(u, s); !r.more && r.s.status != Live
  {
    var t := TakeReply(s);
    assert Idle(t);
    match M.GetReply(s.reader).reply {
      case None =>
      case Some(reply) => assert t.queue == [];
    }
  }

  lemma {:induction false} ProcessDisconnects(u: User, s: Ctx)
    requires Sound(s) && !s.failed
    ensures var t := ProcessCallbacks(u, s); t.status == Live ==> !Idle(t)
    decreases |s.reader.unread|
  {
    var r := TakeTurn(u, s);
    TurnKeeps(u, s);
    TurnDisconnects(u, s);
    if r.more {
      ProcessDisconnects(u, r.s);
    }
  }

  /** No context is left idle once the replies that have arrived are processed. */
  lemma ReadDisconnects(u: User, s: Ctx, conn: Connecting, input: Input)
    requires LiveOk(s) && s.connected
    ensures var t := Step(u, s, Readable(conn, input)); t.status == Live ==> !Idle(t)
  {
    var t := BufferRead(s, input);
    ReadIsSound(s, input);
    if !t.failed {
      ProcessDisconnects(u, t);
    }
  }

  /** Writing never disconnects, save on an error: a context that gets rid of its last byte stays, idle
      or not. */
  lemma WriteDisconnects(u: User, s: Ctx, conn: Connecting, output: Output)
    requires LiveOk(s) && s.connected
    ensures var t := Step(u, s, Writable(conn, output));
      && (t.status == Freed <==> s.obuf != [] && output.OutputError?)
      && (t.status != Freed ==> t.status == Live && (Idle(t) <==> s.disconnecting && s.queue == [] && t.obuf == []))
  {
  }

  /** Nothing has changed, save what the log says has been asked. */
  predicate Unmoved(s: Ctx, t: Ctx) {
    t == s.(h := s.h.(log := t.h.log))
  }

  /** Writes, and commands, which are refused. */
  predicate Waits(e: Event) {
    e.Writable? || (e.Call? && e.act.Command?)
  }

  lemma IdleStep(u: User, s: Ctx, e: Event)
    requires LiveOk(s) && s.connected && Idle(s)
    ensures var t := Step(u, s, e); if Waits(e) then Unmoved(s, t) else t.status != Live
  {
    if e.Readable? {
      IdleRead(u, s, e.input);
    }
  }

  lemma IdleRead(u: User, s: Ctx, input: Input)
    requires LiveOk(s) && s.connected && Idle(s)
    ensures HandleRead(u, s, input).status != Live
  {
    var t := BufferRead(s, input);
    ReadIsSound(s, input);
    if !t.failed {
      IdleTurn(u, t);
    }
  }

  /** So an idle context lives exactly as long as its descriptor does not become readable and the user
      neither disconnects again nor frees it; until then nothing changes it. */
  lemma {:induction false} IdleUntilRead(u: User, s: Ctx, es: seq<Event>)
    requires LiveOk(s) && s.connected && Idle(s)
    ensures Run(u, s, es).status == Live <==> forall i :: 0 <= i < |es| ==> Waits(es[i])
    ensures Run(u, s, es).status == Live ==> Unmoved(s, Run(u, s, es))
    decreases |es|
  {
    if es != [] {
      StepKeeps(u, s, es[0]);
      IdleStep(u, s, es[0]);
      AllWait(es);
      if Waits(es[0]) {
        IdleUntilRead(u, Step(u, s, es[0]), es[1..]);
      }
    }
  }

  lemma AllWait(es: seq<Event>)
    requires es != []
    ensures (forall i :: 0 <= i < |es| ==> Waits(es[i])) <==>
            Waits(es[0]) && forall i :: 0 <= i < |es[1..]| ==> Waits(es[1..][i])
  {
    if forall i :: 0 <= i < |es[1..]| ==> Waits(es[1..][i]) {
      forall i | 0 < i < |es|
        ensures Waits(es[i])
      {
        assert Waits(es[1..][i - 1]);
      }
    }
  }

  // ---------------------------------------------------------------- an attempt in progress

  /** Nothing can come in, go out or be answered any more. */
  ghost predicate Stuck(s: Ctx, since: Ctx) {
    && s.h.received == since.h.received && s.h.sent == since.h.sent && s.h.got == since.h.got
    && (s.status == Live ==> s.failed)
  }

  lemma {:induction false} FreeSticks(u: User, s: Ctx)
    requires Closing(s) && !s.inCallback
    ensures Stuck(DoFree(u, s), s)
    decreases |s.queue|
  {
    if s.queue != [] {
      var s' := Shift(s, None);
      var acts := u(s'.h, s.queue[0], None);
      ClosingStays(Enter(u, s', s.queue[0], None), acts);
      PerformKeeps(Enter(u, s', s.queue[0], None), acts);
      FreeSticks(u, RunCallback(u, s', s.queue[0], None));
    }
  }

  lemma DisconnectSticks(u: User, s: Ctx)
    requires !s.inCallback && (!s.failed ==> s.queue == [] && Closing(s))
    ensures Stuck(DoDisconnect(u, s), s)
  {
    FreeSticks(u, if s.failed then s.(disconnecting := true) else s);
  }

  lemma StepSticks(u: User, s: Ctx, e: Event)
    requires LiveOk(s) && s.failed
    ensures Stuck(Step(u, s, e), s)
  {
    match e
    case Call(Command(_, _)) =>
    case Call(Disconnect) =>
      if s.queue == [] {
        DisconnectSticks(u, Noted(s, Asked(Disconnect)).(disconnecting := true));
      }
    case Call(Free) => FreeSticks(u, Noted(s, Asked(Free)).(freeing := true));
    case Readable(conn, _) => ConnectSticks(u, s, conn);
    case Writable(conn, _) => ConnectSticks(u, s, conn);
  }

  lemma ConnectSticks(u: User, s: Ctx, conn: Connecting)
    requires LiveOk(s) && s.failed
    ensures Stuck(Connect(u, s, conn), s)
    ensures var t := Connect(u, s, conn);
      t.connected && t.status == Live ==> Stuck(DoDisconnect(u, t), s)
  {
    DisconnectSticks(u, s);
    var t := Connect(u, s, conn);
    if t.status == Live {
      DisconnectSticks(u, t);
    }
  }

  lemma {:induction false} RunSticks(u: User, s: Ctx, es: seq<Event>)
    requires LiveOk(s) && s.failed
    ensures Stuck(Run(u, s, es), s)
    decreases |es|
  {
    if es != [] {
      var t := Step(u, s, es[0]);
      StepKeeps(u, s, es[0]);
      StepSticks(u, s, es[0]);
      if t.status == Live {
        RunSticks(u, t, es[1..]);
      }
    }
  }

  /** Once asking the socket has found the attempt still in progress, the error this leaves behind is
      never cleared: the context stays, but in no run does it read, write or get a reply again. */
  lemma InProgressIsFinal(u: User, s: Ctx, e: Event, es: seq<Event>)
    requires LiveOk(s) && !s.connected && !e.Call? && e.conn.InProgress?
    ensures Step(u, s, e).status == Live
    ensures Stuck(Run(u, s, [e] + es), s)
  {
    var t := Step(u, s, e);
    StepKeeps(u, s, e);
    assert ([e] + es)[1..] == es;
    RunSticks(u, t, es);
  }

  // ---------------------------------------------------------------- when a connection can still be used

  /** Bytes come in or go out. */
  ghost predicate Moves(u: User, s: Ctx, es: seq<Event>)
    requires Ok(s)
  {
    Run(u, s, es).h.received != s.h.received || Run(u, s, es).h.sent != s.h.sent
  }

  /** A turn neither reads nor writes, and a context that lives on is as connected as it was. */
  ghost predicate Touches(s: Ctx, t: Ctx) {
    t.h.received == s.h.received && t.h.sent == s.h.sent && (t.status == Live ==> t.connected == s.connected)
  }

  lemma AnswerTouches(u: User, t: Ctx, reply: Option<Reply>)
    requires !t.inCallback && t.queue != []
    ensures Touches(t, Answer(u, t, reply).s)
  {
    var shifted := Shift(t, reply);
    PerformKeeps(Enter(u, shifted, t.queue[0], reply), u(shifted.h, t.queue[0], reply));
    var r := RunCallback(u, shifted, t.queue[0], reply);
    if r.freeing {
      FreeSticks(u, r);
    }
  }

  lemma TurnTouches(u: User, s: Ctx)
    requires Sound(s) && !s.failed
    ensures Touches(s, TakeTurn(u, s).s)
  {
    var e := M.GetReply(s.reader);
    var t := TakeReply(s);
    if e.reader.Failed? || (e.reply.None? && t.disconnecting && t.queue == []) {
      DisconnectSticks(u, t);
    } else if e.reply.Some? && t.queue == [] {
      DisconnectSticks(u, t.(failed := true));
    } else if e.reply.Some? {
      AnswerTouches(u, t, e.reply);
    }
  }

  lemma {:induction false} ProcessTouches(u: User, s: Ctx)
    requires Sound(s) && !s.failed
    ensures Touches(s, ProcessCallbacks(u, s))
    decreases |s.reader.unread|
  {
    var r := TakeTurn(u, s);
    TurnKeeps(u, s);
    TurnTouches(u, s);
    if r.more {
      ProcessTouches(u, r.s);
    }
  }

  lemma EstablishedStep(u: User, s: Ctx, data: bytes)
    requires LiveOk(s) && !s.connected && !s.failed
    ensures Step(u, s, Readable(Established, Data(data))) ==
            ProcessCallbacks(u, BufferRead(s.(connected := true), Data(data)))
  {
  }

  /** A context that is not connected yet and has no error can be reached by what the server sends. */
  lemma EstablishedReads(u: User, s: Ctx, data: bytes)
    requires LiveOk(s) && !s.connected && !s.failed
    ensures Run(u, s, [Readable(Established, Data(data))]).h.received == s.h.received + data
  {
    OneStep(u, s, Readable(Established, Data(data)));
    EstablishedStep(u, s, data);
    ReadIsSound(s.(connected := true), Data(data));
    ProcessTouches(u, BufferRead(s.(connected := true), Data(data)));
  }

  /** Before a connection is established, bytes can still move over it exactly when no error is pending. */
  lemma MovesExactly(u: User, s: Ctx)
    requires LiveOk(s) && !s.connected
    ensures (exists es :: Moves(u, s, es)) <==> !s.failed
  {
    if s.failed {
      forall es
        ensures !Moves(u, s, es)
      {
        RunSticks(u, s, es);
      }
    } else {
      EstablishedReads(u, s, [NUL]);
      assert Moves(u, s, [Readable(Established, Data([NUL]))]);
    }
  }

  predicate Reports(e: Event) {
    !e.Call? && e.conn.InProgress?
  }

  /** One event on a context that stays live and unconnected: the error is set by a report of an
      attempt in progress, and by nothing else. */
  lemma StepFails(u: User, s: Ctx, e: Event)
    requires LiveOk(s) && !s.connected
    ensures var t := Step(u, s, e);
      t.status == Live && !t.connected ==> (t.failed <==> s.failed || Reports(e))
  {
    if !e.Call? && e.conn.Established? && e.Readable? {
      ReadStaysConnected(u, s.(connected := true), e.input);
    }
  }

  lemma {:induction false} StaysConnected(u: User, s: Ctx, es: seq<Event>)
    requires Ok(s) && (s.status == Live ==> s.connected)
    ensures var t := Run(u, s, es); t.status == Live ==> t.connected
    decreases |es|
  {
    if es != [] && s.status == Live {
      StepKeeps(u, s, es[0]);
      StepStaysConnected(u, s, es[0]);
      StaysConnected(u, Step(u, s, es[0]), es[1..]);
    }
  }

  lemma ReadStaysConnected(u: User, s: Ctx, input: Input)
    requires Sound(s) && s.connected
    ensures var t := HandleRead(u, s, input); t.status == Live ==> t.connected
  {
    if !s.failed {
      var t := BufferRead(s, input);
      ReadIsSound(s, input);
      if !t.failed {
        ProcessTouches(u, t);
      }
    }
  }

  lemma StepStaysConnected(u: User, s: Ctx, e: Event)
    requires LiveOk(s) && s.connected
    ensures var t := Step(u, s, e); t.status == Live ==> t.connected
  {
    match e {
      case Call(act) => CallStaysConnected(u, Noted(s, Asked(act)), act);
      case Readable(_, input) => ReadStaysConnected(u, s, input);
      case Writable(_, output) => WriteStaysConnected(u, s, output);
    }
  }

  lemma CallStaysConnected(u: User, s: Ctx, act: Act)
    requires !s.inCallback && s.connected
    ensures var t := Outside(u, s, act); t.status == Live ==> t.connected
  {
  }

  lemma WriteStaysConnected(u: User, s: Ctx, output: Output)
    requires !s.inCallback && s.connected
    ensures var t := HandleWrite(u, s, output); t.status == Live ==> t.connected
  {
  }

  lemma {:induction false} FailedSince(u: User, s: Ctx, es: seq<Event>)
    requires LiveOk(s) && !s.connected
    ensures var t := Run(u, s, es);
      t.status == Live && !t.connected ==> (t.failed <==> s.failed || exists i :: 0 <= i < |es| && Reports(es[i]))
    decreases |es|
  {
    if es != [] {
      var t := Step(u, s, es[0]);
      StepKeeps(u, s, es[0]);
      StepFails(u, s, es[0]);
      if t.status == Live && !t.connected {
        FailedSince(u, t, es[1..]);
        assert (exists i :: 0 <= i < |es| && Reports(es[i])) <==>
               Reports(es[0]) || exists i :: 0 <= i < |es[1..]| && Reports(es[1..][i]) by {
          if i :| 0 <= i < |es| && Reports(es[i]) && i > 0 {
            assert Reports(es[1..][i - 1]);
          }
          if i :| 0 <= i < |es[1..]| && Reports(es[1..][i]) {
            assert Reports(es[i + 1]);
          }
        }
      } else {
        StaysConnected(u, t, es[1..]);
      }
    }
  }

  /** The promise to try again later is kept exactly when it never had to be made: after any run that
      leaves the context waiting for its connection, some continuation moves a byte if and only if no
      event has reported the attempt as in progress. */
  lemma TriesAgainExactly(u: User, es: seq<Event>)
    ensures Ok(INITIAL) && Ok(Run(u, INITIAL, es))
    ensures var s := Run(u, INITIAL, es);
      s.status == Live && !s.connected ==>
        ((exists more :: Moves(u, s, more)) <==> !exists i :: 0 <= i < |es| && Reports(es[i]))
  {
    InitialOk();
    RunKeepsOk(u, INITIAL, es);
    var s := Run(u, INITIAL, es);
    FailedSince(u, INITIAL, es);
    if s.status == Live && !s.connected {
      MovesExactly(u, s);
    }
  }

  /** Two runs that differ only in the report: what the first one receives, the second one never does. */
  lemma ReportReached(u: User, data: bytes)
    ensures Ok(INITIAL)
    ensures Run(u, INITIAL, [Readable(Established, Data(data))]).h.received == data
    ensures Run(u, INITIAL, [Readable(InProgress, NoInput), Readable(Established, Data(data))]).h.received == []
  {
    InitialOk();
    EstablishedReads(u, INITIAL, data);
    assert [] + data == data;
    var report, e := Readable(InProgress, NoInput), Readable(Established, Data(data));
    InProgressIsFinal(u, INITIAL, report, [e]);
    assert [report] + [e] == [report, e];
  }
}
