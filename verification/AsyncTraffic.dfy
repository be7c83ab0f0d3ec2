/** The bytes of the asynchronous connection, counted from the events alone, and how it ends: what a
    failure, a free and a disconnect leave behind. */
module AsyncTraffic {
  import opened Bytes
  import opened Resp
  import opened Socket
  import opened AsyncMachine
  import opened AsyncRuns
  import opened AsyncLedger
  import M = ReaderMachine

  // ---------------------------------------------------------------- bytes in and out

  /** An event gets through to the buffers: there is a connection by then, and no error is pending. */
  predicate Reaches(s: Ctx, conn: Connecting) {
    (s.connected || conn.Established?) && !s.failed
  }

  /** What an event reads. */
  function ReadBy(s: Ctx, e: Event): bytes {
    match e
    case Readable(conn, Data(data)) => if Reaches(s, conn) then data else []
    case _ => []
  }

  /** How many bytes an event writes: as many as the socket takes. */
  function WrittenBy(s: Ctx, e: Event): (n: nat)
    ensures n <= |s.obuf|
  {
    match e
    case Writable(conn, Wrote(n)) => if !Reaches(s, conn) then 0 else if n <= |s.obuf| then n else |s.obuf|
    case _ => 0
  }

  function WithoutReply(cb: Callback): Departed {
    Departed(cb, None)
  }

  /** The callbacks, each with NULL. */
  function Nulls(queue: seq<Callback>): (ds: seq<Departed>)
    ensures |ds| == |queue| && forall k :: 0 <= k < |ds| ==> ds[k] == WithoutReply(queue[k])
  {
    seq(|queue|, k requires 0 <= k < |queue| => WithoutReply(queue[k]))
  }

  /** The drain gives NULL to every callback that is left, in order, and does nothing else. */
  lemma {:induction false} DrainMeans(u: User, s: Ctx)
    requires Closing(s) && !s.inCallback
    ensures var t := DoFree(u, s);
      && t.h.departed == s.h.departed + Nulls(s.queue) && t.h.got == s.h.got && t.obuf == s.obuf
      && t.h.issued == s.h.issued && t.h.commands == s.h.commands
      && t.h.received == s.h.received && t.h.sent == s.h.sent
    decreases |s.queue|
  {
    if s.queue == [] {
      assert s.h.departed + Nulls([]) == s.h.departed;
    } else {
      var shifted := Shift(s, None);
      var acts := u(shifted.h, s.queue[0], None);
      ClosingStays(Enter(u, shifted, s.queue[0], None), acts);
      FreeTurn(u, s);
      DrainMeans(u, RunCallback(u, shifted, s.queue[0], None));
      assert Nulls(s.queue) == [WithoutReply(s.queue[0])] + Nulls(s.queue[1..]);
      Regroup(s.h.departed, [WithoutReply(s.queue[0])], Nulls(s.queue[1..]));
    }
  }

  /** The end of a context with an error or on request: freed, everybody told. */
  predicate Ended(s: Ctx, t: Ctx) {
    && t.status == Freed && t.queue == [] && t.h.departed == s.h.departed + Nulls(s.queue) && t.h.got == s.h.got
    && t.obuf == s.obuf && t.h.issued == s.h.issued && t.h.commands == s.h.commands
    && t.h.received == s.h.received && t.h.sent == s.h.sent
  }

  lemma DisconnectMeans(u: User, s: Ctx)
    requires !s.inCallback && (!s.failed ==> s.queue == [] && Closing(s))
    ensures Ended(s, DoDisconnect(u, s))
  {
    DrainMeans(u, if s.failed then s.(disconnecting := true) else s);
  }

  /** The first event on a connection: refused, it ends the context; otherwise no byte moves yet. */
  lemma ConnectTraffic(u: User, s: Ctx, conn: Connecting)
    requires LiveOk(s)
    ensures var c := Connect(u, s, conn);
      if !s.connected && conn.Refused? then Ended(s, c)
      else
        && c.status == Live && c.queue == s.queue && c.obuf == s.obuf && c.h == s.h && !c.inCallback
        && (c.connected <==> s.connected || conn.Established?) && (c.connected ==> (c.failed <==> s.failed))
  {
    if !s.connected && conn.Refused? {
      DisconnectMeans(u, s.(failed := true));
    }
  }

  lemma ReadTraffic(u: User, s: Ctx, conn: Connecting, input: Input)
    requires LiveOk(s)
    ensures var t := Step(u, s, Readable(conn, input));
      t.h.received == s.h.received + ReadBy(s, Readable(conn, input)) && t.h.sent == s.h.sent
  {
    assert s.h.received + [] == s.h.received;
    var c := Connect(u, s, conn);
    ConnectKeeps(u, s, conn);
    ConnectTraffic(u, s, conn);
    if c.status == Live && c.connected {
      if c.failed {
        DisconnectMeans(u, c);
      } else {
        BufferTraffic(u, c, input);
      }
    }
  }

  lemma BufferTraffic(u: User, s: Ctx, input: Input)
    requires Sound(s) && !s.failed
    ensures var t := HandleRead(u, s, input);
      && t.h.received == s.h.received + (if input.Data? then input.data else []) && t.h.sent == s.h.sent
  {
    assert s.h.received + [] == s.h.received;
    var t := BufferRead(s, input);
    ReadIsSound(s, input);
    if t.failed {
      DisconnectMeans(u, t);
    } else {
      ProcessTouches(u, t);
    }
  }

  lemma SendTraffic(u: User, s: Ctx, output: Output)
    requires !s.inCallback
    ensures var t := HandleWrite(u, s, output);
      var n := if s.failed || !output.Wrote? then 0 else if output.n <= |s.obuf| then output.n else |s.obuf|;
      && t.h.sent == s.h.sent + s.obuf[..n] && t.obuf == s.obuf[n..] && t.h.received == s.h.received
  {
    assert s.h.sent + [] == s.h.sent;
    var t := if s.failed then s else BufferWrite(s, output);
    if t.failed {
      DisconnectMeans(u, t);
    }
  }

  /** A write event takes exactly the bytes that the socket takes off the front of the output buffer. */
  lemma WriteTraffic(u: User, s: Ctx, conn: Connecting, output: Output)
    requires LiveOk(s)
    ensures var t, n := Step(u, s, Writable(conn, output)), WrittenBy(s, Writable(conn, output));
      && t.h.sent == s.h.sent + s.obuf[..n] && t.obuf == s.obuf[n..] && t.h.received == s.h.received
  {
    assert s.h.sent + [] == s.h.sent;
    var c := Connect(u, s, conn);
    ConnectTraffic(u, s, conn);
    if c.status == Live && c.connected {
      SendTraffic(u, c, output);
    }
  }

  lemma CallTraffic(u: User, s: Ctx, act: Act)
    requires LiveOk(s)
    ensures var t := Step(u, s, Call(act)); t.h.sent == s.h.sent && t.h.received == s.h.received
  {
    var t := Noted(s, Asked(act));
    if act == Disconnect && s.queue == [] {
      DisconnectMeans(u, t.(disconnecting := true));
    } else if act == Free {
      DrainMeans(u, t.(freeing := true));
    }
  }

  /** The bytes that the events of a run read. */
  ghost function AllRead(u: User, s: Ctx, es: seq<Event>): bytes
    requires Ok(s)
    decreases |es|
  {
    if es == [] || s.status != Live then []
    else
      StepKeeps(u, s, es[0]);
      ReadBy(s, es[0]) + AllRead(u, Step(u, s, es[0]), es[1..])
  }

  /** How many bytes the events of a run write. */
  ghost function AllWritten(u: User, s: Ctx, es: seq<Event>): nat
    requires Ok(s)
    decreases |es|
  {
    if es == [] || s.status != Live then 0
    else
      StepKeeps(u, s, es[0]);
      WrittenBy(s, es[0]) + AllWritten(u, Step(u, s, es[0]), es[1..])
  }

  lemma StepTraffic(u: User, s: Ctx, e: Event)
    requires LiveOk(s)
    ensures var t := Step(u, s, e);
      t.h.received == s.h.received + ReadBy(s, e) && t.h.sent == s.h.sent + s.obuf[..WrittenBy(s, e)]
  {
    assert s.h.received + [] == s.h.received && s.h.sent + [] == s.h.sent;
    match e {
      case Readable(conn, input) => ReadTraffic(u, s, conn, input);
      case Writable(conn, output) => WriteTraffic(u, s, conn, output);
      case Call(act) => CallTraffic(u, s, act);
    }
  }

  lemma {:induction false} RunTraffic(u: User, s: Ctx, es: seq<Event>)
    requires Ok(s)
    ensures var t := Run(u, s, es);
      t.h.received == s.h.received + AllRead(u, s, es) && |t.h.sent| == |s.h.sent| + AllWritten(u, s, es)
    decreases |es|
  {
    if es != [] && s.status == Live {
      var t := Step(u, s, es[0]);
      StepKeeps(u, s, es[0]);
      StepTraffic(u, s, es[0]);
      RunTraffic(u, t, es[1..]);
      Regroup(s.h.received, ReadBy(s, es[0]), AllRead(u, t, es[1..]));
    } else {
      assert s.h.received + [] == s.h.received;
    }
  }

  /** In every run no byte of output is lost, sent twice or reordered: of the texts of the commands accepted,
      as many bytes as the socket has taken have been written, and exactly the others wait. What has been read
      is what the socket has yielded. */
  lemma OutputConserved(u: User, es: seq<Event>)
    ensures Ok(INITIAL)
    ensures var s, n := Run(u, INITIAL, es), AllWritten(u, INITIAL, es);
      var text := Flat(Texts(ArgsOf(Accepted(s.h.log))));
      && n <= |text| && s.h.sent == text[..n] && s.obuf == text[n..]
      && s.h.received == AllRead(u, INITIAL, es)
  {
    CommandsAsAsked(u, es);
    RunTraffic(u, INITIAL, es);
    var s := Run(u, INITIAL, es);
    assert [] + AllRead(u, INITIAL, es) == AllRead(u, INITIAL, es);
    Cut(s.h.sent, s.obuf);
  }

  lemma Cut(a: bytes, b: bytes)
    ensures (a + b)[..|a|] == a && (a + b)[|a|..] == b
  {
  }

  // ---------------------------------------------------------------- how it ends

  /** An event on which the socket fails: the attempt to connect, a read or a write. */
  predicate Fails(s: Ctx, e: Event) {
    match e
    case Call(_) => false
    case Readable(conn, input) =>
      if !s.connected && !conn.Established? then conn.Refused?
      else s.failed || input.InputError? || input.EndOfInput?
    case Writable(conn, output) =>
      if !s.connected && !conn.Established? then conn.Refused?
      else s.failed || (output.OutputError? && s.obuf != [])
  }

  /** A failure ends the context: every callback that is pending is given NULL, in order, no reply is taken
      any more and no command is accepted. */
  lemma FailureEnds(u: User, s: Ctx, e: Event)
    requires LiveOk(s) && Fails(s, e)
    ensures Ended(s, Step(u, s, e))
  {
    match e {
      case Readable(conn, input) =>
        ConnectTraffic(u, s, conn);
        var c := Connect(u, s, conn);
        if c.status == Live {
          DisconnectMeans(u, if c.failed then c else BufferRead(c, input));
        }
      case Writable(conn, output) =>
        ConnectTraffic(u, s, conn);
        var c := Connect(u, s, conn);
        if c.status == Live {
          DisconnectMeans(u, if c.failed then c else BufferWrite(c, output));
        }
    }
  }

  /** So does a free by the user. */
  lemma FreeEnds(u: User, s: Ctx)
    requires LiveOk(s)
    ensures Ended(s, Step(u, s, Call(Free)))
  {
    DrainMeans(u, Noted(s, Asked(Free)).(freeing := true));
  }

  /** A free that a callback asks for: the callbacks still pending, those it has just issued commands for
      included, are given NULL. */
  lemma FreeInCallbackEnds(u: User, s: Ctx, r: Reply)
    requires Sound(s) && !s.failed && !s.freeing && s.queue != [] && M.GetReply(s.reader).reply == Some(r)
    requires Free in Answered(u, s, r)
    ensures var t := TakeTurn(u, s).s;
      var cs := if s.disconnecting then [] else Leading(Answered(u, s, r));
      && t.status == Freed && t.queue == []
      && t.h.departed == Seen(s, r).departed + Nulls(s.queue[1..] + CallbacksOf(cs))
      && t.h.issued == s.h.issued + CallbacksOf(cs)
  {
    var shifted, cb := Shift(TakeReply(s), Some(r)), s.queue[0];
    assert shifted == Served(s, r);
    CallbackMeans(u, shifted, cb, Some(r));
    DrainMeans(u, RunCallback(u, shifted, cb, Some(r)));
  }

  // ---------------------------------------------------------------- a disconnect that has been asked for

  lemma AcceptedStays(log: seq<Entry>, longer: seq<Entry>)
    requires ClosedBy(log) && log <= longer
    ensures Accepted(longer) == Accepted(log)
    decreases |longer|
  {
    if |longer| > |log| {
      var before := longer[..|longer| - 1];
      assert before[..|log|] == log;
      assert forall i :: 0 <= i < |log| ==> before[i] == log[i];
      AcceptedStays(log, before);
    } else {
      assert longer == log;
    }
  }

  /** Once the user has asked to disconnect, from outside or in a callback, no command is accepted any more
      in any run. */
  lemma RefusedForGood(u: User, es: seq<Event>, more: seq<Event>)
    ensures Ok(INITIAL) && Ok(Run(u, INITIAL, es))
    ensures var s := Run(u, INITIAL, es); var t := Run(u, s, more);
      Asks(s.h.log, Disconnect) || Asks(s.h.log, Free) ==>
        t.h.commands == s.h.commands && t.h.issued == s.h.issued
  {
    InitialLedger(u);
    RunKeepsOk(u, INITIAL, es);
    RunLedger(u, INITIAL, es);
    var s := Run(u, INITIAL, es);
    KeptFrom(u, s, INITIAL.h, AskedIn(s.h.log));
    RunLedger(u, s, more);
    var t := Run(u, s, more);
    if act :| act in {Disconnect, Free} && Asks(s.h.log, act) {
      var i :| 0 <= i < |s.h.log| && act in ActsOf(s.h.log[i]);
      assert Closes(s.h.log[i]);
      AcceptedStays(s.h.log, t.h.log);
    }
  }

  /** And the disconnect goes through: a context that lives after a read event and has been asked to
      disconnect, then or earlier, still has something pending or something to send. When it has neither it
      has been freed, unless the server has sent what nobody asked for, or what loses the program. */
  lemma AskedDisconnectGoesThrough(u: User, es: seq<Event>, conn: Connecting, input: Input)
    ensures Ok(INITIAL) && Ok(Run(u, INITIAL, es))
    ensures var s := Run(u, INITIAL, es); var t := Run(u, s, [Readable(conn, input)]);
      s.status == Live && s.connected ==>
        Asks(t.h.log, Disconnect) && t.queue == [] && t.obuf == [] ==>
          && t.status != Live
          && (|Spelled(t)| <= |t.h.issued| && !Outcome(t).Lost? ==> t.status == Freed)
  {
    InitialLedger(u);
    RunKeepsOk(u, INITIAL, es);
    RunLedger(u, INITIAL, es);
    var s := Run(u, INITIAL, es);
    if s.status == Live && s.connected {
      var e := Readable(conn, input);
      OneStep(u, s, e);
      StepKeeps(u, s, e);
      StepLedger(u, s, e, AskedIn(s.h.log));
      ReadDisconnects(u, s, conn, input);
      StatusMeans(Step(u, s, e));
    }
  }
}
