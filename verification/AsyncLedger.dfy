/** What the user of the asynchronous connection asks for and is given, told apart from the functions
    that do it: single calls, callbacks, and whole runs. */
module AsyncLedger {
  import opened Bytes
  import opened Resp
  import opened Socket
  import opened AsyncMachine
  import opened AsyncRuns
  import C = Command
  import S = CommandSort
  import M = ReaderMachine

  // ---------------------------------------------------------------- what calls come to

  /** The commands before the first call that closes the connection. */
  function Leading(acts: seq<Act>): (cs: seq<Act>)
    ensures forall k :: 0 <= k < |cs| ==> cs[k].Command?
  {
    if acts == [] || !acts[0].Command? then [] else [acts[0]] + Leading(acts[1..])
  }

  function CallbacksOf(cs: seq<Act>): (r: seq<Callback>)
    requires forall k :: 0 <= k < |cs| ==> cs[k].Command?
    ensures |r| == |cs| && forall k :: 0 <= k < |cs| ==> r[k] == cs[k].cb
  {
    seq(|cs|, k requires 0 <= k < |cs| => cs[k].cb)
  }

  function ArgsOf(cs: seq<Act>): (r: seq<S.PlainCommand>)
    requires forall k :: 0 <= k < |cs| ==> cs[k].Command?
    ensures |r| == |cs| && forall k :: 0 <= k < |cs| ==> r[k] == cs[k].args
  {
    seq(|cs|, k requires 0 <= k < |cs| => cs[k].args)
  }

  /** t is s with the commands cs accepted: their callbacks queued, their texts behind the output. */
  ghost predicate Takes(s: Ctx, t: Ctx, cs: seq<Act>)
    requires forall k :: 0 <= k < |cs| ==> cs[k].Command?
  {
    && t.queue == s.queue + CallbacksOf(cs) && t.h.issued == s.h.issued + CallbacksOf(cs)
    && t.obuf == s.obuf + Flat(Texts(ArgsOf(cs))) && t.h.commands == s.h.commands + ArgsOf(cs)
  }

  lemma TakesNone(s: Ctx)
    ensures Takes(s, s, [])
  {
  }

  lemma ListsConcat(a: seq<Act>, b: seq<Act>)
    requires forall k :: 0 <= k < |a| ==> a[k].Command?
    requires forall k :: 0 <= k < |b| ==> b[k].Command?
    ensures CallbacksOf(a + b) == CallbacksOf(a) + CallbacksOf(b)
    ensures ArgsOf(a + b) == ArgsOf(a) + ArgsOf(b)
  {
  }

  lemma TextsConcat(a: seq<S.PlainCommand>, b: seq<S.PlainCommand>)
    ensures Flat(Texts(a + b)) == Flat(Texts(a)) + Flat(Texts(b))
  {
    assert Texts(a + b) == Texts(a) + Texts(b);
    FlatConcat(Texts(a), Texts(b));
  }

  lemma TakesMore(s: Ctx, t: Ctx, r: Ctx, a: seq<Act>, b: seq<Act>)
    requires forall k :: 0 <= k < |a| ==> a[k].Command?
    requires forall k :: 0 <= k < |b| ==> b[k].Command?
    requires Takes(s, t, a) && Takes(t, r, b)
    ensures Takes(s, r, a + b)
  {
    ListsConcat(a, b);
    TextsConcat(ArgsOf(a), ArgsOf(b));
    Regroup(s.queue, CallbacksOf(a), CallbacksOf(b));
    Regroup(s.h.issued, CallbacksOf(a), CallbacksOf(b));
    Regroup(s.obuf, Flat(Texts(ArgsOf(a))), Flat(Texts(ArgsOf(b))));
    Regroup(s.h.commands, ArgsOf(a), ArgsOf(b));
  }

  lemma AcceptTakes(s: Ctx, a: Act)
    requires a.Command? && !Closing(s)
    ensures Takes(s, Inside(s, a), [a])
  {
    assert Texts([a.args]) == [C.CommandText(a.args)];
    FlatOne(C.CommandText(a.args));
    assert ArgsOf([a]) == [a.args] && CallbacksOf([a]) == [a.cb];
  }

  lemma {:induction false} PerformMarks(s: Ctx, acts: seq<Act>)
    ensures var r := Perform(s, acts);
      && (r.disconnecting <==> s.disconnecting || Disconnect in acts)
      && (r.freeing <==> s.freeing || Free in acts)
    decreases |acts|
  {
    if acts != [] {
      PerformMarks(Inside(s, acts[0]), acts[1..]);
      assert acts == [acts[0]] + acts[1..];
    }
  }

  lemma TakesNothing(s: Ctx, acts: seq<Act>)
    requires acts != [] && (Closing(s) || !acts[0].Command?)
    ensures Takes(s, Perform(s, acts), [])
  {
    ClosingStays(Inside(s, acts[0]), acts[1..]);
    TakesNone(s);
  }

  lemma {:induction false} PerformTakes(s: Ctx, acts: seq<Act>)
    ensures Takes(s, Perform(s, acts), if Closing(s) then [] else Leading(acts))
    decreases |acts|
  {
    if acts == [] {
      TakesNone(s);
    } else if Closing(s) || !acts[0].Command? {
      TakesNothing(s, acts);
    } else {
      var t := Inside(s, acts[0]);
      PerformTakes(t, acts[1..]);
      AcceptTakes(s, acts[0]);
      TakesMore(s, t, Perform(t, acts[1..]), [acts[0]], Leading(acts[1..]));
    }
  }

  /** What calls from inside a callback come to: the commands up to the first call that closes are accepted,
      in order, unless the connection is closing already; and each closing call leaves its mark. */
  lemma PerformMeans(s: Ctx, acts: seq<Act>)
    ensures var r := Perform(s, acts);
      && Takes(s, r, if Closing(s) then [] else Leading(acts))
      && (r.disconnecting <==> s.disconnecting || Disconnect in acts)
      && (r.freeing <==> s.freeing || Free in acts)
  {
    PerformTakes(s, acts);
    PerformMarks(s, acts);
  }

  // ---------------------------------------------------------------- one call, one reply

  /** t is s after the callback cb has been given reply: NULL is not called; the user's function is called with
      exactly this and with what has happened so far, which is noted, and its calls come to what they mean. */
  ghost predicate Given(u: User, s: Ctx, cb: Callback, reply: Option<Reply>, t: Ctx) {
    if cb.fn == 0 then t == s
    else
      var acts := u(s.h, cb, reply);
      && t.h.log == s.h.log + [Called(s.h, cb, reply, acts)]
      && Takes(s, t, if Closing(s) then [] else Leading(acts))
      && (t.disconnecting <==> s.disconnecting || Disconnect in acts) && (t.freeing <==> s.freeing || Free in acts)
      && t.h.departed == s.h.departed && t.h.got == s.h.got && t.reader == s.reader
      && t.failed == s.failed && t.connected == s.connected && t.status == s.status && !t.inCallback
  }

  lemma CallbackMeans(u: User, s: Ctx, cb: Callback, reply: Option<Reply>)
    requires !s.inCallback
    ensures Given(u, s, cb, reply, RunCallback(u, s, cb, reply))
  {
    if cb.fn != 0 {
      PerformMeans(Enter(u, s, cb, reply), u(s.h, cb, reply));
      PerformKeeps(Enter(u, s, cb, reply), u(s.h, cb, reply));
    }
  }

  /** A command issued outside any callback: refused on a closing connection, and otherwise its callback
      joins the queue and its text the output. */
  lemma CommandIssued(u: User, s: Ctx, cb: Callback, args: S.PlainCommand)
    requires LiveOk(s)
    ensures var t := Step(u, s, Call(Command(cb, args)));
      if Closing(s) then Unmoved(s, t)
      else
        && t.queue == s.queue + [cb] && t.obuf == s.obuf + C.CommandText(args)
        && t.h.issued == s.h.issued + [cb] && t.h.commands == s.h.commands + [args]
  {
  }

  /** The history a callback sees that is given the reply r. */
  function Seen(s: Ctx, r: Reply): History
    requires s.queue != []
  {
    s.h.(got := s.h.got + [r], departed := s.h.departed + [Departed(s.queue[0], Some(r))])
  }

  /** The calls made by the callback at the head of the queue when it is given the reply r; none by NULL. */
  function Answered(u: User, s: Ctx, r: Reply): seq<Act>
    requires s.queue != []
  {
    if s.queue[0].fn == 0 then [] else u(Seen(s, r), s.queue[0], Some(r))
  }

  /** s, with the reply r taken and the callback it is for, too. */
  function Served(s: Ctx, r: Reply): Ctx
    requires s.queue != [] && M.Wf(s.reader)
  {
    s.(queue := s.queue[1..], h := Seen(s, r), reader := M.GetReply(s.reader).reader)
  }

  /** What becomes of a reply that a callback waits for: the callback leaves the head of the queue and is
      given this reply; the commands it then issues are accepted, a disconnect it asks for is marked, and
      a free it asks for goes through. */
  lemma ReplyGiven(u: User, s: Ctx, r: Reply)
    requires Sound(s) && !s.failed && !s.freeing && s.queue != [] && M.GetReply(s.reader).reply == Some(r)
    ensures var t, acts := TakeTurn(u, s), Answered(u, s, r);
      if Free in acts then !t.more && t.s.status == Freed
      else
        && t.more && t.s.status == Live && !t.s.freeing
        && (t.s.disconnecting <==> s.disconnecting || Disconnect in acts)
        && Takes(Served(s, r), t.s, if s.disconnecting then [] else Leading(acts))
  {
    var shifted := Shift(TakeReply(s), Some(r));
    assert shifted == Served(s, r);
    TakesNone(shifted);
    CallbackMeans(u, shifted, s.queue[0], Some(r));
  }

  // ---------------------------------------------------------------- reading the log

  /** The calls an entry of the log stands for. */
  function ActsOf(e: Entry): seq<Act> {
    match e
    case Asked(act) => [act]
    case Called(_, _, _, acts) => acts
  }

  /** A call that closes the connection; a callback that is given NULL finds it closing. */
  predicate Closes(e: Entry) {
    Disconnect in ActsOf(e) || Free in ActsOf(e) || (e.Called? && e.reply.None?)
  }

  ghost predicate ClosedBy(log: seq<Entry>) {
    exists i :: 0 <= i < |log| && Closes(log[i])
  }

  ghost predicate Asks(log: seq<Entry>, act: Act) {
    exists i :: 0 <= i < |log| && act in ActsOf(log[i])
  }

  /** The commands of the log that the connection has to accept: those before the first call that closes it. */
  ghost function Accepted(log: seq<Entry>): (cs: seq<Act>)
    ensures forall k :: 0 <= k < |cs| ==> cs[k].Command?
  {
    if log == [] then []
    else
      var before, last := log[..|log| - 1], log[|log| - 1];
      Accepted(before) +
      if ClosedBy(before) || (last.Called? && last.reply.None?) then [] else Leading(ActsOf(last))
  }

  /** The callbacks that have been called, with what they were given. */
  function Calls(log: seq<Entry>): seq<Departed> {
    if log == [] then []
    else
      var last := log[|log| - 1];
      Calls(log[..|log| - 1]) + if last.Called? then [Departed(last.cb, last.reply)] else []
  }

  /** The callbacks that are not NULL. */
  function Heard(departed: seq<Departed>): seq<Departed> {
    if departed == [] then []
    else
      var last := departed[|departed| - 1];
      Heard(departed[..|departed| - 1]) + if last.cb.fn != 0 then [last] else []
  }

  /** The calls made from outside any callback. */
  function AskedIn(log: seq<Entry>): seq<Act> {
    if log == [] then []
    else
      var last := log[|log| - 1];
      AskedIn(log[..|log| - 1]) + if last.Asked? then [last.act] else []
  }

  lemma LogSnoc(log: seq<Entry>, e: Entry)
    ensures ClosedBy(log + [e]) <==> ClosedBy(log) || Closes(e)
    ensures Accepted(log + [e]) ==
            Accepted(log) + if ClosedBy(log) || (e.Called? && e.reply.None?) then [] else Leading(ActsOf(e))
    ensures Calls(log + [e]) == Calls(log) + if e.Called? then [Departed(e.cb, e.reply)] else []
    ensures AskedIn(log + [e]) == AskedIn(log) + if e.Asked? then [e.act] else []
  {
    var all := log + [e];
    assert all[..|all| - 1] == log && all[|log|] == e;
    if i :| 0 <= i < |log| && Closes(log[i]) {
      assert Closes(all[i]);
    }
  }

  lemma AsksSnoc(log: seq<Entry>, e: Entry, act: Act)
    ensures Asks(log + [e], act) <==> Asks(log, act) || act in ActsOf(e)
  {
    var all := log + [e];
    assert all[|log|] == e;
    if i :| 0 <= i < |log| && act in ActsOf(log[i]) {
      assert act in ActsOf(all[i]);
    }
  }

  lemma HeardSnoc(departed: seq<Departed>, d: Departed)
    ensures Heard(departed + [d]) == Heard(departed) + if d.cb.fn != 0 then [d] else []
  {
    assert (departed + [d])[..|departed|] == departed;
  }

  // ---------------------------------------------------------------- the ledger

  /** h happened on the way to t. */
  predicate Within(h: History, t: History) {
    && h.issued <= t.issued && h.departed <= t.departed && h.got <= t.got && h.commands <= t.commands
    && h.received <= t.received && h.sent <= t.sent && h.log <= t.log
  }

  /** If entry i is that of a callback, then it is one that is not NULL; the user's function has been called
      with it, with what it has just left the queue with and with all that had happened by then; and the
      calls noted are those that the function makes. */
  ghost predicate Meant(u: User, h: History, i: nat)
    requires i < |h.log|
  {
    match h.log[i]
    case Asked(_) => true
    case Called(before, cb, reply, acts) =>
      && cb.fn != 0 && acts == u(before, cb, reply)
      && before.log == h.log[..i] && Within(before, h)
      && before.departed != [] && before.departed[|before.departed| - 1] == Departed(cb, reply)
  }

  /** The log is true of the user; exactly the callbacks that have left and are not NULL have been called,
      each with what it left with; what counts as issued are the commands of the log that have to be
      accepted; and the calls from outside are these. */
  ghost predicate Ledger(u: User, h: History, asked: seq<Act>) {
    && (forall i :: 0 <= i < |h.log| ==> Meant(u, h, i))
    && Calls(h.log) == Heard(h.departed)
    && h.issued == CallbacksOf(Accepted(h.log)) && h.commands == ArgsOf(Accepted(h.log))
    && AskedIn(h.log) == asked
  }

  /** As long as the context lives: its flags are what the user has asked for. */
  ghost predicate Marked(s: Ctx) {
    && (s.disconnecting <==> Asks(s.h.log, Disconnect)) && (s.disconnecting <==> ClosedBy(s.h.log))
    && !s.freeing && !Asks(s.h.log, Free)
  }

  lemma MeantLater(u: User, h: History, t: History, i: nat)
    requires i < |h.log| && Meant(u, h, i) && Within(h, t)
    ensures Meant(u, t, i)
  {
    assert t.log[..|h.log|] == h.log;
    assert t.log[..i] == h.log[..i];
  }

  lemma MeantSnoc(u: User, h: History, e: Entry, t: History)
    requires forall i :: 0 <= i < |h.log| ==> Meant(u, h, i)
    requires Within(h, t) && t.log == h.log + [e] && Meant(u, t, |h.log|)
    ensures forall i :: 0 <= i < |t.log| ==> Meant(u, t, i)
  {
    forall i | 0 <= i < |t.log|
      ensures Meant(u, t, i)
    {
      if i < |h.log| {
        MeantLater(u, h, t, i);
      }
    }
  }

  /** Bytes and replies that come and go are no part of it. */
  lemma LedgerGrows(u: User, h: History, t: History, asked: seq<Act>)
    requires Ledger(u, h, asked) && Within(h, t)
    requires t.log == h.log && t.departed == h.departed && t.issued == h.issued && t.commands == h.commands
    ensures Ledger(u, t, asked)
  {
    forall i | 0 <= i < |t.log|
      ensures Meant(u, t, i)
    {
      MeantLater(u, h, t, i);
    }
  }

  lemma WithinTrans(a: History, b: History, c: History)
    requires Within(a, b) && Within(b, c)
    ensures Within(a, c)
  {
  }

  /** What a callback that is not NULL adds to the history when it leaves with this reply. */
  lemma EntryKeeps(u: User, h: History, cb: Callback, reply: Option<Reply>, before: History, e: Entry,
                   cs: seq<Act>, t: History, asked: seq<Act>)
    requires Ledger(u, h, asked) && cb.fn != 0 && forall k :: 0 <= k < |cs| ==> cs[k].Command?
    requires before == h.(departed := h.departed + [Departed(cb, reply)])
    requires e == Called(before, cb, reply, u(before, cb, reply))
    requires cs == if ClosedBy(h.log) || reply.None? then [] else Leading(ActsOf(e))
    requires t == before.(log := h.log + [e], issued := h.issued + CallbacksOf(cs), commands := h.commands + ArgsOf(cs))
    ensures Ledger(u, t, asked) && Within(h, t)
  {
    LogSnoc(h.log, e);
    HeardSnoc(h.departed, Departed(cb, reply));
    ListsConcat(Accepted(h.log), cs);
    assert t.log[..|h.log|] == h.log;
    MeantSnoc(u, h, e, t);
  }

  /** A NULL callback only leaves. */
  lemma SilentKeeps(u: User, h: History, d: Departed, t: History, asked: seq<Act>)
    requires Ledger(u, h, asked) && d.cb.fn == 0 && t == h.(departed := h.departed + [d])
    ensures Ledger(u, t, asked) && Within(h, t)
  {
    HeardSnoc(h.departed, d);
    forall i | 0 <= i < |t.log|
      ensures Meant(u, t, i)
    {
      MeantLater(u, h, t, i);
    }
  }

  /** The callback at the head of the queue leaves with reply and is called. */
  lemma GivenKeeps(u: User, s: Ctx, reply: Option<Reply>, asked: seq<Act>)
    requires Ledger(u, s.h, asked) && s.queue != [] && !s.inCallback
    requires if reply.None? then Closing(s) else (Closing(s) <==> ClosedBy(s.h.log))
    ensures var r := RunCallback(u, Shift(s, reply), s.queue[0], reply);
      Ledger(u, r.h, asked) && Within(s.h, r.h)
  {
    var cb, shifted := s.queue[0], Shift(s, reply);
    var r := RunCallback(u, shifted, cb, reply);
    if cb.fn == 0 {
      SilentKeeps(u, s.h, Departed(cb, reply), r.h, asked);
    } else {
      var acts := u(shifted.h, cb, reply);
      CallbackMeans(u, shifted, cb, reply);
      PerformKeeps(Enter(u, shifted, cb, reply), acts);
      EntryKeeps(u, s.h, cb, reply, shifted.h, Called(shifted.h, cb, reply, acts),
                 if Closing(s) then [] else Leading(acts), r.h, asked);
    }
  }

  /** As long as nothing closes, the flags stay what has been asked for. */
  lemma GivenMarks(u: User, s: Ctx, reply: Reply)
    requires Marked(s) && s.queue != [] && !s.inCallback
    ensures var r := RunCallback(u, Shift(s, Some(reply)), s.queue[0], Some(reply));
      !r.freeing ==> Marked(r)
  {
    var cb, shifted := s.queue[0], Shift(s, Some(reply));
    if cb.fn != 0 {
      var acts := u(shifted.h, cb, Some(reply));
      CallbackMeans(u, shifted, cb, Some(reply));
      var e := Called(shifted.h, cb, Some(reply), acts);
      LogSnoc(s.h.log, e);
      AsksSnoc(s.h.log, e, Disconnect);
      AsksSnoc(s.h.log, e, Free);
    }
  }

  lemma {:induction false} DrainKeeps(u: User, s: Ctx, asked: seq<Act>)
    requires Closing(s) && !s.inCallback && Ledger(u, s.h, asked)
    ensures Ledger(u, DoFree(u, s).h, asked) && Within(s.h, DoFree(u, s).h)
    decreases |s.queue|
  {
    if s.queue != [] {
      var t := RunCallback(u, Shift(s, None), s.queue[0], None);
      FreeTurn(u, s);
      GivenKeeps(u, s, None, asked);
      DrainKeeps(u, t, asked);
      WithinTrans(s.h, t.h, DoFree(u, t).h);
    }
  }

  lemma DisconnectLedger(u: User, s: Ctx, asked: seq<Act>)
    requires !s.inCallback && (!s.failed ==> s.queue == [] && Closing(s)) && Ledger(u, s.h, asked)
    ensures Ledger(u, DoDisconnect(u, s).h, asked) && Within(s.h, DoDisconnect(u, s).h)
  {
    DrainKeeps(u, if s.failed then s.(disconnecting := true) else s, asked);
  }

  // ---------------------------------------------------------------- every event keeps it

  /** After any event. */
  ghost predicate Kept(u: User, s: Ctx, from: History, asked: seq<Act>) {
    && Ledger(u, s.h, asked) && Within(from, s.h)
    && (s.status == Live ==> Marked(s))
  }

  lemma KeptLater(u: User, s: Ctx, a: History, b: History, asked: seq<Act>)
    requires Kept(u, s, b, asked) && Within(a, b)
    ensures Kept(u, s, a, asked)
  {
    WithinTrans(a, b, s.h);
  }

  lemma AnswerLedger(u: User, t: Ctx, reply: Reply, asked: seq<Act>)
    requires !t.inCallback && t.queue != [] && t.status == Live && Ledger(u, t.h, asked) && Marked(t)
    ensures Kept(u, Answer(u, t, Some(reply)).s, t.h, asked)
  {
    var cb := t.queue[0];
    var r := RunCallback(u, Shift(t, Some(reply)), cb, Some(reply));
    GivenKeeps(u, t, Some(reply), asked);
    GivenMarks(u, t, reply);
    PerformKeeps(Enter(u, Shift(t, Some(reply)), cb, Some(reply)), u(Shift(t, Some(reply)).h, cb, Some(reply)));
    if cb.fn != 0 && r.freeing {
      DrainKeeps(u, r, asked);
      WithinTrans(t.h, r.h, DoFree(u, r).h);
    }
  }

  lemma TakeLedger(u: User, s: Ctx, asked: seq<Act>)
    requires M.Wf(s.reader) && Ledger(u, s.h, asked)
    ensures Ledger(u, TakeReply(s).h, asked) && Within(s.h, TakeReply(s).h)
  {
    LedgerGrows(u, s.h, TakeReply(s).h, asked);
  }

  lemma DisconnectKept(u: User, s: Ctx, from: History, asked: seq<Act>)
    requires !s.inCallback && (!s.failed ==> s.queue == [] && Closing(s))
    requires Ledger(u, s.h, asked) && Within(from, s.h)
    ensures Kept(u, DoDisconnect(u, s), from, asked)
  {
    DisconnectLedger(u, s, asked);
    WithinTrans(from, s.h, DoDisconnect(u, s).h);
  }

  lemma TurnLedger(u: User, s: Ctx, asked: seq<Act>)
    requires Sound(s) && !s.failed && Ledger(u, s.h, asked) && Marked(s)
    ensures Kept(u, TakeTurn(u, s).s, s.h, asked)
  {
    var e := M.GetReply(s.reader);
    var t := TakeReply(s);
    TakeLedger(u, s, asked);
    match e.reply {
      case None =>
        if e.reader.Failed? || (t.disconnecting && t.queue == []) {
          DisconnectKept(u, t, s.h, asked);
        }
      case Some(reply) =>
        if t.queue == [] {
          DisconnectKept(u, t.(failed := true), s.h, asked);
        } else {
          AnswerLedger(u, t, reply, asked);
          KeptLater(u, Answer(u, t, Some(reply)).s, s.h, t.h, asked);
        }
    }
  }

  lemma {:induction false} ProcessLedger(u: User, s: Ctx, asked: seq<Act>)
    requires Sound(s) && !s.failed && Ledger(u, s.h, asked) && Marked(s)
    ensures Kept(u, ProcessCallbacks(u, s), s.h, asked)
    decreases |s.reader.unread|
  {
    var r := TakeTurn(u, s);
    TurnKeeps(u, s);
    TurnLedger(u, s, asked);
    if r.more {
      ProcessLedger(u, r.s, asked);
      KeptLater(u, ProcessCallbacks(u, r.s), s.h, r.s.h, asked);
    }
  }

  lemma ReadWithin(s: Ctx, input: Input)
    requires s.reader.Reading?
    ensures var t := BufferRead(s, input);
      && Within(s.h, t.h) && t.h == s.h.(received := t.h.received)
      && t.queue == s.queue && t.disconnecting == s.disconnecting && t.freeing == s.freeing
  {
  }

  lemma HandleReadLedger(u: User, s: Ctx, input: Input, asked: seq<Act>)
    requires Sound(s) && Ledger(u, s.h, asked) && Marked(s)
    ensures Kept(u, HandleRead(u, s, input), s.h, asked)
  {
    if s.failed {
      DisconnectLedger(u, s, asked);
    } else {
      var t := BufferRead(s, input);
      ReadIsSound(s, input);
      ReadWithin(s, input);
      LedgerGrows(u, s.h, t.h, asked);
      if t.failed {
        DisconnectKept(u, t, s.h, asked);
      } else {
        ProcessLedger(u, t, asked);
        KeptLater(u, ProcessCallbacks(u, t), s.h, t.h, asked);
      }
    }
  }

  lemma WriteWithin(s: Ctx, output: Output)
    ensures var t := BufferWrite(s, output); Within(s.h, t.h) && t.h == s.h.(sent := t.h.sent)
  {
  }

  lemma HandleWriteLedger(u: User, s: Ctx, output: Output, asked: seq<Act>)
    requires Sound(s) && Ledger(u, s.h, asked) && Marked(s)
    ensures Kept(u, HandleWrite(u, s, output), s.h, asked)
  {
    var t := if s.failed then s else BufferWrite(s, output);
    WriteWithin(s, output);
    LedgerGrows(u, s.h, t.h, asked);
    if t.failed {
      DisconnectKept(u, t, s.h, asked);
    }
  }

  lemma ConnectLedger(u: User, s: Ctx, conn: Connecting, asked: seq<Act>)
    requires LiveOk(s) && Ledger(u, s.h, asked) && Marked(s)
    ensures Kept(u, Connect(u, s, conn), s.h, asked)
  {
    if !s.connected && conn.Refused? {
      DisconnectLedger(u, s.(failed := true), asked);
    }
  }

  /** A call from outside. */
  lemma AskedKeeps(u: User, h: History, act: Act, t: History, asked: seq<Act>)
    requires Ledger(u, h, asked)
    requires var cs := if act.Command? && !ClosedBy(h.log) then [act] else [];
      t == h.(log := h.log + [Asked(act)], issued := h.issued + CallbacksOf(cs), commands := h.commands + ArgsOf(cs))
    ensures Ledger(u, t, asked + [act]) && Within(h, t)
  {
    var cs := if act.Command? && !ClosedBy(h.log) then [act] else [];
    LogSnoc(h.log, Asked(act));
    ListsConcat(Accepted(h.log), cs);
    assert [act][1..] == [];
    MeantSnoc(u, h, Asked(act), t);
  }

  lemma ClosingAsked(u: User, h: History, act: Act, t: History, asked: seq<Act>)
    requires Ledger(u, h, asked) && !act.Command? && t == h.(log := h.log + [Asked(act)])
    ensures Ledger(u, t, asked + [act]) && Within(h, t)
  {
    assert h.issued + CallbacksOf([]) == h.issued && h.commands + ArgsOf([]) == h.commands;
    AskedKeeps(u, h, act, t, asked);
  }

  lemma CommandMarks(s: Ctx, act: Act, t: Ctx)
    requires Marked(s) && act.Command? && t.h.log == s.h.log + [Asked(act)]
    requires t.disconnecting == s.disconnecting && t.freeing == s.freeing
    ensures Marked(t)
  {
    LogSnoc(s.h.log, Asked(act));
    AsksSnoc(s.h.log, Asked(act), Disconnect);
    AsksSnoc(s.h.log, Asked(act), Free);
  }

  lemma CommandLedger(u: User, s: Ctx, act: Act, asked: seq<Act>)
    requires LiveOk(s) && Ledger(u, s.h, asked) && Marked(s) && act.Command?
    ensures Kept(u, Inside(Noted(s, Asked(act)), act), s.h, asked + [act])
  {
    var t := Inside(Noted(s, Asked(act)), act);
    CommandMarks(s, act, t);
    CommandHistory(s, act);
    AskedKeeps(u, s.h, act, t.h, asked);
  }

  lemma CommandHistory(s: Ctx, act: Act)
    requires act.Command? && Marked(s)
    ensures var cs := if !ClosedBy(s.h.log) then [act] else [];
      Inside(Noted(s, Asked(act)), act).h ==
      s.h.(log := s.h.log + [Asked(act)], issued := s.h.issued + CallbacksOf(cs), commands := s.h.commands + ArgsOf(cs))
  {
    assert CallbacksOf([act]) == [act.cb] && ArgsOf([act]) == [act.args];
  }

  lemma DisconnectCallLedger(u: User, s: Ctx, asked: seq<Act>)
    requires LiveOk(s) && Ledger(u, s.h, asked) && Marked(s)
    ensures Kept(u, Outside(u, Noted(s, Asked(Disconnect)), Disconnect), s.h, asked + [Disconnect])
  {
    var t := Noted(s, Asked(Disconnect)).(disconnecting := true);
    ClosingAsked(u, s.h, Disconnect, t.h, asked);
    if s.queue == [] {
      DisconnectKept(u, t, s.h, asked + [Disconnect]);
    } else {
      LogSnoc(s.h.log, Asked(Disconnect));
      AsksSnoc(s.h.log, Asked(Disconnect), Disconnect);
      AsksSnoc(s.h.log, Asked(Disconnect), Free);
    }
  }

  lemma FreeCallLedger(u: User, s: Ctx, asked: seq<Act>)
    requires LiveOk(s) && Ledger(u, s.h, asked)
    ensures Kept(u, Outside(u, Noted(s, Asked(Free)), Free), s.h, asked + [Free])
  {
    var t := Noted(s, Asked(Free)).(freeing := true);
    ClosingAsked(u, s.h, Free, t.h, asked);
    DrainKeeps(u, t, asked + [Free]);
    WithinTrans(s.h, t.h, DoFree(u, t).h);
  }

  lemma CallLedger(u: User, s: Ctx, act: Act, asked: seq<Act>)
    requires LiveOk(s) && Ledger(u, s.h, asked) && Marked(s)
    ensures Kept(u, Outside(u, Noted(s, Asked(act)), act), s.h, asked + [act])
  {
    match act {
      case Command(_, _) => CommandLedger(u, s, act, asked);
      case Disconnect => DisconnectCallLedger(u, s, asked);
      case Free => FreeCallLedger(u, s, asked);
    }
  }

  lemma ReadableLedger(u: User, s: Ctx, conn: Connecting, input: Input, asked: seq<Act>)
    requires LiveOk(s) && Ledger(u, s.h, asked) && Marked(s)
    ensures Kept(u, OnReadable(u, s, conn, input), s.h, asked)
  {
    ConnectKeeps(u, s, conn);
    ConnectLedger(u, s, conn, asked);
    var t := Connect(u, s, conn);
    if t.status == Live && t.connected {
      HandleReadLedger(u, t, input, asked);
      KeptLater(u, HandleRead(u, t, input), s.h, t.h, asked);
    }
  }

  lemma WritableLedger(u: User, s: Ctx, conn: Connecting, output: Output, asked: seq<Act>)
    requires LiveOk(s) && Ledger(u, s.h, asked) && Marked(s)
    ensures Kept(u, OnWritable(u, s, conn, output), s.h, asked)
  {
    ConnectKeeps(u, s, conn);
    ConnectLedger(u, s, conn, asked);
    var t := Connect(u, s, conn);
    if t.status == Live && t.connected {
      HandleWriteLedger(u, t, output, asked);
      KeptLater(u, HandleWrite(u, t, output), s.h, t.h, asked);
    }
  }

  lemma StepLedger(u: User, s: Ctx, e: Event, asked: seq<Act>)
    requires LiveOk(s) && Ledger(u, s.h, asked) && Marked(s)
    ensures Kept(u, Step(u, s, e), s.h, asked + CallIn(e))
  {
    assert asked + [] == asked;
    match e {
      case Call(act) => CallLedger(u, s, act, asked);
      case Readable(conn, input) => ReadableLedger(u, s, conn, input, asked);
      case Writable(conn, output) => WritableLedger(u, s, conn, output, asked);
    }
  }

  // ---------------------------------------------------------------- runs

  /** b is a with calls behind it, or with a part of them if not `all`. */
  predicate Between(a: seq<Act>, b: seq<Act>, calls: seq<Act>, all: bool) {
    a <= b <= a + calls && (all ==> b == a + calls)
  }

  lemma BetweenMore(a: seq<Act>, acts: seq<Act>, b: seq<Act>, calls: seq<Act>, all: bool)
    requires Between(a + acts, b, calls, all)
    ensures Between(a, b, acts + calls, all)
  {
    Regroup(a, acts, calls);
  }

  function CallIn(e: Event): seq<Act> {
    if e.Call? then [e.act] else []
  }

  /** The calls among the events. */
  function CallsIn(es: seq<Event>): seq<Act> {
    if es == [] then [] else CallIn(es[0]) + CallsIn(es[1..])
  }

  lemma KeptFrom(u: User, s: Ctx, from: History, asked: seq<Act>)
    requires Kept(u, s, from, asked)
    ensures asked == AskedIn(s.h.log) && Kept(u, s, s.h, asked)
  {
  }

  lemma KeptThrough(u: User, a: History, b: History, r: Ctx, asked: seq<Act>, acts: seq<Act>, calls: seq<Act>)
    requires Within(a, b) && Kept(u, r, b, AskedIn(r.h.log)) && AskedIn(b.log) == asked + acts
    requires Between(AskedIn(b.log), AskedIn(r.h.log), calls, r.status == Live)
    ensures Kept(u, r, a, AskedIn(r.h.log))
    ensures Between(asked, AskedIn(r.h.log), acts + calls, r.status == Live)
  {
    BetweenMore(asked, acts, AskedIn(r.h.log), calls, r.status == Live);
    KeptLater(u, r, a, b, AskedIn(r.h.log));
  }

  lemma {:induction false} RunLedger(u: User, s: Ctx, es: seq<Event>)
    requires Ok(s) && Kept(u, s, s.h, AskedIn(s.h.log))
    ensures var t := Run(u, s, es);
      && Kept(u, t, s.h, AskedIn(t.h.log))
      && Between(AskedIn(s.h.log), AskedIn(t.h.log), CallsIn(es), t.status == Live)
    decreases |es|
  {
    var asked := AskedIn(s.h.log);
    if es != [] && s.status == Live {
      var t := Step(u, s, es[0]);
      StepKeeps(u, s, es[0]);
      StepLedger(u, s, es[0], asked);
      KeptFrom(u, t, s.h, asked + CallIn(es[0]));
      RunLedger(u, t, es[1..]);
      KeptThrough(u, s.h, t.h, Run(u, t, es[1..]), asked, CallIn(es[0]), CallsIn(es[1..]));
    } else {
      assert asked + [] == asked;
    }
  }

  lemma InitialLedger(u: User)
    ensures Ok(INITIAL) && Kept(u, INITIAL, INITIAL.h, [])
  {
    InitialOk();
  }

  /** In every run, whatever the callbacks do and however the server's bytes arrive: the callbacks that have
      left the queue are the first ones issued, in order, each once, and the k-th of them with the k-th reply
      that the bytes received spell out, or with NULL. Exactly those that are not NULL have been called, each
      once, in that order and with what it left with, and what they have then done is what the user does when
      given that. As long as the context lives, every reply received has gone to its callback, and no other
      callback has left. When it is gone, no callback is left behind, save when the program has crashed; a
      reply received was withheld only if the user has freed the context or the server has sent more than was
      asked for; a callback got NULL only if there was an error or the user has freed the context. */
  lemma EveryReplyToItsCallback(u: User, es: seq<Event>)
    ensures Ok(INITIAL)
    ensures var s := Run(u, INITIAL, es);
      var replies := Spelled(s);
      && s.h.issued == Callbacks(s.h.departed) + s.queue
      && s.h.got <= replies
      && (forall k :: 0 <= k < |s.h.departed| ==>
            s.h.departed[k] == Departed(s.h.issued[k], if k < |s.h.got| then Some(replies[k]) else None))
      && Calls(s.h.log) == Heard(s.h.departed)
      && (forall i :: 0 <= i < |s.h.log| ==> Meant(u, s.h, i))
      && (s.status == Live ==>
            && |s.h.departed| == |replies| <= |s.h.issued|
            && forall k :: 0 <= k < |replies| ==> s.h.departed[k] == Departed(s.h.issued[k], Some(replies[k])))
      && (s.status == Freed || s.status == Aborted ==> s.queue == [])
      && (s.h.got != replies ==> s.freeing || |replies| > |s.h.issued|)
      && (|s.h.got| < |s.h.departed| ==> s.failed || s.freeing)
  {
    InitialLedger(u);
    RunLedger(u, INITIAL, es);
    RepliesInOrder(u, es);
  }

  /** In every run the commands accepted are those that the user has asked for before the first call that
      closes the connection, from outside and in callbacks, in order: their callbacks are those issued, and
      their texts are what has been written and waits to be written. The calls from outside are those among
      the events. As long as the context lives, it is disconnecting exactly when the user has asked for it,
      and nobody has asked to free it. */
  lemma CommandsAsAsked(u: User, es: seq<Event>)
    ensures Ok(INITIAL)
    ensures var s := Run(u, INITIAL, es);
      var cs := Accepted(s.h.log);
      && CallbacksOf(cs) == s.h.issued == Callbacks(s.h.departed) + s.queue
      && ArgsOf(cs) == s.h.commands && Flat(Texts(ArgsOf(cs))) == s.h.sent + s.obuf
      && AskedIn(s.h.log) <= CallsIn(es)
      && (s.status == Live ==>
            && AskedIn(s.h.log) == CallsIn(es)
            && (s.disconnecting <==> Asks(s.h.log, Disconnect)) && !s.freeing && !Asks(s.h.log, Free))
  {
    InitialLedger(u);
    RunLedger(u, INITIAL, es);
    RunKeepsOk(u, INITIAL, es);
    assert [] + CallsIn(es) == CallsIn(es);
  }
}
