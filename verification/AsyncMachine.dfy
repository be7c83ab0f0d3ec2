/** The asynchronous connection as a state machine on values: what every run keeps. Pub/sub and
    monitor mode are not part of it. */
module AsyncMachine {
  import opened Bytes
  import opened Resp
  import opened Socket
  import C = Command
  import S = CommandSort
  import M = ReaderMachine

  /** A callback; fn 0 is NULL. */
  datatype Callback = Callback(fn: int, privdata: int)

  /** A callback that has left the queue, and the reply it left with; None is the NULL reply. */
  datatype Departed = Departed(cb: Callback, reply: Option<Reply>)

  /** Aborted: an assertion has failed. Crashed: the program has written through NULL. */
  datatype Status = Live | Freed | Aborted | Crashed

  /** A call of the API. */
  datatype Act = Command(cb: Callback, args: S.PlainCommand) | Disconnect | Free

  /** What has happened so far: callbacks accepted, callbacks departed, replies taken from the reader,
      commands accepted, bytes read and bytes written; and what the user has done. */
  datatype History = History(issued: seq<Callback>, departed: seq<Departed>, got: seq<Reply>,
                             commands: seq<S.PlainCommand>, received: bytes, sent: bytes, log: seq<Entry>)

  /** Asked: a call from outside any callback. Called: a callback has run, after `before` had happened,
      and has made these calls. */
  datatype Entry =
    | Asked(act: Act)
    | Called(before: History, cb: Callback, reply: Option<Reply>, acts: seq<Act>)

  /** The context: its flags, whether its error is set, its reader, output buffer and queue. */
  datatype Ctx = Ctx(
    connected: bool, disconnecting: bool, freeing: bool, inCallback: bool, failed: bool,
    reader: M.Reader, obuf: bytes, queue: seq<Callback>, status: Status, h: History)

  const NO_HISTORY: History := History([], [], [], [], [], [], [])

  const INITIAL: Ctx := Ctx(false, false, false, false, false, M.FRESH, [], [], Live, NO_HISTORY)

  // ---------------------------------------------------------------- user code

  /** What user code does in a callback: any calls, depending on anything that has happened. */
  type User = (History, Callback, Option<Reply>) -> seq<Act>

  predicate Closing(s: Ctx) {
    s.disconnecting || s.freeing
  }

  /** __redisAsyncCommand for a plain command. */
  function Accept(s: Ctx, cb: Callback, args: S.PlainCommand): Ctx {
    if Closing(s) then s
    else s.(queue := s.queue + [cb], obuf := s.obuf + C.CommandText(args),
            h := s.h.(issued := s.h.issued + [cb], commands := s.h.commands + [args]))
  }

  /** An API call from inside a callback: disconnecting and freeing only leave a mark. */
  function Inside(s: Ctx, act: Act): Ctx {
    match act
    case Command(cb, args) => Accept(s, cb, args)
    case Disconnect => s.(disconnecting := true)
    case Free => s.(freeing := true)
  }

  function Perform(s: Ctx, acts: seq<Act>): Ctx
    decreases |acts|
  {
    if acts == [] then s else Perform(Inside(s, acts[0]), acts[1..])
  }

  function Noted(s: Ctx, e: Entry): Ctx {
    s.(h := s.h.(log := s.h.log + [e]))
  }

  /** REDIS_IN_CALLBACK set, and the call noted. */
  function Enter(u: User, s: Ctx, cb: Callback, reply: Option<Reply>): Ctx {
    Noted(s, Called(s.h, cb, reply, u(s.h, cb, reply))).(inCallback := true)
  }

  /** __redisRunCallback. */
  function RunCallback(u: User, s: Ctx, cb: Callback, reply: Option<Reply>): Ctx {
    if cb.fn == 0 then s
    else
      Perform(Enter(u, s, cb, reply), u(s.h, cb, reply)).(inCallback := false)
  }

  /** __redisShiftCallback on the reply queue; reply is what the callback is about to be given. */
  function Shift(s: Ctx, reply: Option<Reply>): Ctx
    requires s.queue != []
  {
    s.(queue := s.queue[1..], h := s.h.(departed := s.h.departed + [Departed(s.queue[0], reply)]))
  }

  // ---------------------------------------------------------------- closing

  /** While the connection is closing, nothing a callback does changes the queue. */
  lemma {:induction false} ClosingStays(s: Ctx, acts: seq<Act>)
    requires Closing(s)
    ensures Closing(Perform(s, acts))
    ensures Perform(s, acts) == s.(disconnecting := Perform(s, acts).disconnecting, freeing := Perform(s, acts).freeing)
    ensures s.freeing ==> Perform(s, acts).freeing
    decreases |acts|
  {
    if acts != [] {
      ClosingStays(Inside(s, acts[0]), acts[1..]);
    }
  }

  /** __redisAsyncFree. It is only ever entered with DISCONNECTING or FREEING set, so that the
      callbacks it runs cannot issue commands, and the drain ends. */
  function DoFree(u: User, s: Ctx): (r: Ctx)
    requires Closing(s) && !s.inCallback
    ensures r.queue == [] && r.status == Freed
    decreases |s.queue|
  {
    if s.queue == [] then s.(status := Freed)
    else
      var s' := Shift(s, None);
      var cb := s.queue[0];
      ClosingStays(Enter(u, s', cb, None), u(s'.h, cb, None));
      DoFree(u, RunCallback(u, s', cb, None))
  }

  /** One turn of the loop of __redisAsyncFree. */
  lemma FreeTurn(u: User, s: Ctx)
    requires Closing(s) && !s.inCallback && s.queue != []
    ensures var t := RunCallback(u, Shift(s, None), s.queue[0], None);
      t.queue == s.queue[1..] && Closing(t) && !t.inCallback && DoFree(u, t) == DoFree(u, s)
  {
    var s' := Shift(s, None);
    ClosingStays(Enter(u, s', s.queue[0], None), u(s'.h, s.queue[0], None));
  }

  /** __redisAsyncDisconnect. Its assertion is the precondition: without an error, no callback is pending. */
  function DoDisconnect(u: User, s: Ctx): (r: Ctx)
    requires !s.inCallback && (!s.failed ==> s.queue == [] && Closing(s))
    ensures r.queue == [] && r.status == Freed
  {
    DoFree(u, if s.failed then s.(disconnecting := true) else s)
  }

  /** An API call from outside any callback. */
  function Outside(u: User, s: Ctx, act: Act): Ctx
    requires !s.inCallback
  {
    match act
    case Command(cb, args) => Accept(s, cb, args)
    case Disconnect =>
      var s' := s.(disconnecting := true);
      if s.queue == [] then DoDisconnect(u, s') else s'
    case Free => DoFree(u, s.(freeing := true))
  }

  // ---------------------------------------------------------------- processing replies

  /** redisGetReply on a non-blocking context. */
  function TakeReply(s: Ctx): Ctx
    requires M.Wf(s.reader)
  {
    var e := M.GetReply(s.reader);
    s.(reader := e.reader, failed := s.failed || !e.reader.Reading?,
       h := s.h.(got := s.h.got + M.Replies(e)))
  }

  predicate ErrorReply(r: Reply) {
    r.Error?
  }

  /** One turn of the loop of redisProcessCallbacks, and whether there is another. A reply nobody
      asked for closes the connection when it is an error, and trips the assertion that the context
      is subscribed or monitoring when it is not. */
  datatype Turn = Turn(s: Ctx, more: bool)

  function TakeTurn(u: User, s: Ctx): (r: Turn)
    requires M.Wf(s.reader) && !s.inCallback && s.reader.Reading?
    ensures r.more ==> !r.s.inCallback && r.s.reader == M.GetReply(s.reader).reader && M.GetReply(s.reader).reply.Some?
  {
    var e := M.GetReply(s.reader);
    var t := TakeReply(s);
    if e.reader.Lost? then Turn(t.(status := Crashed), false)
    else if e.reader.Failed? then Turn(DoDisconnect(u, t), false)
    else if e.reply.None? then
      Turn(if t.disconnecting && t.obuf == [] && t.queue == [] then DoDisconnect(u, t) else t, false)
    else if t.queue == [] then
      Turn(if ErrorReply(e.reply.value) then DoDisconnect(u, t.(failed := true)) else t.(status := Aborted), false)
    else
      Answer(u, t, e.reply)
  }

  /** The reply goes to the callback at the head of the queue. */
  function Answer(u: User, t: Ctx, reply: Option<Reply>): (r: Turn)
    requires !t.inCallback && t.queue != []
    ensures r.more ==> !r.s.inCallback && r.s.reader == t.reader
  {
    var cb, shifted := t.queue[0], Shift(t, reply);
    PerformKeeps(Enter(u, shifted, cb, reply), u(shifted.h, cb, reply));
    var r := RunCallback(u, shifted, cb, reply);
    if cb.fn != 0 && r.freeing then Turn(DoFree(u, r), false) else Turn(r, true)
  }

  /** redisProcessCallbacks. */
  function ProcessCallbacks(u: User, s: Ctx): Ctx
    requires M.Wf(s.reader) && !s.inCallback && s.reader.Reading?
    decreases |s.reader.unread|
  {
    var r := TakeTurn(u, s);
    if r.more then ProcessCallbacks(u, r.s) else r.s
  }

  /** What user code in a callback cannot touch, and how the queue and the output grow under it. */
  lemma {:induction false} PerformKeeps(s: Ctx, acts: seq<Act>)
    ensures var r := Perform(s, acts);
      && r.connected == s.connected && r.inCallback == s.inCallback && r.failed == s.failed
      && r.reader == s.reader && r.status == s.status && r.h.departed == s.h.departed && r.h.got == s.h.got
      && r.h.received == s.h.received && r.h.sent == s.h.sent && r.h.log == s.h.log
    decreases |acts|
  {
    if acts != [] {
      PerformKeeps(Inside(s, acts[0]), acts[1..]);
    }
  }

  // ---------------------------------------------------------------- events

  /** The descriptor is ready, and this is what the socket says when asked, or the user calls the API. */
  datatype Event =
    | Readable(conn: Connecting, input: Input)
    | Writable(conn: Connecting, output: Output)
    | Call(act: Act)

  /** __redisAsyncHandleConnect, entered when the context is not connected yet. Even when the attempt
      is only in progress, asking the socket has set the error of the context. */
  function HandleConnect(u: User, s: Ctx, conn: Connecting): (t: Ctx)
    requires !s.inCallback
    ensures t.status == Live ==> t == s.(failed := true) || t == s.(connected := true)
  {
    match conn
    case InProgress => s.(failed := true)
    case Refused => DoDisconnect(u, s.(failed := true))
    case Established => s.(connected := true)
  }

  /** redisBufferRead on a context without an error. */
  function BufferRead(s: Ctx, input: Input): Ctx
    requires s.reader.Reading?
  {
    match input
    case NoInput => s
    case InputError => s.(failed := true)
    case EndOfInput => s.(failed := true)
    case Data(data) => s.(reader := M.Feed(s.reader, data), h := s.h.(received := s.h.received + data))
  }

  /** redisBufferWrite on a context without an error: what is written leaves the buffer at its front. */
  function BufferWrite(s: Ctx, output: Output): Ctx {
    if s.obuf == [] then s
    else if output.OutputError? then s.(failed := true)
    else
      s.(obuf := Left(s.obuf, output), h := s.h.(sent := s.h.sent + s.obuf[..Taken(s.obuf, output)]))
  }

  /** redisAsyncHandleRead. */
  function HandleRead(u: User, s: Ctx, input: Input): Ctx
    requires !s.inCallback && M.Wf(s.reader) && s.reader.Reading?
  {
    var t := if s.failed then s else BufferRead(s, input);
    if t.failed then DoDisconnect(u, t) else ProcessCallbacks(u, t)
  }

  /** redisAsyncHandleWrite. */
  function HandleWrite(u: User, s: Ctx, output: Output): Ctx
    requires !s.inCallback
  {
    var t := if s.failed then s else BufferWrite(s, output);
    if t.failed then DoDisconnect(u, t) else t
  }

  /** The part of both handlers that finishes connecting. */
  function Connect(u: User, s: Ctx, conn: Connecting): (t: Ctx)
    requires !s.inCallback
    ensures t.status == Live ==> t == s || t == s.(failed := true) || t == s.(connected := true)
  {
    if s.connected then s else HandleConnect(u, s, conn)
  }

  /** redisAsyncHandleRead, from the connecting on. */
  function OnReadable(u: User, s: Ctx, conn: Connecting, input: Input): Ctx
    requires !s.inCallback && M.Wf(s.reader) && s.reader.Reading?
  {
    var t := Connect(u, s, conn);
    if t.status != Live || !t.connected then t else HandleRead(u, t, input)
  }

  /** redisAsyncHandleWrite, from the connecting on. */
  function OnWritable(u: User, s: Ctx, conn: Connecting, output: Output): Ctx
    requires !s.inCallback
  {
    var t := Connect(u, s, conn);
    if t.status != Live || !t.connected then t else HandleWrite(u, t, output)
  }

  function Step(u: User, s: Ctx, e: Event): Ctx
    requires !s.inCallback && M.Wf(s.reader) && s.reader.Reading?
  {
    match e
    case Call(act) => Outside(u, Noted(s, Asked(act)), act)
    case Readable(conn, input) => OnReadable(u, s, conn, input)
    case Writable(conn, output) => OnWritable(u, s, conn, output)
  }
}
