/** redisAsyncContext itself: its flags, its linked queue of callbacks and the connection under it.
    Every method is proved against AsyncMachine. */
module Async {
  import opened Bytes
  import opened Resp
  import opened Socket
  import opened AsyncMachine
  import opened CallbackLists
  import opened Connection
  import opened AsyncRuns
  import L = AsyncLedger
  import A = Arguments
  import C = Command
  import S = CommandSort
  import M = ReaderMachine
  import R = Reader

  class AsyncContext {
    var connected: bool
    var disconnecting: bool
    var freeing: bool
    var inCallback: bool
    const c: RedisContext
    const replies: CallbackList
    // The user's callbacks, and what has happened so far.
    const user: User
    var h: History
    var status: Status
    ghost var Repr: set<object>

    /** Everything, as long as own has all that the methods below may change. */
    ghost predicate Apart(own: set<object>)
      reads this, own, c.reader, c.reader.tree
    {
      && this in own && replies in own && c in own && c.obuf in own && c.obuf.buf in own
      && c.reader in own && c.reader.rstack in own
      && (c.reader.buf != null ==> c.reader.buf in own && c.reader.buf.buf in own)
      && (forall n :: n in replies.all ==> n in own) && (forall o :: o in c.reader.partial ==> o in own)
      && c.Valid() && replies.Valid()
    }

    ghost predicate Valid()
      reads this, Repr, c.reader, c.reader.tree
    {
      Apart(Repr)
    }

    /** The state these objects stand for. */
    ghost function State(): Ctx
      reads this, replies, c
    {
      Ctx(connected, disconnecting, freeing, inCallback, c.err != 0,
          c.incoming, c.outgoing, replies.contents, status, h)
    }

    /** redisAsyncInitialize. */
    constructor (user: User)
      ensures Valid() && State() == INITIAL && this.user == user
      ensures fresh(Repr)
    {
      var list, connection; ghost var own;
      list, connection, own := NewParts();
      connected, disconnecting, freeing, inCallback := false, false, false, false;
      c, replies := connection, list;
      this.user := user;
      h, status := NO_HISTORY, Live;
      Repr := {this} + own;
    }

    /** Objects that a step has made are the context's from now on. */
    ghost method Own(more: set<object>)
      requires Apart(Repr + more)
      modifies this`Repr
      ensures Valid() && Repr == old(Repr) + more && State() == old(State())
    {
      Repr := Repr + more;
    }

    /** The next chapter of what has happened. */
    method Log(now: History)
      requires Valid()
      modifies this`h
      ensures Valid() && State() == old(State()).(h := now)
    {
      h := now;
    }

    /** REDIS_IN_CALLBACK, set or cleared. */
    method MarkInCallback(inside: bool)
      requires Valid()
      modifies this`inCallback
      ensures Valid() && State() == old(State()).(inCallback := inside)
    {
      inCallback := inside;
    }

    /** The context is gone, or the program has aborted. */
    method MarkStatus(now: Status)
      requires Valid()
      modifies this`status
      ensures Valid() && State() == old(State()).(status := now)
    {
      status := now;
    }

    /** The callback joins the queue. */
    method Enqueue(cb: Callback)
      requires Valid()
      modifies Repr
      ensures Valid() && fresh(Repr - old(Repr))
      ensures State() == old(State()).(queue := old(replies.contents) + [cb])
    {
      replies.Push(cb);
      Own(replies.all);
    }

    /** The command joins the output buffer. */
    method Append(cmd: bytes)
      requires Valid()
      modifies Repr
      ensures Valid() && fresh(Repr - old(Repr))
      ensures State() == old(State()).(obuf := old(c.outgoing) + cmd)
    {
      c.AppendCommand(cmd);
      Own({c.obuf.buf});
    }

    /** Both. */
    method Take(cb: Callback, text: bytes)
      requires Valid()
      modifies Repr
      ensures Valid() && fresh(Repr - old(Repr))
      ensures State() == old(State()).(queue := old(replies.contents) + [cb], obuf := old(c.outgoing) + text)
    {
      Enqueue(cb);
      Append(text);
    }

    /** Both, and a note of it in the history. */
    method Record(cb: Callback, text: bytes, args: S.PlainCommand)
      requires Valid() && !Closing(State()) && text == C.CommandText(args)
      modifies Repr
      ensures Valid() && fresh(Repr - old(Repr))
      ensures State() == Accept(old(State()), cb, args)
    {
      Take(cb, text);
      Log(h.(issued := h.issued + [cb], commands := h.commands + [args]));
    }

    /** The text of a command, which turns out to be a plain one. */
    static method PlainText(cmd: array<byte>, len: nat, ghost args: S.PlainCommand) returns (text: bytes)
      requires cmd[..] == A.Terminated(args) && len == |C.CommandText(args)|
      ensures text == C.CommandText(args)
    {
      C.SizesFitExactly(args);
      var sort := S.FindSort(cmd, args);
      assert sort == S.Plain;
      text := cmd[..len];
    }

    /** A command that has been taken. */
    ghost predicate Issued(s: Ctx, cb: Callback, args: S.PlainCommand)
      reads this, replies, c
    {
      if Closing(s) then State() == s
      else
        && replies.contents == s.queue + [cb] && c.outgoing == s.obuf + C.CommandText(args)
        && h.issued == s.h.issued + [cb] && h.commands == s.h.commands + [args]
    }

    /** __redisAsyncCommand: cmd is the text of a plain command, with its NUL; args is for the history. */
    method AsyncCommand(cb: Callback, cmd: array<byte>, len: nat, args: S.PlainCommand) returns (rc: int)
      requires Valid() && cmd[..] == A.Terminated(args) && len == |C.CommandText(args)|
      modifies Repr
      ensures Valid() && fresh(Repr - old(Repr))
      ensures State() == Accept(old(State()), cb, args) && Issued(old(State()), cb, args)
      ensures rc == if Closing(old(State())) then R.REDIS_ERR else R.REDIS_OK
      decreases 0, 0, 0
    {
      if disconnecting || freeing {
        return R.REDIS_ERR;
      }
      var text := PlainText(cmd, len, args);
      Record(cb, text, args);
      return R.REDIS_OK;
    }

    /** redisFormatCommandArgv, for its NUL-terminated result. */
    static method Formatted(args: S.PlainCommand) returns (cmd: array<byte>, len: nat)
      ensures fresh(cmd) && cmd[..] == A.Terminated(args) && len == |C.CommandText(args)|
    {
      cmd, len := C.FormatCommandArgv(args);
      assert cmd[..] == cmd[..len] + [cmd[len]];
    }

    /** A command the user has formatted, handed to redisAsyncFormattedCommand. */
    method Submit(cb: Callback, args: S.PlainCommand)
      requires Valid()
      modifies Repr
      ensures Valid() && fresh(Repr - old(Repr))
      ensures State() == Accept(old(State()), cb, args) && Issued(old(State()), cb, args)
      decreases 0, 0, 1
    {
      var cmd, len := Formatted(args);
      var _ := AsyncCommand(cb, cmd, len, args);
    }

    /** redisAsyncDisconnect. */
    method AsyncDisconnect()
      requires Valid()
      modifies Repr
      ensures Valid() && fresh(Repr - old(Repr))
      ensures State() == var s := old(State());
        if s.inCallback then Inside(s, Disconnect) else Outside(user, s, Disconnect)
      ensures old(inCallback) || old(replies.contents) != [] ==> State() == old(State()).(disconnecting := true)
      decreases if inCallback then 0 else 1, if inCallback then 0 else |replies.contents|, 5
    {
      disconnecting := true;
      if !inCallback && replies.head == null {
        DisconnectNow();
      }
    }

    /** redisAsyncFree. */
    method AsyncFree()
      requires Valid()
      modifies Repr
      ensures Valid() && fresh(Repr - old(Repr))
      ensures State() == var s := old(State());
        if s.inCallback then Inside(s, Free) else Outside(user, s, Free)
      ensures if old(inCallback) then State() == old(State()).(freeing := true) else status == Freed
      decreases if inCallback then 0 else 1, if inCallback then 0 else |replies.contents|, 5
    {
      freeing := true;
      if !inCallback {
        FreeNow();
      }
    }

    /** __redisRunCallback. */
    method RunCallback(cb: Callback, reply: Option<Reply>)
      requires Valid() && !inCallback
      modifies Repr
      ensures Valid() && fresh(Repr - old(Repr))
      ensures State() == AsyncMachine.RunCallback(user, old(State()), cb, reply)
      ensures L.Given(user, old(State()), cb, reply, State())
      decreases 1, |replies.contents|, 0
    {
      L.CallbackMeans(user, State(), cb, reply);
      if cb.fn != 0 {
        var acts := user(h, cb, reply);
        Log(h.(log := h.log + [Called(h, cb, reply, acts)]));
        MarkInCallback(true);
        CallUser(acts);
        MarkInCallback(false);
      }
    }

    /** One call of the API by the user's function. */
    method CallBack(act: Act)
      requires Valid() && inCallback
      modifies Repr
      ensures Valid() && fresh(Repr - old(Repr))
      ensures State() == Inside(old(State()), act)
      decreases 0, 0, 7
    {
      match act {
        case Command(cb, args) => Submit(cb, args);
        case Disconnect => AsyncDisconnect();
        case Free => AsyncFree();
      }
    }

    /** The user's function at work. */
    method CallUser(acts: seq<Act>)
      requires Valid() && inCallback
      modifies Repr
      ensures Valid() && fresh(Repr - old(Repr))
      ensures State() == Perform(old(State()), acts)
      decreases 0, 0, 8, |acts|
    {
      if acts != [] {
        CallBack(acts[0]);
        CallUser(acts[1..]);
      }
    }

    /** __redisAsyncDisconnect. */
    method DisconnectNow()
      requires Valid() && !inCallback && (c.err == 0 ==> replies.contents == [] && disconnecting)
      modifies Repr
      ensures Valid() && fresh(Repr - old(Repr))
      ensures State() == DoDisconnect(user, old(State()))
      decreases 1, |replies.contents|, 4
    {
      if c.err == 0 {
        var found, _ := replies.Shift();
        assert !found;
      } else {
        disconnecting := true;
      }
      FreeNow();
    }

    /** __redisAsyncFree. */
    method FreeNow()
      requires Valid() && !inCallback && (disconnecting || freeing)
      modifies Repr
      ensures Valid() && fresh(Repr - old(Repr))
      ensures State() == DoFree(user, old(State()))
      decreases 1, |replies.contents|, 3
    {
      RunPending();
      MarkStatus(Freed);
    }

    /** The loop of __redisAsyncFree over the callbacks still pending. */
    method RunPending()
      requires Valid() && !inCallback && (disconnecting || freeing)
      modifies Repr
      ensures Valid() && fresh(Repr - old(Repr))
      ensures replies.contents == [] && Closing(State()) && !inCallback
      ensures DoFree(user, State()) == DoFree(user, old(State()))
      decreases 1, |replies.contents|, 2
    {
      var found := true;
      while found
        invariant Valid() && fresh(Repr - old(Repr))
        invariant Closing(State()) && !inCallback && |replies.contents| <= |old(replies.contents)|
        invariant DoFree(user, State()) == DoFree(user, old(State()))
        invariant !found ==> replies.contents == []
        decreases |replies.contents|, found
      {
        found := FreeOne();
      }
    }

    /** One turn of the loop of __redisAsyncFree: whether there was a callback left, which has now run. */
    method FreeOne() returns (found: bool)
      requires Valid() && !inCallback && (disconnecting || freeing)
      modifies Repr
      ensures Valid() && fresh(Repr - old(Repr))
      ensures found <==> old(replies.contents) != []
      ensures found ==> replies.contents == old(replies.contents)[1..]
      ensures !found ==> State() == old(State())
      ensures Closing(State()) && !inCallback && DoFree(user, State()) == DoFree(user, old(State()))
      decreases 1, |replies.contents|, 1
    {
      ghost var s := State();
      var cb;
      found, cb := ShiftReply(None);
      if found {
        FreeTurn(user, s);
        RunCallback(cb, None);
      }
    }

    /** Takes the callback at the head of the queue; reply is what it is about to be given. */
    method ShiftReply(reply: Option<Reply>) returns (found: bool, cb: Callback)
      requires Valid()
      modifies this`h, replies
      ensures Valid()
      ensures found <==> old(replies.contents) != []
      ensures found ==> cb == old(replies.contents)[0]
      ensures State() == if found then Shift(old(State()), reply) else old(State())
    {
      found, cb := replies.Shift();
      if found {
        Log(h.(departed := h.departed + [Departed(cb, reply)]));
      }
    }

    // -------------------------------------------------------------- replies

    /** redisGetReply: what it leaves as it was, and what it does not. */
    method Ask() returns (rc: int, reply: R.ReplyObject?, ghost nodes: set<R.ReplyObject>)
      requires Valid()
      modifies Repr
      ensures Valid() && fresh(Repr - old(Repr))
      ensures replies.contents == old(replies.contents) && c.outgoing == old(c.outgoing)
      ensures connected == old(connected) && disconnecting == old(disconnecting) && freeing == old(freeing)
      ensures inCallback == old(inCallback) && status == old(status) && h == old(h)
      ensures c.incoming == M.GetReply(old(c.incoming)).reader
      ensures c.err != 0 <==> old(c.err) != 0 || !c.incoming.Reading?
      ensures rc == if c.incoming.Reading? then R.REDIS_OK else R.REDIS_ERR
      ensures match M.GetReply(old(c.incoming)).reply
        case None => reply == null
        case Some(r) => reply != null && reply in nodes && R.AllComplete(nodes) && R.TreeAt(reply, nodes) == r
    {
      ghost var made;
      rc, reply, nodes, made := c.GetReply();
      assert replies.Valid();
      Own(made);
    }

    /** The same, as a step of the state. */
    method Fetch() returns (rc: int, reply: R.ReplyObject?, ghost nodes: set<R.ReplyObject>)
      requires Valid()
      modifies Repr
      ensures Valid() && fresh(Repr - old(Repr))
      ensures var e := M.GetReply(old(c.incoming));
        && State() == old(State()).(reader := e.reader, failed := old(State()).failed || !e.reader.Reading?)
        && rc == (if e.reader.Reading? then R.REDIS_OK else R.REDIS_ERR)
        && match e.reply
           case None => reply == null
           case Some(r) => reply != null && reply in nodes && R.AllComplete(nodes) && R.TreeAt(reply, nodes) == r
    {
      rc, reply, nodes := Ask();
    }

    /** redisGetReply, with what the reply spells out. */
    method FetchValue() returns (rc: int, reply: R.ReplyObject?, value: Option<Reply>)
      requires Valid()
      modifies Repr
      ensures Valid() && fresh(Repr - old(Repr))
      ensures var e := M.GetReply(old(c.incoming));
        && State() == old(State()).(reader := e.reader, failed := old(State()).failed || !e.reader.Reading?)
        && rc == (if e.reader.Reading? then R.REDIS_OK else R.REDIS_ERR)
        && value == e.reply && (reply == null <==> value == None)
      ensures reply != null ==> (reply.typ == R.REPLY_ERROR <==> value.value.Error?)
    {
      ghost var nodes;
      rc, reply, nodes := Fetch();
      value := if reply == null then None else Some(R.TreeAt(reply, nodes));
    }

    /** The same, with a note of the reply in the history. */
    method NextReply() returns (rc: int, reply: R.ReplyObject?, value: Option<Reply>)
      requires Valid()
      modifies Repr
      ensures Valid() && fresh(Repr - old(Repr))
      ensures State() == TakeReply(old(State())) && value == M.GetReply(old(c.incoming)).reply
      ensures rc == if c.incoming.Reading? then R.REDIS_OK else R.REDIS_ERR
      ensures reply == null <==> value == None
      ensures reply != null ==> (reply.typ == R.REPLY_ERROR <==> value.value.Error?)
    {
      rc, reply, value := FetchValue();
      Log(h.(got := h.got + if value == None then [] else [value.value]));
    }

    /** Whether the reader has not failed but written through NULL. */
    method ReaderLost() returns (lost: bool)
      requires Valid()
      ensures lost <==> c.incoming.Lost?
    {
      lost := c.reader.err == R.LOST;
    }

    /** There will be no reply any more. */
    method Break()
      requires Valid() && !inCallback && !c.incoming.Reading? && c.err != 0
      modifies Repr
      ensures Valid() && fresh(Repr - old(Repr))
      ensures State() == var t := old(State()); if t.reader.Lost? then t.(status := Crashed) else DoDisconnect(user, t)
    {
      var lost := ReaderLost();
      if lost {
        MarkStatus(Crashed);
      } else {
        DisconnectNow();
      }
    }

    /** There is no reply to process: the cue to disconnect, when that is what is being waited for. */
    method Idle()
      requires Valid() && !inCallback
      modifies Repr
      ensures Valid() && fresh(Repr - old(Repr))
      ensures State() == var t := old(State());
        if t.disconnecting && t.obuf == [] && t.queue == [] then DoDisconnect(user, t) else t
    {
      if disconnecting && c.obuf.len == 0 && replies.head == null {
        DisconnectNow();
      }
    }

    /** A reply that no callback is waiting for. */
    method Unasked(error: bool)
      requires Valid() && !inCallback
      modifies Repr
      ensures Valid() && fresh(Repr - old(Repr))
      ensures State() == var t := old(State());
        if error then DoDisconnect(user, t.(failed := true)) else t.(status := Aborted)
    {
      if error {
        c.SetError(REDIS_ERR_OTHER);
        DisconnectNow();
      } else {
        MarkStatus(Aborted);
      }
    }

    /** One turn of the loop of redisProcessCallbacks, and whether there is another. */
    method Turn() returns (more: bool)
      requires Valid() && !inCallback && c.incoming.Reading?
      modifies Repr
      ensures Valid() && fresh(Repr - old(Repr))
      ensures TakeTurn(user, old(State())) == AsyncMachine.Turn(State(), more)
    {
      var rc, reply, value := NextReply();
      if rc != R.REDIS_OK {
        Break();
        return false;
      }
      if reply == null {
        Idle();
        return false;
      }
      more := Dispatch(reply, value);
    }

    /** A reply is there, and value is what it spells out. */
    method Dispatch(reply: R.ReplyObject, value: Option<Reply>) returns (more: bool)
      requires Valid() && !inCallback && value.Some?
      requires reply.typ == R.REPLY_ERROR <==> value.value.Error?
      modifies Repr
      ensures Valid() && fresh(Repr - old(Repr))
      ensures AsyncMachine.Turn(State(), more) == var t := old(State());
        if t.queue == [] then
          AsyncMachine.Turn(if ErrorReply(value.value) then DoDisconnect(user, t.(failed := true))
                            else t.(status := Aborted), false)
        else
          Answer(user, t, value)
    {
      ghost var t := State();
      var error := reply.typ == R.REPLY_ERROR;
      var found, cb := ShiftReply(value);
      if found {
        more := AnswerWith(cb, value, t);
      } else {
        Unasked(error);
        more := false;
      }
    }

    /** The reply goes to the callback just taken from the queue. */
    method AnswerWith(cb: Callback, value: Option<Reply>, ghost t: Ctx) returns (more: bool)
      requires Valid() && !t.inCallback && t.queue != [] && cb == t.queue[0] && State() == Shift(t, value)
      modifies Repr
      ensures Valid() && fresh(Repr - old(Repr))
      ensures Answer(user, t, value) == AsyncMachine.Turn(State(), more)
    {
      if cb.fn != 0 {
        RunCallback(cb, value);
        if freeing {
          FreeNow();
          return false;
        }
      }
      return true;
    }

    /** redisProcessCallbacks. */
    method ProcessCallbacks()
      requires Valid() && !inCallback && c.incoming.Reading?
      modifies Repr
      ensures Valid() && fresh(Repr - old(Repr))
      ensures State() == AsyncMachine.ProcessCallbacks(user, old(State()))
    {
      var more := true;
      while more
        invariant Valid() && fresh(Repr - old(Repr))
        invariant more ==>
                    && !inCallback && c.incoming.Reading?
                    && AsyncMachine.ProcessCallbacks(user, State()) == AsyncMachine.ProcessCallbacks(user, old(State()))
        invariant !more ==> State() == AsyncMachine.ProcessCallbacks(user, old(State()))
        decreases more, if more then |c.incoming.unread| else 0
      {
        more := Turn();
      }
    }

    // -------------------------------------------------------------- events

    /** __redisAsyncHandleConnect. */
    method HandleConnect(conn: Connecting) returns (rc: int)
      requires Valid() && !inCallback
      modifies Repr
      ensures Valid() && fresh(Repr - old(Repr))
      ensures State() == AsyncMachine.HandleConnect(user, old(State()), conn)
      ensures rc == if conn.Refused? then R.REDIS_ERR else R.REDIS_OK
    {
      match conn {
        case InProgress => c.SetError(REDIS_ERR_IO);
        case Refused =>
          c.SetError(REDIS_ERR_IO);
          DisconnectNow();
          return R.REDIS_ERR;
        case Established => connected := true;
      }
      return R.REDIS_OK;
    }

    /** redisBufferRead. */
    method ReadSocket(input: Input) returns (rc: int)
      requires Valid()
      modifies Repr
      ensures Valid() && fresh(Repr - old(Repr))
      ensures State() == old(State()).(reader := c.incoming, failed := c.err != 0)
      ensures c.incoming ==
              if old(c.err) == 0 && input.Data? then M.Feed(old(c.incoming), input.data) else old(c.incoming)
      ensures rc == if c.err == 0 then R.REDIS_OK else R.REDIS_ERR
      ensures c.err == 0 <==> old(c.err) == 0 && (input.NoInput? || (input.Data? && c.incoming.Reading?))
    {
      ghost var made;
      rc, made := c.BufferRead(input);
      assert replies.Valid();
      Own(made);
    }

    /** redisBufferRead, with what came in noted. */
    method Receive(input: Input) returns (rc: int)
      requires Valid() && c.incoming.Reading?
      modifies Repr
      ensures Valid() && fresh(Repr - old(Repr))
      ensures State() == var s := old(State()); if s.failed then s else BufferRead(s, input)
      ensures rc == if c.err == 0 then R.REDIS_OK else R.REDIS_ERR
    {
      var healthy := c.err == 0;
      rc := ReadSocket(input);
      if healthy && input.Data? {
        Log(h.(received := h.received + input.data));
      }
    }

    /** redisBufferWrite. */
    method WriteSocket(output: Output) returns (rc: int, done: bool)
      requires Valid()
      modifies Repr
      ensures Valid() && fresh(Repr - old(Repr))
      ensures State() == old(State()).(obuf := c.outgoing, failed := c.err != 0)
      ensures c.outgoing == if old(c.err) == 0 then Left(old(c.outgoing), output) else old(c.outgoing)
      ensures rc == if c.err == 0 then R.REDIS_OK else R.REDIS_ERR
      ensures c.err == 0 <==> old(c.err) == 0 && (old(c.outgoing) == [] || !output.OutputError?)
      ensures done <==> c.err == 0 && c.outgoing == []
    {
      rc, done := c.BufferWrite(output);
      assert replies.Valid();
      Own({c.obuf as object, c.obuf.buf});
    }

    /** redisBufferWrite, with what went out noted. */
    method Send(output: Output) returns (rc: int, done: bool)
      requires Valid()
      modifies Repr
      ensures Valid() && fresh(Repr - old(Repr))
      ensures State() == var s := old(State()); if s.failed then s else BufferWrite(s, output)
      ensures rc == if c.err == 0 then R.REDIS_OK else R.REDIS_ERR
      ensures done <==> c.err == 0 && c.outgoing == []
    {
      var healthy, was := c.err == 0, c.obuf.buf[..c.obuf.len];
      rc, done := WriteSocket(output);
      if healthy {
        Log(h.(sent := h.sent + was[..Taken(was, output)]));
      }
    }

    /** The part of both handlers that finishes connecting; whether they go on. */
    method Connected(conn: Connecting) returns (ready: bool)
      requires Valid() && !inCallback && status == Live
      modifies Repr
      ensures Valid() && fresh(Repr - old(Repr))
      ensures State() == Connect(user, old(State()), conn)
      ensures ready <==> status == Live && connected
    {
      if !connected {
        var rc := HandleConnect(conn);
        if rc != R.REDIS_OK || !connected {
          return false;
        }
      }
      return true;
    }

    /** The rest of redisAsyncHandleRead. */
    method ReadAndProcess(input: Input)
      requires Valid() && !inCallback && c.incoming.Reading?
      modifies Repr
      ensures Valid() && fresh(Repr - old(Repr))
      ensures State() == AsyncMachine.HandleRead(user, old(State()), input)
    {
      var rc := Receive(input);
      if rc == R.REDIS_ERR {
        DisconnectNow();
      } else {
        ProcessCallbacks();
      }
    }

    /** The rest of redisAsyncHandleWrite. */
    method Write(output: Output)
      requires Valid() && !inCallback
      modifies Repr
      ensures Valid() && fresh(Repr - old(Repr))
      ensures State() == AsyncMachine.HandleWrite(user, old(State()), output)
    {
      var rc, done := Send(output);
      if rc == R.REDIS_ERR {
        DisconnectNow();
      }
    }

    /** redisAsyncHandleRead: what the socket reports on the way is in conn and input. */
    method HandleRead(conn: Connecting, input: Input)
      requires Valid() && !inCallback && status == Live && c.incoming.Reading?
      modifies Repr
      ensures Valid() && fresh(Repr - old(Repr))
      ensures State() == OnReadable(user, old(State()), conn, input)
    {
      var ready := Connected(conn);
      if ready {
        ReadAndProcess(input);
      }
    }

    /** redisAsyncHandleWrite. */
    method HandleWrite(conn: Connecting, output: Output)
      requires Valid() && !inCallback && status == Live && c.incoming.Reading?
      modifies Repr
      ensures Valid() && fresh(Repr - old(Repr))
      ensures State() == OnWritable(user, old(State()), conn, output)
    {
      var ready := Connected(conn);
      if ready {
        Write(output);
      }
    }

    method HandleOne(e: Event)
      requires Valid() && !inCallback && status == Live && c.incoming.Reading?
      modifies Repr
      ensures Valid() && fresh(Repr - old(Repr))
      ensures State() == Step(user, old(State()), e)
    {
      match e {
        case Readable(conn, input) => HandleRead(conn, input);
        case Writable(conn, output) => HandleWrite(conn, output);
        case Call(act) => CallIn(act);
      }
    }

    /** Everything an event loop and a user may do to a context, one event after the other. */
    method Handle(es: seq<Event>)
      requires Valid() && Ok(State())
      modifies Repr
      ensures Valid() && fresh(Repr - old(Repr))
      ensures Ok(State()) && State() == Run(user, old(State()), es)
      decreases |es|
    {
      if es != [] && status == Live {
        StepKeeps(user, State(), es[0]);
        HandleOne(es[0]);
        Handle(es[1..]);
      }
    }

    /** A call of the API by the user, outside any callback. */
    method CallIn(act: Act)
      requires Valid() && !inCallback
      modifies Repr
      ensures Valid() && fresh(Repr - old(Repr))
      ensures State() == Outside(user, Noted(old(State()), Asked(act)), act)
    {
      Log(h.(log := h.log + [Asked(act)]));
      match act {
        case Command(cb, args) => Submit(cb, args);
        case Disconnect => AsyncDisconnect();
        case Free => AsyncFree();
      }
    }
  }

  /** An empty queue and a new connection, and all they are made of. */
  method NewParts() returns (list: CallbackList, c: RedisContext, ghost own: set<object>)
    ensures fresh(own) && c in own && list in own
    ensures list.Valid() && list.contents == [] && list.all == {}
    ensures c.Valid() && c.reader.partial == []
    ensures c.err == 0 && c.outgoing == [] && c.incoming == M.FRESH
    ensures c.obuf in own && c.obuf.buf in own && c.reader in own && c.reader.rstack in own && c.reader.buf != null
    ensures c.reader.buf in own && c.reader.buf.buf in own
  {
    c := new RedisContext();
    list := new CallbackList();
    own := {list, c, c.obuf, c.obuf.buf, c.reader, c.reader.rstack, c.reader.buf as object, c.reader.buf.buf};
  }
}
