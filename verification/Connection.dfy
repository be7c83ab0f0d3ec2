/** The part of redisContext that lies between the socket and the callers: the output buffer, the
    reader and the error, and the steps that move bytes in and out. */
module Connection {
  import opened Bytes
  import opened Resp
  import opened Socket
  import M = ReaderMachine
  import R = Reader
  import Sds

  const REDIS_ERR_IO: int := 1
  const REDIS_ERR_OTHER: int := 2
  const REDIS_ERR_EOF: int := 3

  class RedisContext {
    var err: int
    var obuf: Sds.String
    const reader: R.RedisReader
    // The bytes waiting to be written, and the state the reader stands for.
    ghost var outgoing: bytes
    ghost var incoming: M.Reader

    /** The output buffer and the input buffer are different strings, and both are in order. */
    ghost predicate Separate()
      reads this, obuf, obuf.buf, reader, reader.rstack, reader.partial, reader.tree
      reads reader.buf, if reader.buf == null then {} else {reader.buf.buf}
    {
      && (reader.buf != null ==> reader.buf != obuf && reader.buf.buf != obuf.buf)
      && obuf.Valid() && outgoing == obuf.Contents()
      && reader.Valid()
    }

    ghost predicate Valid()
      reads this, obuf, obuf.buf, reader, reader.rstack, reader.partial, reader.tree
      reads reader.buf, if reader.buf == null then {} else {reader.buf.buf}
    {
      Separate() && incoming == reader.State()
    }

    /** redisContextInit. */
    constructor ()
      ensures Valid() && reader.partial == []
      ensures fresh(obuf) && fresh(obuf.buf) && fresh(reader) && fresh(reader.rstack)
      ensures fresh(reader.buf) && fresh(reader.buf.buf)
      ensures err == 0 && outgoing == [] && incoming == M.FRESH
    {
      err := 0;
      obuf := new Sds.String([]);
      reader := new R.RedisReader();
      outgoing, incoming := [], M.FRESH;
    }

    /** __redisSetError. */
    method SetError(code: int)
      requires Valid() && code != 0
      modifies this`err
      ensures Valid() && err == code && outgoing == old(outgoing) && incoming == old(incoming)
    {
      err := code;
    }

    /** __redisAppendCommand. */
    method AppendCommand(cmd: bytes)
      requires Valid()
      modifies this`outgoing, obuf, obuf.buf
      ensures Valid() && (obuf.buf == old(obuf.buf) || fresh(obuf.buf))
      ensures outgoing == old(outgoing) + cmd && incoming == old(incoming)
    {
      obuf.CatLen(cmd);
      outgoing := outgoing + cmd;
    }

    /** The call of redisReaderFeed. */
    method FeedReader(data: bytes) returns (rc: int, ghost made: set<object>)
      requires Valid()
      modifies this`incoming, reader`buf, reader`len, reader`pos
      modifies if reader.buf == null then {} else {reader.buf, reader.buf.buf}
      ensures Valid() && fresh(made)
      ensures reader.buf != null ==>
                && (reader.buf == old(reader.buf) || reader.buf in made)
                && (reader.buf.buf == old(reader.buf.buf) || reader.buf.buf in made)
      ensures incoming == M.Feed(old(incoming), data)
      ensures rc == if incoming.Reading? then R.REDIS_OK else R.REDIS_ERR
    {
      made := {};
      rc := reader.Feed(data);
      if rc == R.REDIS_OK {
        made := (if reader.buf == old(reader.buf) then {} else {reader.buf})
                + (if reader.buf.buf == old(reader.buf.buf) then {} else {reader.buf.buf});
      }
      Note();
    }

    /** redisBufferRead; what the socket yields goes to the reader. */
    method BufferRead(input: Input) returns (rc: int, ghost made: set<object>)
      requires Valid()
      modifies this`err, this`incoming, reader`buf, reader`len, reader`pos
      modifies if reader.buf == null then {} else {reader.buf, reader.buf.buf}
      ensures Valid() && fresh(made)
      ensures reader.buf != null ==>
                && (reader.buf == old(reader.buf) || reader.buf in made)
                && (reader.buf.buf == old(reader.buf.buf) || reader.buf.buf in made)
      ensures outgoing == old(outgoing) && obuf == old(obuf) && reader.partial == old(reader.partial)
      ensures incoming == if old(err) == 0 && input.Data? then M.Feed(old(incoming), input.data) else old(incoming)
      ensures rc == if err == 0 then R.REDIS_OK else R.REDIS_ERR
      ensures err == 0 <==>
                old(err) == 0 && (input.NoInput? || (input.Data? && incoming.Reading?))
    {
      made := {};
      if err != 0 {
        return R.REDIS_ERR, made;
      }
      match input {
        case NoInput =>
        case InputError => err := REDIS_ERR_IO;
        case EndOfInput => err := REDIS_ERR_EOF;
        case Data(data) =>
          var fed;
          fed, made := FeedReader(data);
          if fed != R.REDIS_OK {
            SetError(reader.err);
          }
      }
      rc := if err == 0 then R.REDIS_OK else R.REDIS_ERR;
    }

    /** redisBufferWrite: what the socket takes leaves the output buffer, at its front. */
    method BufferWrite(output: Output) returns (rc: int, done: bool)
      requires Valid()
      modifies this`err, this`obuf, this`outgoing, obuf`len, obuf`free, obuf.buf
      ensures Valid() && (obuf == old(obuf) || fresh(obuf)) && (obuf.buf == old(obuf.buf) || fresh(obuf.buf))
      ensures incoming == old(incoming) && reader.partial == old(reader.partial) && reader.buf == old(reader.buf)
      ensures outgoing == if old(err) == 0 then Left(old(outgoing), output) else old(outgoing)
      ensures old(err) == 0 && output.Wrote? ==>
                outgoing == if output.n <= |old(outgoing)| then old(outgoing)[output.n..] else []
      ensures rc == if err == 0 then R.REDIS_OK else R.REDIS_ERR
      ensures err == 0 <==> old(err) == 0 && (old(outgoing) == [] || !output.OutputError?)
      ensures done <==> err == 0 && outgoing == []
    {
      done := false;
      if err != 0 {
        return R.REDIS_ERR, false;
      }
      if obuf.len > 0 {
        match output {
          case NoOutput =>
          case OutputError =>
            err := REDIS_ERR_IO;
            return R.REDIS_ERR, false;
          case Wrote(n) => Sent(n);
        }
      }
      return R.REDIS_OK, obuf.len == 0;
    }

    /** Discards the first n bytes of the output buffer, or all of it. */
    method Sent(n: nat)
      requires Valid() && obuf.len > 0
      modifies this`obuf, this`outgoing, obuf`len, obuf`free, obuf.buf
      ensures Valid() && (obuf == old(obuf) || fresh(obuf)) && (obuf.buf == old(obuf.buf) || fresh(obuf.buf))
      ensures outgoing == Left(old(outgoing), Wrote(n))
    {
      if n > 0 {
        if n >= obuf.len {
          obuf := new Sds.String([]);
        } else {
          Sds.SliceDrops(obuf.Contents(), n);
          obuf.Range(n, -1);
        }
        outgoing := Left(outgoing, Wrote(n));
      }
    }

    /** The call of redisReaderGetReply: the output buffer is out of its reach. */
    method TakeReply()
      returns (rc: int, out: R.ReplyObject?, ghost nodes: set<R.ReplyObject>, ghost made: set<object>)
      requires Valid()
      modifies this`incoming, reader, reader.rstack, reader.partial
      modifies if reader.buf == null then {} else {reader.buf, reader.buf.buf}
      ensures Valid() && incoming == M.GetReply(old(incoming)).reader
      ensures rc == if reader.err == 0 then R.REDIS_OK else R.REDIS_ERR
      ensures incoming.Reading? <==> reader.err == 0
      ensures match M.GetReply(old(incoming)).reply
        case None => out == null
        case Some(r) => out != null && out in nodes && R.AllComplete(nodes) && R.TreeAt(out, nodes) == r
      ensures reader.buf != null ==> reader.buf == old(reader.buf) && reader.buf.buf == old(reader.buf.buf)
      ensures fresh(made) && forall o :: o in reader.partial ==> o in old(reader.partial) || o in made
    {
      rc, out, nodes := reader.GetReply();
      made := set o | o in reader.partial && o !in old(reader.partial);
      Note();
    }

    /** Keeps track of the reader. */
    ghost method Note()
      requires Separate()
      modifies this`incoming
      ensures Valid() && incoming == old(reader.State())
    {
      incoming := reader.State();
    }

    /** redisGetReplyFromReader, which on a non-blocking context is all of redisGetReply. */
    method GetReply()
      returns (rc: int, out: R.ReplyObject?, ghost nodes: set<R.ReplyObject>, ghost made: set<object>)
      requires Valid()
      modifies this`err, this`incoming, reader, reader.rstack, reader.partial
      modifies if reader.buf == null then {} else {reader.buf, reader.buf.buf}
      ensures Valid()
      ensures reader.buf != null ==> reader.buf == old(reader.buf) && reader.buf.buf == old(reader.buf.buf)
      ensures fresh(made) && forall o :: o in reader.partial ==> o in old(reader.partial) || o in made
      ensures outgoing == old(outgoing) && obuf == old(obuf)
      ensures incoming == M.GetReply(old(incoming)).reader
      ensures rc == if incoming.Reading? then R.REDIS_OK else R.REDIS_ERR
      ensures err != 0 <==> old(err) != 0 || !incoming.Reading?
      ensures match M.GetReply(old(incoming)).reply
        case None => out == null
        case Some(r) => out != null && out in nodes && R.AllComplete(nodes) && R.TreeAt(out, nodes) == r
    {
      rc, out, nodes, made := TakeReply();
      if rc == R.REDIS_ERR {
        SetError(reader.err);
      }
    }
  }
}
