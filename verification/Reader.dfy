/** redisReader itself: the input buffer, the nine-frame task stack, and the reply objects it links
    together on the heap. Every method is proved against ReaderMachine. */
module Reader {
  import opened Bytes
  import opened Decimal
  import opened Resp
  import M = ReaderMachine
  import Sds

  const REDIS_OK: int := 0
  const REDIS_ERR: int := -1
  const REDIS_ERR_PROTOCOL: int := 4

  /** No code of the source: a reader that has written through a NULL vector. Its program is gone. */
  const LOST: int := -1

  const REPLY_STRING: int := 1
  const REPLY_ARRAY: int := 2
  const REPLY_INTEGER: int := 3
  const REPLY_NIL: int := 4
  const REPLY_STATUS: int := 5
  const REPLY_ERROR: int := 6

  const READER_MAX_BUF: nat := 1024 * 16
  const STACK_SIZE: nat := 9

  // ---------------------------------------------------------------- reply objects

  /** redisReply. `element` is the vector of child pointers. */
  class ReplyObject {
    var typ: int
    var integer: int
    var str: bytes
    var elements: int
    var element: seq<ReplyObject?>
    ghost var value: Reply

    constructor (typ: int)
      ensures this.typ == typ && integer == 0 && str == [] && elements == 0 && element == []
    {
      this.typ := typ;
      integer, str, elements, element := 0, [], 0, [];
    }

    /** Every slot is filled, and the fields say what `value` says. */
    ghost predicate Complete(tree: set<ReplyObject>)
      reads this, tree
    {
      match value
      case Str(s) => typ == REPLY_STRING && str == s
      case Status(s) => typ == REPLY_STATUS && str == s
      case Error(s) => typ == REPLY_ERROR && str == s
      case Integer(v) => typ == REPLY_INTEGER && integer == v
      case Nil => typ == REPLY_NIL
      case NegativeArray(n) => n < 0 && typ == REPLY_ARRAY && elements == n && element == []
      case Hollow(n) =>
        && n > 0 && typ == REPLY_ARRAY && elements == |element| == n
        && forall i :: 0 <= i < n ==> element[i] == null
      case Array(es) =>
        && typ == REPLY_ARRAY && elements == |element| == |es|
        && forall i :: 0 <= i < |es| ==>
             element[i] != null && element[i] in tree && element[i].value == es[i]
    }
  }

  ghost predicate AllComplete(tree: set<ReplyObject>)
    reads tree
  {
    forall o :: o in tree ==> o.Complete(tree)
  }

  /** The tree that following the child pointers from o spells out. */
  function TreeAt(o: ReplyObject, ghost tree: set<ReplyObject>): (r: Reply)
    requires o in tree && AllComplete(tree)
    reads tree
    ensures r == o.value
    decreases o.value, 1
  {
    assert o.Complete(tree);
    if o.typ == REPLY_STRING then Str(o.str)
    else if o.typ == REPLY_STATUS then Status(o.str)
    else if o.typ == REPLY_ERROR then Error(o.str)
    else if o.typ == REPLY_INTEGER then Integer(o.integer)
    else if o.typ == REPLY_NIL then Nil
    else if o.elements < 0 then NegativeArray(o.elements)
    else if o.elements > 0 && o.element[0] == null then Hollow(o.elements)
    else
      ghost var vs := match o.value case Array(es) => es case _ => [];
      Array(TreesAt(o.element, tree, vs))
  }

  function TreesAt(slots: seq<ReplyObject?>, ghost tree: set<ReplyObject>, ghost vs: seq<Reply>): (rs: seq<Reply>)
    requires AllComplete(tree) && |slots| == |vs|
    requires forall i :: 0 <= i < |vs| ==> slots[i] != null && slots[i] in tree && slots[i].value == vs[i]
    reads tree
    ensures rs == vs
    decreases vs, 0
  {
    if slots == [] then [] else [TreeAt(slots[0], tree)] + TreesAt(slots[1..], tree, vs[1..])
  }

  /** redisReadTask; `parent` is the stack index of the parent task, -1 for none. */
  datatype Task = Task(typ: int, elements: int, idx: int, obj: ReplyObject?, parent: int)

  lemma Slices(w: bytes, p: nat, end: nat, from: nat, to: nat)
    requires from <= to && p + to <= end <= |w|
    ensures w[p..end][from..to] == w[p + from..p + to]
  {
    assert forall k :: 0 <= k < to - from ==> w[p..end][from..to][k] == w[p + from..p + to][k];
  }

  // ---------------------------------------------------------------- seekNewline

  /** Looks for CRLF in s[off..off + n]. It may look at s[off + n], which sds keeps at NUL. */
  method SeekNewline(s: array<byte>, off: nat, n: nat) returns (r: int)
    requires off + n < s.Length && s[off + n] == NUL
    ensures r == Newline(s[off..off + n])
  {
    ghost var u := s[off..off + n];
    var pos := 0;
    var last := n - 1;
    while pos < last
      invariant 0 <= pos <= n
      invariant forall k :: 0 <= k < pos ==> !IsNewline(u, k)
    {
      while pos < last && s[off + pos] != CR
        invariant 0 <= pos <= last
        invariant forall k :: 0 <= k < pos ==> !IsNewline(u, k)
      {
        pos := pos + 1;
      }
      if s[off + pos] != CR {
        return -1;
      } else if s[off + pos + 1] == LF {
        NewlineIs(u, pos);
        return pos;
      } else {
        pos := pos + 1;
      }
    }
    return -1;
  }

  // ---------------------------------------------------------------- the reader

  function KindOfType(typ: int): Option<Kind> {
    if typ == REPLY_ERROR then Some(KError)
    else if typ == REPLY_STATUS then Some(KStatus)
    else if typ == REPLY_INTEGER then Some(KInteger)
    else if typ == REPLY_STRING then Some(KString)
    else if typ == REPLY_ARRAY then Some(KArray)
    else None
  }

  /** An array object being filled: the slots below its frame's item count hold complete objects. It has
      a vector only if its count is positive. */
  ghost predicate Filling(f: M.Frame, o: ReplyObject, tree: set<ReplyObject>)
    reads o, tree
  {
    && o.typ == REPLY_ARRAY && o.elements == f.count
    && |f.items| <= |o.element| == (if f.count > 0 then f.count else 0)
    && forall j :: 0 <= j < |f.items| ==>
         o.element[j] != null && o.element[j] in tree && o.element[j].value == f.items[j]
  }

  /** The slot o fills next holds child. */
  ghost predicate NextSlot(f: M.Frame, o: ReplyObject, child: ReplyObject)
    reads o
  {
    |f.items| < |o.element| && o.element[|f.items|] == child
  }

  /** The objects under construction, each in the slot its parent is filling next. */
  ghost predicate Building(frames: seq<M.Frame>, partial: seq<ReplyObject>, tree: set<ReplyObject>)
    reads partial, tree
  {
    && |partial| == |frames| && M.FramesOk(frames)
    && AllComplete(tree)
    && (forall i :: 0 <= i < |frames| ==> partial[i] !in tree && Filling(frames[i], partial[i], tree))
    && (forall i, j :: 0 <= i < j < |frames| ==> partial[i] != partial[j])
    && (forall i :: 0 < i < |frames| ==> NextSlot(frames[i - 1], partial[i - 1], partial[i]))
  }

  /** obj, complete, is in the next slot of the innermost open array. */
  ghost predicate Delivering(frames: seq<M.Frame>, partial: seq<ReplyObject>, tree: set<ReplyObject>, obj: ReplyObject)
    reads partial
  {
    && |partial| == |frames| && obj in tree
    && (|frames| > 0 ==> NextSlot(frames[|frames| - 1], partial[|frames| - 1], obj))
  }

  /** Once the innermost object is complete it joins the tree and is what its own parent receives. */
  lemma CloseLast(frames: seq<M.Frame>, partial: seq<ReplyObject>, tree: set<ReplyObject>)
    requires 0 < |partial| == |frames| && M.FramesOk(frames) && AllComplete(tree)
    requires forall i :: 0 <= i < |frames| ==> partial[i] !in tree && Filling(frames[i], partial[i], tree)
    requires forall i, j :: 0 <= i < j < |frames| ==> partial[i] != partial[j]
    requires forall i :: 0 < i < |frames| ==> NextSlot(frames[i - 1], partial[i - 1], partial[i])
    requires partial[|frames| - 1].Complete(tree + {partial[|frames| - 1]})
    ensures var k := |frames| - 1;
      && Building(frames[..k], partial[..k], tree + {partial[k]})
      && Delivering(frames[..k], partial[..k], tree + {partial[k]}, partial[k])
  {
    var k := |frames| - 1;
    forall o | o in tree + {partial[k]}
      ensures o.Complete(tree + {partial[k]})
    {
      if o in tree {
        assert o.Complete(tree);
      }
    }
    forall i | 0 <= i < k
      ensures partial[i] !in tree + {partial[k]} && Filling(frames[i], partial[i], tree + {partial[k]})
    {
      assert Filling(frames[i], partial[i], tree);
    }
  }

  /** The innermost array has one more child, and still waits for others. */
  lemma FillSlot(frames: seq<M.Frame>, partial: seq<ReplyObject>, tree: set<ReplyObject>, obj: ReplyObject)
    requires 0 < |frames| && Building(frames, partial, tree) && Delivering(frames, partial, tree, obj)
    requires |frames[|frames| - 1].items| + 1 < frames[|frames| - 1].count
    ensures var k := |frames| - 1;
      Building(frames[..k] + [M.Frame(frames[k].count, frames[k].items + [obj.value])], partial, tree)
  {
    assert Filling(frames[|frames| - 1], partial[|frames| - 1], tree);
  }

  ghost predicate TaskMirrors(task: Task, child: Task, i: nat, f: M.Frame, o: ReplyObject) {
    && task.typ == REPLY_ARRAY && task.elements == f.count && task.obj == o
    && child.parent == i && child.idx == |f.items|
  }

  /** The task stack mirrors the frames: every task below the top is an array with its count, and each
      index is the number of children its parent already has. */
  ghost predicate Mirrors(stack: seq<Task>, frames: seq<M.Frame>, partial: seq<ReplyObject>) {
    && |stack| == STACK_SIZE && |partial| == |frames| <= MAX_LEVELS
    && forall i :: 0 <= i < |frames| ==> TaskMirrors(stack[i], stack[i + 1], i, frames[i], partial[i])
  }

  class RedisReader {
    var err: int
    var buf: Sds.String?
    var pos: nat
    var len: nat
    var maxbuf: nat
    const rstack: array<Task>
    var ridx: int
    var reply: ReplyObject?

    // The open arrays, their objects, and the complete objects below them.
    ghost var frames: seq<M.Frame>
    ghost var partial: seq<ReplyObject>
    ghost var tree: set<ReplyObject>

    ghost predicate BufferOk()
      reads this, buf, if buf == null then {} else {buf.buf}
    {
      buf != null && buf.Valid() && pos <= len == buf.len
    }

    ghost predicate ObjectsOk()
      reads this, partial, tree
    {
      Building(frames, partial, tree)
    }

    ghost predicate StackOk()
      reads this, rstack
    {
      && Mirrors(rstack[..], frames, partial)
      && (ridx == |frames| || (ridx == -1 && frames == []))
      && (ridx >= 0 ==> rstack[0].parent == -1)
    }

    ghost predicate TopOk()
      reads this, rstack
      requires rstack.Length == STACK_SIZE && -1 <= ridx < STACK_SIZE
    {
      ridx >= 0 ==>
        && (rstack[ridx].typ < 0 || KindOfType(rstack[ridx].typ).Some?)
        && !(ridx == MAX_LEVELS && rstack[ridx].typ == REPLY_ARRAY)
    }

    /** Everything but the buffer. */
    ghost predicate Core()
      reads this, rstack, partial, tree
    {
      StackOk() && ObjectsOk() && TopOk() && (|frames| > 0 ==> reply == partial[0])
    }

    ghost predicate Valid()
      reads this, rstack, partial, tree, buf, if buf == null then {} else {buf.buf}
    {
      && Core()
      && (if err == 0 then BufferOk() else buf == null && ridx == -1)
    }

    ghost function Unread(): bytes
      requires BufferOk()
      reads this, buf, if buf == null then {} else {buf.buf}
    {
      buf.buf[pos..len]
    }

    ghost function TopKind(): Option<Kind>
      requires rstack.Length == STACK_SIZE && -1 <= ridx < STACK_SIZE
      reads this, rstack
    {
      if ridx >= 0 then KindOfType(rstack[ridx].typ) else None
    }

    /** The state these fields stand for. */
    ghost function State(): (r: M.Reader)
      requires Valid()
      reads this, rstack, partial, tree, buf, if buf == null then {} else {buf.buf}
      ensures M.Wf(r)
    {
      if err == LOST then M.Reader.Lost
      else if err != 0 then M.Failed
      else M.Reading(frames, TopKind(), Unread())
    }

    /** redisReaderCreateWithFunctions. */
    constructor ()
      ensures Valid() && State() == M.FRESH
      ensures fresh(rstack) && fresh(buf) && fresh(buf.buf) && partial == []
    {
      err := 0;
      var empty := new Sds.String([]);
      buf := empty;
      pos, len, maxbuf := 0, 0, READER_MAX_BUF;
      rstack := new Task[STACK_SIZE](_ => Task(0, 0, 0, null, -1));
      ridx := -1;
      reply := null;
      frames, partial, tree := [], [], {};
    }

    /** __redisReaderSetError, and what stands for the end of a program that is lost. */
    method SetError(kind: int)
      requires rstack.Length == STACK_SIZE && kind != 0
      modifies this
      ensures Valid() && err == kind && partial == []
      ensures State() == if kind == LOST then M.Reader.Lost else M.Failed
    {
      reply := null;
      buf := null;
      pos, len := 0, 0;
      ridx := -1;
      err := kind;
      frames, partial, tree := [], [], {};
    }

    /** The innermost array is now worth what its children are. */
    static ghost method Complete(frames: seq<M.Frame>, partial: seq<ReplyObject>, tree: set<ReplyObject>,
                                 obj: ReplyObject)
      requires 0 < |frames| && Building(frames, partial, tree) && Delivering(frames, partial, tree, obj)
      requires |frames[|frames| - 1].items| + 1 == frames[|frames| - 1].count
      modifies {partial[|frames| - 1]}`value
      ensures var k := |frames| - 1;
        && Building(frames[..k], partial[..k], tree + {partial[k]})
        && Delivering(frames[..k], partial[..k], tree + {partial[k]}, partial[k])
        && partial[k].value == Array(frames[k].items + [old(obj.value)])
    {
      var k := |frames| - 1;
      assert Filling(frames[k], partial[k], tree);
      partial[k].value := Array(frames[k].items + [obj.value]);
      assert partial[k].Complete(tree + {partial[k]});
      CloseLast(frames, partial, tree);
    }

    /** The innermost object moves from the ones under construction to the complete ones. */
    method Retire(ghost done: ReplyObject)
      requires StackOk() && ridx > 0 && |partial| == |frames|
      requires Building(frames[..ridx - 1], partial[..ridx - 1], tree + {done})
      requires Delivering(frames[..ridx - 1], partial[..ridx - 1], tree + {done}, done)
      modifies this`ridx, this`frames, this`partial, this`tree
      ensures StackOk() && ObjectsOk() && Delivering(frames, partial, tree, done)
      ensures ridx == old(ridx) - 1 && frames == old(frames[..ridx - 1]) && partial == old(partial[..ridx - 1])
    {
      ridx := ridx - 1;
      frames, partial, tree := frames[..ridx], partial[..ridx], tree + {done};
    }

    /** The innermost array has its last child: it becomes a finished object in its own right. */
    method PopTask(ghost obj: ReplyObject) returns (ghost done: ReplyObject)
      requires StackOk() && ObjectsOk() && Delivering(frames, partial, tree, obj) && ridx > 0
      requires |frames[ridx - 1].items| + 1 == frames[ridx - 1].count
      modifies this`ridx, this`frames, this`partial, this`tree, {partial[ridx - 1]}`value
      ensures StackOk() && ObjectsOk() && Delivering(frames, partial, tree, done)
      ensures ridx == old(ridx) - 1 && frames == old(frames[..ridx - 1]) && partial == old(partial[..ridx - 1])
      ensures done == old(partial[ridx - 1]) && done.value == Array(old(frames[ridx - 1].items) + [old(obj.value)])
    {
      done := partial[ridx - 1];
      Complete(frames, partial, tree, obj);
      Retire(done);
    }

    /** The innermost array waits for its next child. */
    method NextTask(ghost obj: ReplyObject)
      requires StackOk() && ObjectsOk() && Delivering(frames, partial, tree, obj) && ridx > 0
      requires |frames[ridx - 1].items| + 1 < frames[ridx - 1].count
      modifies this`frames, rstack
      ensures StackOk() && ObjectsOk()
      ensures rstack[ridx].typ == -1
      ensures var f := old(frames[ridx - 1]);
        frames == old(frames[..ridx - 1]) + [M.Frame(f.count, f.items + [old(obj.value)])]
    {
      ghost var k := ridx - 1;
      FillSlot(frames, partial, tree, obj);
      assert TaskMirrors(rstack[..][k], rstack[..][k + 1], k, frames[k], partial[k]);
      var cur := rstack[ridx];
      rstack[ridx] := cur.(typ := -1, elements := -1, idx := cur.idx + 1);
      frames := frames[..k] + [M.Frame(frames[k].count, frames[k].items + [obj.value])];
      assert rstack[..] == old(rstack[..])[ridx := rstack[ridx]];
    }

    /** Whether the task on top is the last child of its parent; the assertions are the source's. */
    method AtLastChild() returns (last: bool)
      requires StackOk() && ObjectsOk() && ridx > 0 && M.Open(frames[ridx - 1])
      ensures last <==> |frames[ridx - 1].items| + 1 == frames[ridx - 1].count
      ensures |frames[ridx - 1].items| < frames[ridx - 1].count
    {
      var cur, prv := rstack[ridx], rstack[ridx - 1];
      assert TaskMirrors(rstack[..][ridx - 1], rstack[..][ridx], ridx - 1, frames[ridx - 1], partial[ridx - 1]);
      assert Filling(frames[ridx - 1], partial[ridx - 1], tree);
      assert prv.typ == REPLY_ARRAY;
      last := cur.idx == prv.elements - 1;
      assert last || cur.idx < prv.elements;
    }

    /** One turn of the loop of moveToNextTask: closes the innermost array, or stops in it. */
    method StepOut(ghost obj: ReplyObject) returns (ghost next: ReplyObject, closed: bool)
      requires StackOk() && ObjectsOk() && Delivering(frames, partial, tree, obj) && ridx > 0
      modifies this`ridx, this`frames, this`partial, this`tree, rstack, partial
      ensures StackOk() && ObjectsOk()
      ensures closed ==>
                && Delivering(frames, partial, tree, next)
                && ridx == old(ridx) - 1 && partial == old(partial[..ridx - 1]) && next == old(partial[ridx - 1])
                && M.Deliver(frames, next.value) == M.Deliver(old(frames), old(obj.value))
      ensures !closed ==>
                && ridx == old(ridx) && partial == old(partial) && rstack[ridx].typ == -1
                && M.Deliver(old(frames), old(obj.value)) == M.Inside(frames)
    {
      next := obj;
      closed := AtLastChild();
      M.DeliverStep(frames, obj.value);
      if closed {
        next := PopTask(obj);
      } else {
        NextTask(obj);
      }
    }

    /** The root itself is complete: the stack is empty. */
    method LeaveRoot(ghost root: ReplyObject)
      requires StackOk() && ObjectsOk() && Delivering(frames, partial, tree, root) && ridx == 0
      modifies this`ridx
      ensures StackOk() && ObjectsOk() && root in tree && ridx == -1
    {
      ridx := ridx - 1;
    }

    /** moveToNextTask: closes every array that obj completes. */
    method MoveToNextTask(ghost obj: ReplyObject) returns (ghost root: ReplyObject)
      requires StackOk() && ObjectsOk() && Delivering(frames, partial, tree, obj) && ridx >= 0
      modifies this`ridx, this`frames, this`partial, this`tree, rstack, partial
      ensures StackOk() && ObjectsOk()
      ensures |partial| <= |old(partial)| && partial == old(partial)[..|partial|]
      ensures match M.Deliver(old(frames), old(obj.value))
        case Root(r) => ridx == -1 && frames == [] && root in tree && root.value == r &&
                        root == (if old(frames) == [] then obj else old(partial)[0])
        case Inside(fs) => ridx >= 0 && frames == fs && rstack[ridx].typ == -1
    {
      root := obj;
      while ridx >= 0
        invariant StackOk() && ObjectsOk() && Delivering(frames, partial, tree, root)
        invariant 0 <= ridx <= |old(partial)| && partial == old(partial)[..ridx]
        invariant M.Deliver(frames, root.value) == M.Deliver(old(frames), old(obj.value))
        invariant root == if ridx == |old(partial)| then obj else old(partial)[ridx]
        decreases ridx
      {
        if ridx == 0 {
          LeaveRoot(root);
          return;
        }
        var closed;
        root, closed := StepOut(root);
        if !closed {
          return;
        }
      }
    }

    // -------------------------------------------------------------- creating objects

    /** The task on top is the one a reply is created for. */
    ghost predicate Ready()
      reads this, rstack, partial, tree
    {
      StackOk() && ObjectsOk() && ridx >= 0
    }

    /** Whether the parent of the task on top has a vector for its children. */
    method HasSlot() returns (yes: bool)
      requires StackOk() && ObjectsOk() && ridx >= 0
      ensures yes <==> !M.NoVector(frames)
    {
      if ridx > 0 {
        ghost var k := ridx - 1;
        assert Filling(frames[k], partial[k], tree);
        assert TaskMirrors(rstack[..][k], rstack[..][k + 1], k, frames[k], partial[k]);
      }
      var task := rstack[ridx];
      yes := task.parent < 0 || rstack[task.parent].obj.element != [];
    }

    /** createStringObject, createIntegerObject, createNilObject, and createArrayObject without
        children: a complete object, linked into its parent's slot. */
    method CreateComplete(obj: ReplyObject)
      requires Ready() && !M.NoVector(frames) && obj !in tree && obj !in partial && obj.Complete(tree)
      modifies this`tree, this`reply, partial
      ensures Ready() && Delivering(frames, partial, tree, obj) && tree == old(tree) + {obj}
      ensures obj.value == old(obj.value) && reply == if ridx == 0 then obj else old(reply)
    {
      Attach(obj);
      if ridx == 0 {
        reply := obj;
      }
      GrowTree(frames, partial, tree, obj);
      tree := tree + {obj};
    }

    /** What the create functions share: the new object goes into its slot of the parent's vector. */
    method Attach(obj: ReplyObject)
      requires Ready() && !M.NoVector(frames) && obj !in tree && obj !in partial
      modifies partial
      ensures Ready() && (|frames| > 0 ==> NextSlot(frames[|frames| - 1], partial[|frames| - 1], obj))
      ensures forall o :: o in partial ==> o.value == old(o.value)
    {
      var task := rstack[ridx];
      if ridx > 0 {
        ghost var k := ridx - 1;
        assert Filling(frames[k], partial[k], tree);
        assert TaskMirrors(rstack[..][k], rstack[..][k + 1], k, frames[k], partial[k]);
      }
      if task.parent >= 0 {
        var parent := rstack[task.parent].obj;
        assert parent.typ == REPLY_ARRAY;
        parent.element := parent.element[task.idx := obj];
        assert AllComplete(tree);
        forall i | 0 <= i < |frames|
          ensures Filling(frames[i], partial[i], tree)
        {
          assert old(Filling(frames[i], partial[i], tree));
        }
        forall i | 0 < i < |frames|
          ensures NextSlot(frames[i - 1], partial[i - 1], partial[i])
        {
          assert old(NextSlot(frames[i - 1], partial[i - 1], partial[i]));
        }
      }
    }

    // -------------------------------------------------------------- items

    /** What processing one item in the situation s leaves behind. */
    ghost predicate Took(before: seq<M.Frame>, s: M.Stepped, rc: int)
      reads this, rstack, tree, buf, if buf == null then {} else {buf.buf}
    {
      match s
      case Broken => rc == REDIS_ERR && err == REDIS_ERR_PROTOCOL
      case Astray => rc == REDIS_ERR && err == LOST
      case Moved(fs, rest) => rc == REDIS_OK && Now(fs, None, rest)
      case Waiting(kind, rest) => rc == REDIS_ERR && Now(before, kind, rest)
      case Finished(r, rest) =>
        && rc == REDIS_OK && err == 0 && ridx == -1 && BufferOk() && Unread() == rest
        && frames == [] && reply != null && reply in tree && reply.value == r
    }

    /** Still inside a reply, in the state Reading(fs, kind, rest). */
    ghost predicate Now(fs: seq<M.Frame>, kind: Option<Kind>, rest: bytes)
      reads this, rstack, buf, if buf == null then {} else {buf.buf}
    {
      && err == 0 && 0 <= ridx < STACK_SIZE == rstack.Length && BufferOk()
      && frames == fs && TopKind() == kind && Unread() == rest
    }

    /** The object obj of the current item is in its place: close what it completes. */
    method Advance(obj: ReplyObject)
      requires StackOk() && ObjectsOk() && Delivering(frames, partial, tree, obj) && ridx >= 0
      requires reply == if frames == [] then obj else partial[0]
      modifies this`ridx, this`frames, this`partial, this`tree, rstack, partial
      ensures Core()
      ensures |partial| <= |old(partial)| && partial == old(partial)[..|partial|]
      ensures match M.Deliver(old(frames), old(obj.value))
        case Root(r) => ridx == -1 && frames == [] && reply != null && reply in tree && reply.value == r
        case Inside(fs) => ridx >= 0 && frames == fs && TopKind() == None
    {
      ghost var root := MoveToNextTask(obj);
    }

    /** A complete object for the current item: link it, make it the reply at the root, and move on. */
    method FinishItem(obj: ReplyObject)
      requires Core() && ridx >= 0 && !M.NoVector(frames)
      requires obj !in tree && obj !in partial && obj.Complete(tree)
      modifies this`ridx, this`frames, this`partial, this`tree, this`reply, rstack, partial
      ensures Core()
      ensures |partial| <= |old(partial)| && partial == old(partial)[..|partial|]
      ensures match M.Deliver(old(frames), old(obj.value))
        case Root(r) => ridx == -1 && frames == [] && reply != null && reply in tree && reply.value == r
        case Inside(fs) => ridx >= 0 && frames == fs && TopKind() == None
    {
      CreateComplete(obj);
      Advance(obj);
    }

    /** readLine: the position of the line and its length, or -1; skips the CRLF. */
    method ReadLine() returns (p: int, n: nat)
      requires BufferOk()
      modifies this`pos
      ensures BufferOk()
      ensures var nl := Newline(old(Unread()));
        if nl == -1 then p == -1 && pos == old(pos)
        else
          && p == old(pos) && n == nl && Unread() == old(Unread())[nl + 2..]
          && buf.buf[p..len] == old(Unread()) && buf.buf[p..p + n] == old(Unread())[..n]
    {
      var s := SeekNewline(buf.buf, pos, len - pos);
      if s != -1 {
        p, n := pos, s;
        Slices(buf.buf[..], pos, len, 0, n);
        Slices(buf.buf[..], pos, len, n + 2, len - pos);
        pos := pos + n + 2;
      } else {
        p, n := -1, 0;
      }
    }

    /** readLongLong at a position whose line is complete. */
    method NumberAt(p: nat) returns (v: int)
      requires buf != null && buf.Valid() && p <= len == buf.len && CR in buf.buf[p..len]
      ensures v == Number(buf.buf[p..len])
    {
      assert buf.buf[p..] == buf.buf[p..len] + buf.buf[len..];
      NumberLocal(buf.buf[p..len], buf.buf[len..]);
      v := ReadLongLong(buf.buf, p);
    }

    /** The object for a line of type typ at position p, n bytes long. */
    method NewLineObject(typ: int, p: nat, n: nat) returns (obj: ReplyObject)
      requires KindOfType(typ) in {Some(KInteger), Some(KStatus), Some(KError)}
      requires buf != null && buf.Valid() && p + n <= len == buf.len && CR in buf.buf[p..len]
      ensures fresh(obj) && obj.Complete({})
      ensures obj.value == match KindOfType(typ).value
                           case KInteger => Integer(Number(buf.buf[p..len]))
                           case KStatus => Status(buf.buf[p..p + n])
                           case _ => Error(buf.buf[p..p + n])
    {
      obj := new ReplyObject(typ);
      if typ == REPLY_INTEGER {
        var v := NumberAt(p);
        obj.integer := v;
        obj.value := Integer(v);
      } else {
        obj.str := buf.buf[p..p + n];
        obj.value := if typ == REPLY_STATUS then Status(obj.str) else Error(obj.str);
      }
    }

    /** FinishItem for a leaf that ReadBody finds at the start of u. */
    method FinishLeaf(obj: ReplyObject, ghost kind: Kind, ghost u: bytes, ghost used: nat)
      requires Valid() && err == 0 && ridx >= 0 && !M.NoVector(frames)
      requires obj !in tree && obj !in partial && obj.Complete(tree)
      requires ReadBody(kind, |frames|, u) == Leaf(obj.value, used) && Unread() == u[used..]
      modifies this`ridx, this`frames, this`partial, this`tree, this`reply, rstack, partial
      ensures Valid() && Took(old(frames), M.Typed(old(frames), kind, u), REDIS_OK)
      ensures |partial| <= |old(partial)| && partial == old(partial)[..|partial|]
    {
      FinishItem(obj);
    }

    /** The end of processLineItem and processBulkItem: there is an object for the item, or bytes are missing. */
    method FinishOrWait(obj: ReplyObject?, ghost kind: Kind, ghost u: bytes, ghost used: nat) returns (rc: int)
      requires Valid() && err == 0 && ridx >= 0 && TopKind() == Some(kind) && kind != KArray
      requires match ReadBody(kind, |frames|, u)
        case Leaf(r, n) =>
          && obj != null && obj !in tree && obj !in partial && obj.Complete(tree) && obj.value == r
          && used == n && Unread() == u[n..]
        case _ => obj == null && Unread() == u
      modifies this, rstack, partial
      ensures Valid() && Took(old(frames), M.Typed(old(frames), kind, u), rc)
      ensures err == 0 ==> buf == old(buf)
      ensures |partial| <= |old(partial)| && partial == old(partial)[..|partial|]
    {
      if obj == null {
        return REDIS_ERR;
      }
      var slot := HasSlot();
      if !slot {
        SetError(LOST);
        return REDIS_ERR;
      }
      FinishLeaf(obj, kind, u, used);
      return REDIS_OK;
    }

    /** The object for the line item at pos, when its line is complete. */
    method ReadLineItem(typ: int, ghost kind: Kind) returns (obj: ReplyObject?, ghost used: nat)
      requires BufferOk() && KindOfType(typ) == Some(kind) && kind in {KInteger, KStatus, KError}
      modifies this`pos
      ensures BufferOk()
      ensures match ReadBody(kind, 0, old(Unread()))
        case Leaf(r, n) =>
          && obj != null && fresh(obj) && obj.Complete({}) && obj.value == r
          && used == n && Unread() == old(Unread())[n..]
        case _ => obj == null && Unread() == old(Unread())
    {
      obj, used := null, 0;
      var p, n := ReadLine();
      if p != -1 {
        obj := NewLineObject(typ, p, n);
        used := n + 2;
      }
    }

    /** processLineItem. */
    method ProcessLineItem(ghost kind: Kind) returns (rc: int)
      requires Valid() && err == 0 && ridx >= 0
      requires TopKind() == Some(kind) && kind in {KInteger, KStatus, KError}
      modifies this, rstack, partial
      ensures Valid()
      ensures Took(old(frames), M.Typed(old(frames), kind, old(Unread())), rc)
      ensures err == 0 ==> buf == old(buf)
      ensures forall o :: o in partial ==> o in old(partial)
    {
      ghost var u := Unread();
      var obj, used := ReadLineItem(rstack[ridx].typ, kind);
      rc := FinishOrWait(obj, kind, u, used);
    }

    /** n bytes of the unread data, from off on. */
    method TextAt(off: nat, n: nat) returns (text: bytes)
      requires BufferOk() && off + n <= len - pos
      ensures text == Unread()[off..off + n]
    {
      Slices(buf.buf[..], pos, len, off, off + n);
      text := buf.buf[pos + off..pos + off + n];
    }

    /** Moves on by n bytes. */
    method Skip(n: nat)
      requires BufferOk() && n <= len - pos
      modifies this`pos
      ensures BufferOk() && Unread() == old(Unread())[n..]
    {
      Slices(buf.buf[..], pos, len, n, len - pos);
      pos := pos + n;
    }

    /** The object for a bulk string of n bytes behind a header of s + 2, when all of it is there. */
    method ReadText(s: nat, n: nat) returns (obj: ReplyObject?)
      requires BufferOk() && s + 2 <= len - pos
      modifies this`pos
      ensures BufferOk()
      ensures if s + 2 + n + 2 <= |old(Unread())|
              then
                && obj != null && fresh(obj) && obj.Complete({}) && obj.value == Str(old(Unread())[s + 2..s + 2 + n])
                && Unread() == old(Unread())[s + 2 + n + 2..]
              else obj == null && Unread() == old(Unread())
    {
      obj := null;
      var bytelen := s + 2 + n + 2;
      if pos + bytelen <= len {
        var text := TextAt(s + 2, n);
        obj := new ReplyObject(REPLY_STRING);
        obj.str, obj.value := text, Str(text);
        Skip(bytelen);
      }
    }

    /** createNilObject, as far as the object itself goes. */
    static method NewNil() returns (obj: ReplyObject)
      ensures fresh(obj) && obj.Complete({}) && obj.value == Nil
    {
      obj := new ReplyObject(REPLY_NIL);
      obj.value := Nil;
    }

    /** The object for the bulk item at pos, when all of it is there. */
    method ReadBulk() returns (obj: ReplyObject?, ghost used: nat)
      requires BufferOk()
      modifies this`pos
      ensures BufferOk()
      ensures match ReadBody(KString, 0, old(Unread()))
        case Leaf(r, n) =>
          && obj != null && fresh(obj) && obj.Complete({}) && obj.value == r
          && used == n && Unread() == old(Unread())[n..]
        case _ => obj == null && Unread() == old(Unread())
    {
      obj, used := null, 0;
      var s := SeekNewline(buf.buf, pos, len - pos);
      if s != -1 {
        var n := NumberAt(pos);
        if n < 0 {
          obj := NewNil();
          used := s + 2;
          Skip(s + 2);
        } else {
          obj := ReadText(s, n);
          used := s + 2 + n + 2;
        }
      }
    }

    /** processBulkItem. */
    method ProcessBulkItem() returns (rc: int)
      requires Valid() && err == 0 && ridx >= 0 && TopKind() == Some(KString)
      modifies this, rstack, partial
      ensures Valid()
      ensures Took(old(frames), M.Typed(old(frames), KString, old(Unread())), rc)
      ensures err == 0 ==> buf == old(buf)
      ensures forall o :: o in partial ==> o in old(partial)
    {
      ghost var u := Unread();
      BulkIgnoresLevel(|frames|, u);
      var obj, used := ReadBulk();
      rc := FinishOrWait(obj, KString, u, used);
    }

    /** An array object with a vector of NULL slots, if there are to be any. */
    static method NewArray(count: int) returns (obj: ReplyObject)
      ensures fresh(obj) && obj.typ == REPLY_ARRAY && obj.elements == count
      ensures |obj.element| == (if count > 0 then count else 0)
      ensures forall i :: 0 <= i < |obj.element| ==> obj.element[i] == null
    {
      obj := new ReplyObject(REPLY_ARRAY);
      obj.elements := count;
      if count > 0 {
        obj.element := seq(count, _ => null);
      }
    }

    /** createArrayObject with children to come. */
    method CreateArray(count: int) returns (obj: ReplyObject)
      requires Ready() && !M.NoVector(frames)
      modifies partial
      ensures Ready() && fresh(obj) && obj !in tree && obj !in partial
      ensures Filling(M.Frame(count, []), obj, tree)
      ensures |frames| > 0 ==> NextSlot(frames[|frames| - 1], partial[|frames| - 1], obj)
    {
      obj := NewArray(count);
      Attach(obj);
    }

    /** The stack and the objects have one more open array than the frames say. */
    ghost method Extend(count: int, obj: ReplyObject)
      requires rstack.Length == STACK_SIZE && ridx == |frames| + 1 && rstack[0].parent == -1
      requires Mirrors(rstack[..], frames + [M.Frame(count, [])], partial + [obj])
      requires Building(frames + [M.Frame(count, [])], partial + [obj], tree)
      modifies this`frames, this`partial
      ensures Ready() && frames == old(frames) + [M.Frame(count, [])] && partial == old(partial) + [obj]
    {
      frames, partial := frames + [M.Frame(count, [])], partial + [obj];
    }

    /** The task on top gets its object and its count, and a task for the first child goes above it. */
    method WriteTasks(count: int, obj: ReplyObject)
      requires rstack.Length == STACK_SIZE && 0 <= ridx < MAX_LEVELS
      modifies this`ridx, rstack
      ensures ridx == old(ridx) + 1
      ensures rstack[..] == old(rstack[..][ridx := rstack[ridx].(elements := count, obj := obj)]
                                          [ridx + 1 := Task(-1, -1, 0, null, ridx)])
    {
      var cur := ridx;
      rstack[cur] := rstack[cur].(elements := count, obj := obj);
      ridx := ridx + 1;
      rstack[ridx] := Task(-1, -1, 0, null, cur);
    }

    /** The push of a task for the first child of obj. */
    method PushTask(count: int, obj: ReplyObject)
      requires Ready() && ridx < MAX_LEVELS && rstack[ridx].typ == REPLY_ARRAY
      requires obj !in tree && obj !in partial && Filling(M.Frame(count, []), obj, tree)
      requires |frames| > 0 ==> NextSlot(frames[|frames| - 1], partial[|frames| - 1], obj)
      modifies this`ridx, this`frames, this`partial, rstack
      ensures Ready() && ridx == old(ridx) + 1 && rstack[ridx].typ == -1
      ensures frames == old(frames) + [M.Frame(count, [])] && partial == old(partial) + [obj]
    {
      OpenBuilding(frames, partial, tree, count, obj);
      WriteTasks(count, obj);
      OpenMirrors(old(rstack[..]), rstack[..], frames, partial, count, obj);
      Extend(count, obj);
    }

    /** processMultiBulkItem when the header announces children. */
    method OpenArray(count: int)
      requires Core() && 0 <= ridx < MAX_LEVELS && rstack[ridx].typ == REPLY_ARRAY && !M.NoVector(frames)
      modifies this`ridx, this`frames, this`partial, this`reply, rstack, partial
      ensures Core() && ridx == old(ridx) + 1 && rstack[ridx].typ == -1
      ensures frames == old(frames) + [M.Frame(count, [])]
      ensures forall o :: o in partial ==> o in old(partial) || fresh(o)
    {
      var root := ridx == 0;
      var obj := CreateArray(count);
      PushTask(count, obj);
      if root {
        reply := obj;
      }
    }

    /** In the middle of a reply, with the type of the current item just read. */
    ghost predicate Started()
      reads this, rstack, partial, tree, buf, if buf == null then {} else {buf.buf}
    {
      && StackOk() && ObjectsOk() && (|frames| > 0 ==> reply == partial[0])
      && err == 0 && BufferOk() && ridx >= 0
    }

    /** The object for an array header without children to come. */
    method NewHeaderObject(elements: int) returns (obj: ReplyObject)
      requires elements <= 0
      ensures fresh(obj) && obj.Complete({})
      ensures obj.value == if elements == -1 then Nil else Childless(ToInt(elements))
    {
      if elements == -1 {
        obj := NewNil();
      } else {
        obj := NewArray(ToInt(elements));
        obj.value := Childless(ToInt(elements));
      }
    }

    /** processMultiBulkItem once the count has been read and a slot is there. The test for children is
        on the count itself, the object and the task get it as an int. */
    method TakeHeader(elements: int, ghost u: bytes, ghost used: nat)
      requires Valid() && err == 0 && 0 <= ridx < MAX_LEVELS && rstack[ridx].typ == REPLY_ARRAY
      requires !M.NoVector(frames)
      requires ReadBody(KArray, |frames|, u) ==
               if elements > 0 then Header(ToInt(elements), used)
               else Leaf(if elements == -1 then Nil else Childless(ToInt(elements)), used)
      requires Unread() == u[used..]
      modifies this`ridx, this`frames, this`partial, this`tree, this`reply, rstack, partial
      ensures Valid()
      ensures Took(old(frames), M.Typed(old(frames), KArray, u), REDIS_OK)
      ensures forall o :: o in partial ==> o in old(partial) || fresh(o)
    {
      if elements > 0 {
        OpenArray(ToInt(elements));
      } else {
        var obj := NewHeaderObject(elements);
        FinishLeaf(obj, KArray, u, used);
      }
    }

    /** What processMultiBulkItem does with a count: its object needs a slot first of all. */
    method StoreHeader(elements: int, ghost u: bytes, ghost used: nat) returns (rc: int)
      requires Valid() && err == 0 && 0 <= ridx < MAX_LEVELS && rstack[ridx].typ == REPLY_ARRAY
      requires ReadBody(KArray, |frames|, u) ==
               if elements > 0 then Header(ToInt(elements), used)
               else Leaf(if elements == -1 then Nil else Childless(ToInt(elements)), used)
      requires Unread() == u[used..]
      modifies this, rstack, partial
      ensures Valid()
      ensures Took(old(frames), M.Typed(old(frames), KArray, u), rc)
      ensures err == 0 ==> buf == old(buf)
      ensures forall o :: o in partial ==> o in old(partial) || fresh(o)
    {
      var slot := HasSlot();
      if !slot {
        SetError(LOST);
        return REDIS_ERR;
      }
      TakeHeader(elements, u, used);
      return REDIS_OK;
    }

    /** The count in the header of an array, when its line is complete. */
    method ReadCount() returns (found: bool, elements: int, ghost used: nat)
      requires BufferOk()
      modifies this`pos
      ensures BufferOk() && (found <==> Newline(old(Unread())) != -1)
      ensures if found
              then
                && elements == Number(old(Unread())) && used == Newline(old(Unread())) + 2
                && Unread() == old(Unread())[used..]
              else Unread() == old(Unread())
    {
      var p, n := ReadLine();
      found, elements, used := p != -1, 0, 0;
      if found {
        elements := NumberAt(p);
        used := n + 2;
      }
    }

    /** processMultiBulkItem. */
    method ProcessMultiBulkItem() returns (rc: int)
      requires Started() && rstack[ridx].typ == REPLY_ARRAY
      modifies this, rstack, partial
      ensures Valid()
      ensures Took(old(frames), M.Typed(old(frames), KArray, old(Unread())), rc)
      ensures err == 0 ==> buf == old(buf)
      ensures forall o :: o in partial ==> o in old(partial) || fresh(o)
    {
      if ridx == 8 {
        SetError(REDIS_ERR_PROTOCOL);
        return REDIS_ERR;
      }
      ghost var u := Unread();
      var found, elements; ghost var used;
      found, elements, used := ReadCount();
      if !found {
        return REDIS_ERR;
      }
      rc := StoreHeader(elements, u, used);
    }

    /** The switch on the type byte; 0 stands for its error branch. */
    static method TypeOfByte(b: byte) returns (typ: int)
      ensures KindOfType(typ) == KindOf(b) && (typ > 0 <==> KindOf(b).Some?)
    {
      if b == MINUS { typ := REPLY_ERROR; }
      else if b == PLUS { typ := REPLY_STATUS; }
      else if b == COLON { typ := REPLY_INTEGER; }
      else if b == DOLLAR { typ := REPLY_STRING; }
      else if b == STAR { typ := REPLY_ARRAY; }
      else { typ := 0; }
    }

    /** The second half of processItem: the type is known. */
    method ProcessTyped(ghost kind: Kind) returns (rc: int)
      requires Started() && TopKind() == Some(kind)
      modifies this, rstack, partial
      ensures Valid()
      ensures Took(old(frames), M.Typed(old(frames), kind, old(Unread())), rc)
      ensures err == 0 ==> buf == old(buf)
      ensures forall o :: o in partial ==> o in old(partial) || fresh(o)
    {
      var typ := rstack[ridx].typ;
      if typ == REPLY_ERROR || typ == REPLY_STATUS || typ == REPLY_INTEGER {
        rc := ProcessLineItem(kind);
      } else if typ == REPLY_STRING {
        rc := ProcessBulkItem();
      } else {
        assert typ == REPLY_ARRAY;
        rc := ProcessMultiBulkItem();
      }
    }

    /** Stores the type of the item at the top of the stack. */
    method SetType(typ: int)
      requires Started() && rstack[ridx].typ < 0 && KindOfType(typ).Some?
      modifies rstack
      ensures Started() && TopKind() == KindOfType(typ)
    {
      rstack[ridx] := rstack[ridx].(typ := typ);
      forall i | 0 <= i < |frames|
        ensures TaskMirrors(rstack[..][i], rstack[..][i + 1], i, frames[i], partial[i])
      {
        assert TaskMirrors(old(rstack[..][i]), old(rstack[..][i + 1]), i, frames[i], partial[i]);
      }
    }

    /** readBytes(1) and the type switch; typ is 0 for an unknown byte. */
    method ReadType() returns (typ: int)
      requires Started() && rstack[ridx].typ < 0 && pos < len
      modifies this`pos, rstack
      ensures KindOfType(typ) == KindOf(old(Unread())[0]) && (typ > 0 <==> KindOf(old(Unread())[0]).Some?)
      ensures typ > 0 ==> Started() && TopKind() == KindOfType(typ) && Unread() == old(Unread())[1..]
    {
      ghost var u := Unread();
      var b := buf.buf[pos];
      pos := pos + 1;
      assert Unread() == u[1..] && b == u[0];
      typ := TypeOfByte(b);
      if typ > 0 {
        SetType(typ);
      }
    }

    /** processItem. */
    method ProcessItem() returns (rc: int, ghost s: M.Stepped)
      requires Valid() && err == 0 && ridx >= 0
      modifies this, rstack, partial
      ensures Valid()
      ensures s == old(M.Item(frames, TopKind(), Unread())) && Took(old(frames), s, rc)
      ensures err == 0 ==> buf == old(buf)
      ensures forall o :: o in partial ==> o in old(partial) || fresh(o)
    {
      if rstack[ridx].typ < 0 {
        if len - pos < 1 {
          return REDIS_ERR, M.Waiting(None, []);
        }
        ghost var u := Unread();
        var typ := ReadType();
        if typ <= 0 {
          SetError(REDIS_ERR_PROTOCOL);
          return REDIS_ERR, M.Broken;
        }
        ghost var kind := KindOf(u[0]).value;
        s := M.Typed(frames, kind, u[1..]);
        rc := ProcessTyped(kind);
      } else {
        ghost var kind := TopKind().value;
        s := M.Typed(frames, kind, Unread());
        rc := ProcessTyped(kind);
      }
    }

    // -------------------------------------------------------------- the public calls

    /** The buffer side of redisReaderFeed. */
    method Append(chunk: bytes)
      requires BufferOk() && |chunk| >= 1
      modifies this`buf, this`len, this`pos, buf, buf.buf
      ensures BufferOk() && Unread() == old(Unread()) + chunk
      ensures buf == old(buf) || fresh(buf)
      ensures buf.buf == old(buf.buf) || fresh(buf.buf)
    {
      ghost var u := Unread();
      if len == 0 && maxbuf != 0 && buf.free > maxbuf {
        buf := new Sds.String([]);
        pos := 0;
      }
      assert buf.Contents()[pos..] == u;
      ghost var c := buf.Contents();
      buf.CatLen(chunk);
      len := buf.len;
      assert Unread() == buf.Contents()[pos..] == (c + chunk)[pos..];
    }

    /** redisReaderFeed. */
    method Feed(chunk: bytes) returns (rc: int)
      requires Valid()
      modifies this`buf, this`len, this`pos, buf, if buf == null then {} else {buf.buf}
      ensures Valid() && State() == M.Feed(old(State()), chunk)
      ensures rc == if err == 0 then REDIS_OK else REDIS_ERR
      ensures err == 0 ==> (buf == old(buf) || fresh(buf)) && (buf.buf == old(buf.buf) || fresh(buf.buf))
    {
      if err != 0 {
        return REDIS_ERR;
      }
      if |chunk| >= 1 {
        Append(chunk);
      } else {
        assert Unread() + chunk == Unread();
      }
      return REDIS_OK;
    }

    /** Along the loop of redisReaderGetReply: the reply is out, or the rest of the work gives what
        the whole of it does. */
    ghost predicate Underway(start: M.Reader)
      requires M.Wf(start)
      reads this, rstack, partial, tree, buf, if buf == null then {} else {buf.buf}
    {
      && Valid() && err == 0
      && (ridx >= 0 ==> M.GetReply(start) == M.GetReply(State()))
      && (ridx == -1 ==> reply != null && reply in tree && M.GetReply(start) == M.Emission(Some(reply.value), State()))
    }

    /** Where that loop breaks off: no reply, this time or ever. */
    ghost predicate Halted(start: M.Reader)
      requires M.Wf(start)
      reads this, rstack, partial, tree, buf, if buf == null then {} else {buf.buf}
    {
      Valid() && M.GetReply(start) == M.Emission(None, State()) && (err == 0 ==> ridx >= 0)
    }

    method GetReplyStep(ghost start: M.Reader) returns (rc: int)
      requires M.Wf(start) && Underway(start) && ridx >= 0
      modifies this, rstack, partial
      ensures if rc == REDIS_OK then Underway(start) else Halted(start)
      ensures rc == REDIS_OK ==> |Unread()| < |old(Unread())|
      ensures err == 0 ==> buf == old(buf)
      ensures forall o :: o in partial ==> o in old(partial) || fresh(o)
    {
      ghost var s;
      rc, s := ProcessItem();
    }

    /** The work of redisReaderGetReply up to the point where its loop stops. */
    method ProcessItems()
      requires Valid() && err == 0 && ridx >= 0
      modifies this, rstack, partial
      ensures M.Wf(old(State()))
      ensures if err == 0 && ridx == -1 then Underway(old(State())) else Halted(old(State()))
      ensures err == 0 ==> buf == old(buf)
      ensures forall o :: o in partial ==> o in old(partial) || fresh(o)
    {
      ghost var start := State();
      while ridx >= 0
        invariant Underway(start) && buf == old(buf)
        invariant forall o :: o in partial ==> o in old(partial) || fresh(o)
        decreases if ridx >= 0 then |Unread()| + 1 else 0
      {
        assert forall i :: 0 <= i < |partial| ==> partial[i] in old(partial) || fresh(partial[i]);
        var rc := GetReplyStep(start);
        if rc != REDIS_OK {
          break;
        }
      }
    }

    /** Discards consumed bytes once there are at least 1024 of them. */
    method Compact()
      requires Valid() && err == 0
      modifies this`pos, this`len, buf`len, buf`free, buf.buf
      ensures Valid() && State() == old(State())
    {
      if pos >= 1024 {
        Sds.SliceDrops(buf.Contents(), pos);
        buf.Range(pos, -1);
        pos := 0;
        len := buf.len;
      }
    }

    /** Pushes the root task when the stack is empty. */
    method Begin()
      requires Valid() && err == 0
      modifies this`ridx, rstack
      ensures Valid() && ridx >= 0 && State() == old(State())
    {
      if ridx == -1 {
        rstack[0] := Task(-1, -1, -1, null, -1);
        ridx := 0;
      }
    }

    /** Hands the finished reply over. */
    method Emit() returns (out: ReplyObject, ghost nodes: set<ReplyObject>)
      requires Valid() && err == 0 && ridx == -1 && reply != null && reply in tree
      modifies this`reply, this`tree
      ensures Valid() && State() == old(State())
      ensures out in nodes && AllComplete(nodes) && TreeAt(out, nodes) == old(reply.value)
    {
      out, nodes := reply, tree;
      reply, tree := null, {};
    }

    /** redisReaderGetReply between its early returns and the handing over. */
    method Work()
      requires Valid() && err == 0
      modifies this, rstack, partial, buf`len, buf`free, buf.buf
      ensures M.Wf(old(State()))
      ensures if err == 0 && ridx == -1 then Underway(old(State())) else Halted(old(State()))
      ensures err == 0 ==> buf == old(buf)
      ensures forall o :: o in partial ==> o in old(partial) || fresh(o)
    {
      Begin();
      ProcessItems();
      if err == 0 {
        Compact();
      }
    }

    /** redisReaderGetReply. A reply comes with the set of its objects, every one of them complete. */
    method GetReply() returns (rc: int, out: ReplyObject?, ghost nodes: set<ReplyObject>)
      requires Valid()
      modifies this, rstack, partial, if buf == null then {} else {buf, buf.buf}
      ensures Valid() && State() == M.GetReply(old(State())).reader
      ensures rc == if err == 0 then REDIS_OK else REDIS_ERR
      ensures match M.GetReply(old(State())).reply
        case None => out == null
        case Some(r) => out != null && out in nodes && AllComplete(nodes) && TreeAt(out, nodes) == r
      ensures err == 0 ==> buf == old(buf) && buf.buf == old(buf.buf)
      ensures forall o :: o in partial ==> o in old(partial) || fresh(o)
    {
      out, nodes := null, {};
      if err != 0 {
        return REDIS_ERR, out, nodes;
      }
      if len == 0 {
        M.NothingUnread(State());
        return REDIS_OK, out, nodes;
      }
      ghost var start := State();
      Work();
      if err != 0 {
        return REDIS_ERR, out, nodes;
      }
      if ridx == -1 {
        out, nodes := Emit();
      }
      return REDIS_OK, out, nodes;
    }

    /** One call, and the reply it comes to, if any. */
    method ServeOne(call: M.Call) returns (replies: seq<Reply>)
      requires Valid()
      modifies this, rstack, partial, if buf == null then {} else {buf, buf.buf}
      ensures Valid()
      ensures match call
        case FeedCall(chunk) => State() == M.Feed(old(State()), chunk) && replies == []
        case GetCall => M.GetReply(old(State())).reader == State() && M.Replies(M.GetReply(old(State()))) == replies
      ensures forall i :: 0 <= i < |partial| ==> partial[i] in old(partial) || fresh(partial[i])
      ensures old(buf) == null ==> buf == null
      ensures buf != null ==> (buf == old(buf) || fresh(buf)) && (buf.buf == old(buf.buf) || fresh(buf.buf))
    {
      replies := [];
      match call {
        case FeedCall(chunk) =>
          var _ := Feed(chunk);
        case GetCall =>
          var rc, out, nodes := GetReply();
          if out != null {
            replies := [TreeAt(out, nodes)];
          }
      }
    }

    /** Any calls, one after the other, and the replies they come to. */
    method Serve(calls: seq<M.Call>) returns (replies: seq<Reply>)
      requires Valid()
      modifies this, rstack, partial, if buf == null then {} else {buf, buf.buf}
      ensures Valid() && M.Drained(replies, State()) == M.Run(old(State()), calls)
      decreases |calls|
    {
      if calls == [] {
        return [];
      }
      var first := ServeOne(calls[0]);
      var others := Serve(calls[1..]);
      replies := first + others;
    }
  }

  lemma BulkIgnoresLevel(level: nat, u: bytes)
    ensures ReadBody(KString, level, u) == ReadBody(KString, 0, u)
  {
  }

  lemma OpenMirrors(before: seq<Task>, after: seq<Task>, frames: seq<M.Frame>, partial: seq<ReplyObject>,
                    count: int, obj: ReplyObject)
    requires Mirrors(before, frames, partial) && |frames| < MAX_LEVELS
    requires before[|frames|].typ == REPLY_ARRAY
    requires after == before[|frames| := before[|frames|].(elements := count, obj := obj)]
                            [|frames| + 1 := Task(-1, -1, 0, null, |frames|)]
    ensures Mirrors(after, frames + [M.Frame(count, [])], partial + [obj])
  {
    forall i | 0 <= i < |frames|
      ensures TaskMirrors(after[i], after[i + 1], i, frames[i], partial[i])
    {
      assert TaskMirrors(before[i], before[i + 1], i, frames[i], partial[i]);
    }
  }

  lemma OpenBuilding(frames: seq<M.Frame>, partial: seq<ReplyObject>, tree: set<ReplyObject>,
                     count: int, obj: ReplyObject)
    requires Building(frames, partial, tree) && |frames| < MAX_LEVELS
    requires obj !in tree && obj !in partial
    requires Filling(M.Frame(count, []), obj, tree)
    requires |frames| > 0 ==> NextSlot(frames[|frames| - 1], partial[|frames| - 1], obj)
    ensures Building(frames + [M.Frame(count, [])], partial + [obj], tree)
  {
  }

  lemma GrowTree(frames: seq<M.Frame>, partial: seq<ReplyObject>, tree: set<ReplyObject>, obj: ReplyObject)
    requires Building(frames, partial, tree) && obj !in partial && obj.Complete(tree)
    ensures Building(frames, partial, tree + {obj})
  {
    forall i | 0 <= i < |frames|
      ensures Filling(frames[i], partial[i], tree + {obj})
    {
      assert Filling(frames[i], partial[i], tree);
    }
    forall o | o in tree + {obj}
      ensures o.Complete(tree + {obj})
    {
      assert o.Complete(tree);
    }
  }
}
