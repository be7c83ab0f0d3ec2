/** redisCallbackList: a singly linked queue with pointers to both ends. */
module CallbackLists {
  import opened AsyncMachine

  /** redisCallback on the heap. */
  class Node {
    const cb: Callback
    var next: Node?

    constructor (cb: Callback)
      ensures this.cb == cb && next == null
    {
      this.cb := cb;
      next := null;
    }
  }

  class CallbackList {
    var head: Node?
    var tail: Node?
    ghost var nodes: seq<Node>
    ghost var contents: seq<Callback>
    // Every node there has been.
    ghost var all: set<Node>

    ghost predicate Valid()
      reads this, all
    {
      && (forall k :: 0 <= k < |nodes| ==> nodes[k] in all)
      && |contents| == |nodes| && (forall k :: 0 <= k < |nodes| ==> contents[k] == nodes[k].cb)
      && (forall j, k :: 0 <= j < k < |nodes| ==> nodes[j] != nodes[k])
      && (forall k {:trigger nodes[k].next} :: 0 <= k < |nodes| ==>
            nodes[k].next == if k + 1 < |nodes| then nodes[k + 1] else null)
      && head == (if nodes == [] then null else nodes[0])
      && tail == (if nodes == [] then null else nodes[|nodes| - 1])
    }

    constructor ()
      ensures Valid() && contents == [] && all == {}
    {
      head, tail, nodes, contents, all := null, null, [], [], {};
    }

    /** __redisPushCallback. */
    method Push(source: Callback)
      requires Valid()
      modifies this, all
      ensures Valid() && fresh(all - old(all))
      ensures contents == old(contents) + [source]
    {
      var cb := new Node(source);
      if head == null {
        head := cb;
      }
      if tail != null {
        tail.next := cb;
      }
      tail := cb;
      nodes, contents, all := nodes + [cb], contents + [source], all + {cb};
    }

    /** __redisShiftCallback. */
    method Shift() returns (found: bool, target: Callback)
      requires Valid()
      modifies this
      ensures Valid() && all == old(all)
      ensures found <==> old(contents) != []
      ensures if found then old(contents) == [target] + contents else contents == old(contents)
    {
      var cb := head;
      if cb == null {
        return false, Callback(0, 0);
      }
      head := cb.next;
      if cb == tail {
        tail := null;
      }
      nodes, contents := nodes[1..], contents[1..];
      return true, cb.cb;
    }
  }
}
