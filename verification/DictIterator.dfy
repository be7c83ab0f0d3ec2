/** The iterator of dict.c. */
module DictIterator {
  import opened Bytes
  import opened Decimal
  import opened Dictionary

  // ---------------------------------------------------------------- the order of iteration

  /** All entries of the chains from slot i on, chain after chain. */
  function FlatFrom(chains: Chains, i: nat): seq<Entry>
    decreases |chains| - i
  {
    if i >= |chains| then [] else chains[i] + FlatFrom(chains, i + 1)
  }

  lemma {:induction false} FlatSame(a: Chains, b: Chains, i: nat)
    requires |a| == |b| && forall l :: i <= l < |a| ==> a[l] == b[l]
    ensures FlatFrom(a, i) == FlatFrom(b, i)
    decreases |a| - i
  {
    if i < |a| {
      FlatSame(a, b, i + 1);
    }
  }

  function Keys(c: seq<Entry>): (ks: seq<bytes>)
    ensures |ks| == |c| && forall j :: 0 <= j < |c| ==> ks[j] == c[j].key
  {
    seq(|c|, j requires 0 <= j < |c| => c[j].key)
  }

  ghost predicate Distinct(ks: seq<bytes>) {
    forall j, l :: 0 <= j < l < |ks| ==> ks[j] != ks[l]
  }

  /** e is the entry of its key, and belongs to slot i or a later one. */
  ghost predicate From(e: Entry, g: Hashing, index: Index, i: nat) {
    e.key in index && index[e.key] == e && Slot(e.key, g) >= i
  }

  /** The entries from slot i on are pairwise different, and are those whose slot is i or later. */
  lemma {:induction false} FlatPlaced(chains: Chains, g: Hashing, index: Index, i: nat)
    requires Placed(chains, g, index)
    ensures forall j :: 0 <= j < |FlatFrom(chains, i)| ==> From(FlatFrom(chains, i)[j], g, index, i)
    ensures NoDuplicates(FlatFrom(chains, i))
    ensures forall k :: k in index && Slot(k, g) >= i ==> index[k] in FlatFrom(chains, i)
    decreases |chains| - i
  {
    if i < |chains| {
      var c, rest, all := chains[i], FlatFrom(chains, i + 1), FlatFrom(chains, i);
      FlatPlaced(chains, g, index, i + 1);
      assert Bucket(c, i, g, index);
      forall j | 0 <= j < |all|
        ensures From(all[j], g, index, i)
      {
        if j >= |c| {
          assert From(rest[j - |c|], g, index, i + 1);
        }
      }
      forall j, l | 0 <= j < l < |all|
        ensures all[j] != all[l]
      {
        if j < |c| <= l {
          assert From(rest[l - |c|], g, index, i + 1);
        } else if |c| <= j {
          assert rest[j - |c|] != rest[l - |c|];
        }
      }
      forall k | k in index && Slot(k, g) >= i
        ensures index[k] in all
      {
        assert Lodged(k, chains, g, index);
      }
    }
  }

  /** Every stored key occurs exactly once. */
  lemma FlatCovers(chains: Chains, g: Hashing, index: Index)
    requires Placed(chains, g, index)
    ensures Distinct(Keys(FlatFrom(chains, 0)))
    ensures forall k :: k in Keys(FlatFrom(chains, 0)) <==> k in index
  {
    var all := FlatFrom(chains, 0);
    FlatPlaced(chains, g, index, 0);
    assert forall k :: k in index ==> Lodged(k, chains, g, index);
    assert forall j :: 0 <= j < |all| ==> From(all[j], g, index, 0);
    forall k | k in index
      ensures k in Keys(all)
    {
      var j :| 0 <= j < |all| && all[j] == index[k];
      assert Keys(all)[j] == k;
    }
  }

  // ---------------------------------------------------------------- the iterator

  /** What index, entry and nextEntry say about the entries still to be returned; k is the position
      of nextEntry in its chain. */
  ghost predicate Positioned(chains: Chains, index: int, entry: Entry?, nextEntry: Entry?, k: nat,
                             pending: seq<Entry>)
  {
    && index >= -1
    && (entry == null ==> pending == FlatFrom(chains, index + 1))
    && (entry != null ==>
          && 0 <= index < |chains| && k <= |chains[index]| && nextEntry == Nth(chains[index], k)
          && pending == chains[index][k..] + FlatFrom(chains, index + 1))
  }

  /** The loop of dictNext, on the iterator's fields. */
  method Advance(table: array<Entry?>, ghost chains: Chains, ghost entries: set<Entry>,
                 index0: int, entry0: Entry?, nextEntry0: Entry?, ghost k0: nat, ghost pending0: seq<Entry>)
    returns (index: int, entry: Entry?, nextEntry: Entry?, ghost k: nat, ghost pending: seq<Entry>)
    requires Hung(table, chains) && AllLinked(chains, entries) && table.Length <= INT_MAX
    requires Positioned(chains, index0, entry0, nextEntry0, k0, pending0)
    ensures Positioned(chains, index, entry, nextEntry, k, pending)
    ensures pending0 == [] ==> entry == null && pending == []
    ensures pending0 != [] ==>
              && entry == pending0[0] && pending == pending0[1..]
              && 0 < k && chains[index][k - 1] == entry
  {
    index, entry, nextEntry, k, pending := index0, entry0, nextEntry0, k0, pending0;
    while true
      invariant Positioned(chains, index, entry, nextEntry, k, pending) && pending == pending0
      decreases |chains| - index, entry != null
    {
      if entry == null {
        index := index + 1;
        if index >= ToInt(table.Length) {
          break;
        }
        entry := table[index];
        k := 0;
      } else {
        entry := nextEntry;
      }
      if entry != null {
        assert Linked(chains[index]);
        nextEntry := entry.next;
        pending := pending[1..];
        k := k + 1;
        return;
      }
    }
  }

  class Iterator {
    const ht: Dict
    var index: int
    var entry: Entry?
    var nextEntry: Entry?
    ghost var pending: seq<Entry>
    ghost var k: nat

    ghost predicate Valid()
      reads this, ht, ht.table, ht.s.entries
    {
      ht.Valid() && ht.size <= INT_MAX && Positioned(ht.s.chains, index, entry, nextEntry, k, pending)
    }

    /** The entry returned last is still in the table, just before nextEntry. */
    ghost predicate Current()
      reads this, ht
    {
      entry != null && 0 <= index < |ht.s.chains| && 0 < k <= |ht.s.chains[index]| &&
      ht.s.chains[index][k - 1] == entry
    }

    /** dictGetIterator. */
    constructor (ht: Dict)
      requires ht.Valid() && ht.size <= INT_MAX
      ensures this.ht == ht && Valid() && pending == FlatFrom(ht.s.chains, 0)
    {
      this.ht := ht;
      index := -1;
      entry, nextEntry := null, null;
      pending, k := FlatFrom(ht.s.chains, 0), 0;
    }

    /** dictNext. */
    method Next() returns (e: Entry?)
      requires Valid()
      modifies this
      ensures Valid()
      ensures e == entry
      ensures old(pending) == [] ==> e == null && pending == []
      ensures old(pending) != [] ==> e == old(pending)[0] && pending == old(pending)[1..] && Current()
    {
      var i, n; ghost var k', pending';
      i, e, n, k', pending' :=
        Advance(ht.table, ht.s.chains, ht.s.entries, index, entry, nextEntry, k, pending);
      MoveTo(i, e, n, k', pending');
    }

    method MoveTo(i: int, e: Entry?, n: Entry?, ghost k': nat, ghost pending': seq<Entry>)
      requires ht.Valid() && ht.size <= INT_MAX && Positioned(ht.s.chains, i, e, n, k', pending')
      modifies this
      ensures Valid() && index == i && entry == e && nextEntry == n && k == k' && pending == pending'
    {
      index, entry, nextEntry, k, pending := i, e, n, k', pending';
    }

    /** The caller deletes the entry it has just received; the iteration goes on as if it had not. */
    method DeleteCurrent()
      requires Valid() && Current()
      modifies this`k, ht`used, ht`s, ht.table, ht.s.entries`next
      ensures Valid() && pending == old(pending)
      ensures ht.s.m == old(ht.s.m) - {entry.key}
      ensures ht.s.entries == old(ht.s.entries)
    {
      ghost var was := ht.s;
      ghost var g := Hashing(ht.hash, ht.sizemask);
      assert Placed(was.chains, g, was.index);
      WhereIs(was.chains, g, was.index, index, k - 1);
      assert ShownAt(entry.key, was.m, was.index, was.entries);
      var rc; ghost var h, j;
      rc, h, j := ht.Delete(entry.key);
      AfterCut(was, g, h, j, index, entry, nextEntry, k, pending);
      k := k - 1;
    }
  }

  /** A stored entry is where its key says, and only there. */
  lemma WhereIs(chains: Chains, g: Hashing, index: Index, i: nat, j: nat)
    requires Placed(chains, g, index) && i < |chains| && j < |chains[i]|
    ensures chains[i][j].key in index
    ensures forall h, l {:trigger chains[h][l]} ::
              0 <= h < |chains| && 0 <= l < |chains[h]| && chains[h][l].key == chains[i][j].key ==> h == i && l == j
  {
    assert Bucket(chains[i], i, g, index);
    forall h, l | 0 <= h < |chains| && 0 <= l < |chains[h]| && chains[h][l].key == chains[i][j].key
      ensures h == i && l == j
    {
      assert Bucket(chains[h], h, g, index);
    }
  }

  lemma AfterCut(s: Content, g: Hashing, h: nat, j: nat,
                 index: int, entry: Entry?, nextEntry: Entry?, k: nat, pending: seq<Entry>)
    requires Placed(s.chains, g, s.index) && entry != null && k > 0
    requires Positioned(s.chains, index, entry, nextEntry, k, pending) && s.chains[index][k - 1] == entry
    requires h < |s.chains| && j < |s.chains[h]| && s.chains[h][j].key == entry.key
    ensures Positioned(Cut(s, h, j).chains, index, entry, nextEntry, k - 1, pending)
  {
    WhereIs(s.chains, g, s.index, index, k - 1);
    assert h == index && j == k - 1;
    var chains' := Cut(s, h, j).chains;
    FlatSame(s.chains, chains', index + 1);
    assert chains'[index][k - 1..] == s.chains[index][k..];
  }

  // ---------------------------------------------------------------- walking the whole table

  /** The loop body of a caller: it may delete the entry it has, and asks for the next one. */
  method Step(it: Iterator, drop: bool) returns (e: Entry?)
    requires it.Valid() && it.Current()
    modifies it, it.ht`used, it.ht`s, it.ht.table, it.ht.s.entries`next
    ensures it.Valid() && e == it.entry && it.ht.s.entries == old(it.ht.s.entries)
    ensures it.ht.s.m == if drop then old(it.ht.s.m) - {old(it.entry.key)} else old(it.ht.s.m)
    ensures if old(it.pending) == [] then e == null
            else e == old(it.pending)[0] && it.pending == old(it.pending)[1..] && it.Current()
  {
    if drop {
      it.DeleteCurrent();
    }
    e := it.Next();
  }

  /** Along such a loop over `all`: what has been visited, what e and the iterator stand at, and what
      is left of the map. */
  ghost predicate Along(all: seq<Entry>, visited: seq<bytes>, e: Entry?, pending: seq<Entry>,
                        m0: map<bytes, Value>, m: map<bytes, Value>, drop: bytes -> bool)
  {
    && |visited| <= |all| && (forall j :: 0 <= j < |visited| ==> visited[j] == all[j].key)
    && m == Without(m0, visited, drop)
    && if e == null then |visited| == |all|
       else |visited| < |all| && e == all[|visited|] && pending == all[|visited| + 1..]
  }

  lemma AlongStep(all: seq<Entry>, visited: seq<bytes>, e: Entry, pending: seq<Entry>,
                  m0: map<bytes, Value>, m: map<bytes, Value>, drop: bytes -> bool,
                  e': Entry?, pending': seq<Entry>, m': map<bytes, Value>)
    requires Along(all, visited, e, pending, m0, m, drop)
    requires m' == if drop(e.key) then m - {e.key} else m
    requires if pending == [] then e' == null else e' == pending[0] && pending' == pending[1..]
    ensures Along(all, visited + [e.key], e', pending', m0, m', drop)
  {
    WithoutOne(m0, visited, e.key, drop);
  }

  lemma AlongStart(all: seq<Entry>, e: Entry?, pending: seq<Entry>, m0: map<bytes, Value>, drop: bytes -> bool)
    requires if all == [] then e == null else e == all[0] && pending == all[1..]
    ensures Along(all, [], e, pending, m0, m0, drop)
  {
  }

  lemma AlongEnd(all: seq<Entry>, visited: seq<bytes>, pending: seq<Entry>,
                 m0: map<bytes, Value>, m: map<bytes, Value>, drop: bytes -> bool)
    requires Along(all, visited, null, pending, m0, m, drop)
    requires Distinct(Keys(all)) && forall k :: k in Keys(all) <==> k in m0
    ensures Distinct(visited) && forall k :: k in visited <==> k in m0
    ensures m == map k | k in m0 && !drop(k) :: m0[k]
  {
    assert visited == Keys(all);
  }

  /** A loop over the whole table whose body deletes the entries picked by `drop`, each right after
      receiving it: every key that was stored is visited exactly once, and exactly the picked ones
      are gone afterwards. */
  method Visit(ht: Dict, drop: bytes -> bool) returns (visited: seq<bytes>)
    requires ht.Valid() && ht.size <= INT_MAX
    modifies ht`used, ht`s, ht.table, ht.s.entries`next
    ensures ht.Valid()
    ensures Distinct(visited) && forall k :: k in visited <==> k in old(ht.s.m)
    ensures ht.s.m == map k | k in old(ht.s.m) && !drop(k) :: old(ht.s.m)[k]
  {
    visited := [];
    var it := new Iterator(ht);
    ghost var all, m0 := it.pending, ht.s.m;
    AllEntries(ht);
    var e := it.Next();
    AlongStart(all, e, it.pending, m0, drop);
    while e != null
      invariant it.Valid() && it.ht == ht && ht.s.entries == old(ht.s.entries)
      invariant e == it.entry && (e != null ==> it.Current())
      invariant Along(all, visited, e, it.pending, m0, ht.s.m, drop)
      decreases |all| - |visited|
    {
      ghost var pending, m := it.pending, ht.s.m;
      var next := Step(it, drop(e.key));
      AlongStep(all, visited, e, pending, m0, m, drop, next, it.pending, ht.s.m);
      visited := visited + [e.key];
      e := next;
    }
    AlongEnd(all, visited, it.pending, m0, ht.s.m, drop);
  }

  function Without(m: map<bytes, Value>, visited: seq<bytes>, drop: bytes -> bool): map<bytes, Value> {
    map k | k in m && !(k in visited && drop(k)) :: m[k]
  }

  lemma WithoutOne(m: map<bytes, Value>, visited: seq<bytes>, k: bytes, drop: bytes -> bool)
    ensures Without(m, visited + [k], drop) ==
            if drop(k) then Without(m, visited, drop) - {k} else Without(m, visited, drop)
  {
  }

  lemma AllEntries(ht: Dict)
    requires ht.Valid()
    ensures var all := Keys(FlatFrom(ht.s.chains, 0));
      Distinct(all) && forall k :: k in all <==> k in ht.s.m
  {
    if ht.size > 0 {
      FlatCovers(ht.s.chains, Hashing(ht.hash, ht.sizemask), ht.s.index);
    } else {
      assert ht.s.index == map[];
    }
  }
}
