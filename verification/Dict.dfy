/** dict.c: a hash table of chained entries, keyed by byte strings, with an iterator. */
module Dictionary {
  import opened Bytes
  import opened Decimal

  const DICT_HT_INITIAL_SIZE: nat := 4
  const LONG_MAX: nat := 0x7fff_ffff_ffff_ffff

  /** _dictKeyIndex returns a slot as an int. */
  const MAX_SLOTS: nat := INT_MAX + 1

  const DICT_OK: int := 0
  const DICT_ERR: int := 1

  // ---------------------------------------------------------------- hashing and slots

  /** The values of unsigned int. */
  const UINT: nat := 0x1_0000_0000

  /** 5381 and the bytes of s as the digits of a number in base 33, the last byte being the lowest one. */
  function Base33(s: bytes): nat {
    if s == [] then 5381 else Base33(s[..|s| - 1]) * 33 + s[|s| - 1]
  }

  function Hash(s: bytes): nat {
    Base33(s) % UINT
  }

  /** Shifting, adding and adding again in unsigned int wraps no otherwise than once at the end. */
  lemma WrapOnce(x: nat, c: byte)
    ensures (((x % UINT * 32) % UINT + x % UINT) % UINT + c) % UINT == (x * 33 + c) % UINT
  {
    var r := x % UINT;
    var shifted := r * 32 % UINT;
    var sum := (shifted + r) % UINT;
    var v := (sum + c) % UINT;
    var q := 33 * (x / UINT) + r * 32 / UINT + (shifted + r) / UINT + (sum + c) / UINT;
    ModIs(x * 33 + c, UINT, q, v);
  }

  /** dictGenHashFunction. */
  method GenHashFunction(s: bytes) returns (hash: nat)
    ensures hash == Hash(s)
  {
    hash := 5381;
    var i := 0;
    while i < |s|
      invariant 0 <= i <= |s| && hash == Base33(s[..i]) % UINT
    {
      assert s[..i + 1][..i] == s[..i];
      WrapOnce(Base33(s[..i]), s[i]);
      hash := (hash * 32) % UINT + hash;
      hash := (hash % UINT + s[i]) % UINT;
      i := i + 1;
    }
    assert s[..|s|] == s;
  }

  /** Bitwise and. */
  function And(a: nat, b: nat): (r: nat)
    ensures r <= b
    decreases a
  {
    if a == 0 || b == 0 then 0
    else 2 * And(a / 2, b / 2) + (if a % 2 == 1 && b % 2 == 1 then 1 else 0)
  }

  predicate PowerOfTwo(n: nat) {
    n == 1 || (n > 1 && n % 2 == 0 && PowerOfTwo(n / 2))
  }

  lemma {:induction false} Product(n: nat, a: nat, b: nat)
    ensures a < b ==> n * a + n <= n * b
  {
    if a + 1 < b {
      Product(n, a, b - 1);
      assert n * b == n * (b - 1) + n;
    }
  }

  lemma ModIs(h: nat, n: nat, q: nat, r: nat)
    requires n > 0 && h == n * q + r && r < n
    ensures h % n == r
  {
    assert h == n * (h / n) + h % n;
    Product(n, q, h / n);
    Product(n, h / n, q);
  }

  lemma ModDouble(h: nat, m: nat)
    requires m > 0
    ensures h % (2 * m) == 2 * (h / 2 % m) + h % 2
  {
    var q, r := h / 2 / m, h / 2 % m;
    assert h / 2 == m * q + r;
    assert 2 * m * q == 2 * (m * q);
    ModIs(h, 2 * m, q, 2 * r + h % 2);
  }

  lemma AndOdd(h: nat, m: nat)
    requires m > 0
    ensures And(h, 2 * m - 1) == 2 * And(h / 2, m - 1) + h % 2
  {
    assert (2 * m - 1) / 2 == m - 1 && (2 * m - 1) % 2 == 1;
  }

  /** Masking with a power of two less one is taking the remainder. */
  lemma {:induction false} MaskIsMod(h: nat, n: nat)
    requires PowerOfTwo(n)
    ensures And(h, n - 1) == h % n
    decreases n
  {
    if n > 1 {
      var m := n / 2;
      MaskIsMod(h / 2, m);
      ModDouble(h, m);
      AndOdd(h, m);
      assert n == 2 * m;
    }
  }

  lemma {:induction false} SamePower(a: nat, b: nat)
    requires PowerOfTwo(a) && PowerOfTwo(b) && a <= b < 2 * a
    ensures a == b
    decreases a
  {
    if a > 1 {
      SamePower(a / 2, b / 2);
    }
  }

  /** _dictNextPower. */
  method NextPower(size: nat) returns (i: nat)
    ensures size >= LONG_MAX ==> i == LONG_MAX
    ensures size < LONG_MAX ==>
              && PowerOfTwo(i) && i >= DICT_HT_INITIAL_SIZE && i >= size
              && (i == DICT_HT_INITIAL_SIZE || 2 * DICT_HT_INITIAL_SIZE <= i < 2 * size)
  {
    i := DICT_HT_INITIAL_SIZE;
    assert PowerOfTwo(2) && PowerOfTwo(4);
    if size >= LONG_MAX {
      return LONG_MAX;
    }
    while true
      invariant PowerOfTwo(i) && i >= DICT_HT_INITIAL_SIZE
      invariant i == DICT_HT_INITIAL_SIZE || 2 * DICT_HT_INITIAL_SIZE <= i < 2 * size
      decreases size - i
    {
      if i >= size {
        return i;
      }
      i := i * 2;
    }
  }

  // ---------------------------------------------------------------- chains of entries

  /** The values async.c stores: a callback, identified by its function and its private data. */
  datatype Value = Value(fn: int, privdata: int)

  class Entry {
    const key: bytes
    var val: Value
    var next: Entry?

    constructor (key: bytes, val: Value, next: Entry?)
      ensures this.key == key && this.val == val && this.next == next
    {
      this.key, this.val, this.next := key, val, next;
    }
  }

  type Chains = seq<seq<Entry>>
  type Index = map<bytes, Entry>

  /** The entry at position j of a chain, or null behind its end. */
  function Nth(c: seq<Entry>, j: nat): Entry? {
    if j < |c| then c[j] else null
  }

  /** The chains without entry number j of chain h. */
  ghost predicate IsCut(chains: Chains, h: nat, j: nat, chains': Chains) {
    h < |chains| && j < |chains[h]| && chains' == chains[h := chains[h][..j] + chains[h][j + 1..]]
  }

  /** The next pointers spell out the chain. */
  ghost predicate Linked(c: seq<Entry>)
    reads c`next
  {
    forall j {:trigger c[j].next} :: 0 <= j < |c| ==> c[j].next == Nth(c, j + 1)
  }

  /** The hash function of a table, and its size mask. */
  datatype Hashing = Hashing(hash: bytes -> nat, mask: nat)

  /** The slot a key belongs to. */
  function Slot(k: bytes, g: Hashing): (i: nat)
    ensures i <= g.mask
  {
    And(g.hash(k), g.mask)
  }

  ghost predicate NoDuplicates(c: seq<Entry>) {
    forall j, l :: 0 <= j < l < |c| ==> c[j] != c[l]
  }

  /** Chain number i: every entry is the one the index has for its key, in the slot of that key. */
  ghost predicate Bucket(c: seq<Entry>, i: nat, g: Hashing, index: Index) {
    && NoDuplicates(c)
    && forall j :: 0 <= j < |c| ==> Slot(c[j].key, g) == i && c[j].key in index && index[c[j].key] == c[j]
  }

  /** The index's entry for k is in the chain of k's slot. */
  ghost predicate Lodged(k: bytes, chains: Chains, g: Hashing, index: Index)
    requires k in index && |chains| == g.mask + 1
  {
    index[k].key == k && index[k] in chains[Slot(k, g)]
  }

  /** The chains hold exactly the entries of the index, each in the slot of its key. */
  ghost predicate Placed(chains: Chains, g: Hashing, index: Index) {
    && |chains| == g.mask + 1
    && (forall i {:trigger Bucket(chains[i], i, g, index)} :: 0 <= i < |chains| ==> Bucket(chains[i], i, g, index))
    && (forall k {:trigger Lodged(k, chains, g, index)} :: k in index ==> Lodged(k, chains, g, index))
  }

  ghost predicate Within(c: seq<Entry>, entries: set<Entry>) {
    forall j :: 0 <= j < |c| ==> c[j] in entries
  }

  ghost predicate AllLinked(chains: Chains, entries: set<Entry>)
    reads entries`next
  {
    forall i {:trigger Linked(chains[i])} :: 0 <= i < |chains| ==> Within(chains[i], entries) && Linked(chains[i])
  }

  ghost predicate ShownAt(k: bytes, m: map<bytes, Value>, index: Index, entries: set<Entry>)
    requires k in m && k in index
    reads entries`val
  {
    index[k] in entries && m[k] == index[k].val
  }

  /** m maps every key to the value of its entry. */
  ghost predicate Shows(m: map<bytes, Value>, index: Index, entries: set<Entry>)
    reads entries`val
  {
    && m.Keys == index.Keys
    && forall k {:trigger ShownAt(k, m, index, entries)} :: k in m ==> ShownAt(k, m, index, entries)
  }

  /** The chains hang at the table's slots. */
  ghost predicate Hung(table: array<Entry?>, chains: Chains)
    reads table
  {
    table.Length == |chains| && forall i :: 0 <= i < |chains| ==> table[i] == Nth(chains[i], 0)
  }

  // ---------------------------------------------------------------- how chains change

  lemma Absent(chains: Chains, g: Hashing, index: Index, e: Entry)
    requires Placed(chains, g, index) && e.key !in index
    ensures forall i :: 0 <= i < |chains| ==> e !in chains[i]
  {
    forall i | 0 <= i < |chains|
      ensures e !in chains[i]
    {
      assert Bucket(chains[i], i, g, index);
    }
  }

  /** An entry for a new key goes to the front of the chain of its slot. */
  lemma PushPlaced(chains: Chains, g: Hashing, index: Index, e: Entry, chains': Chains)
    requires Placed(chains, g, index) && e.key !in index
    requires chains' == chains[Slot(e.key, g) := [e] + chains[Slot(e.key, g)]]
    ensures Placed(chains', g, index[e.key := e])
  {
    var h := Slot(e.key, g);
    Absent(chains, g, index, e);
    forall i | 0 <= i < |chains'|
      ensures Bucket(chains'[i], i, g, index[e.key := e])
    {
      assert Bucket(chains[i], i, g, index);
    }
    assert chains'[h][0] == e;
    var index' := index[e.key := e];
    forall k | k in index'
      ensures Lodged(k, chains', g, index')
    {
      assert k != e.key ==> Lodged(k, chains, g, index);
    }
  }

  /** Taking entry number j out of chain h takes its key out of the index. */
  lemma CutPlaced(chains: Chains, g: Hashing, index: Index, h: nat, j: nat, chains': Chains)
    requires Placed(chains, g, index) && IsCut(chains, h, j, chains')
    ensures chains[h][j].key in index && Placed(chains', g, index - {chains[h][j].key})
  {
    var c := chains[h];
    var index' := index - {c[j].key};
    assert Bucket(c, h, g, index);
    forall i | 0 <= i < |chains'|
      ensures Bucket(chains'[i], i, g, index')
    {
      assert Bucket(chains[i], i, g, index);
    }
    forall k | k in index'
      ensures Lodged(k, chains', g, index')
    {
      assert Lodged(k, chains, g, index);
      var l :| 0 <= l < |chains[Slot(k, g)]| && chains[Slot(k, g)][l] == index[k];
      if Slot(k, g) == h {
        assert chains'[h][if l < j then l else l - 1] == index[k];
      }
    }
  }

  /** An entry is in no chain but that of its slot. */
  ghost predicate OnlyIn(chains: Chains, h: nat, e: Entry) {
    forall i :: 0 <= i < |chains| && i != h ==> e !in chains[i]
  }

  lemma InOneChain(chains: Chains, g: Hashing, index: Index, h: nat, j: nat)
    requires Placed(chains, g, index) && h < |chains| && j < |chains[h]|
    ensures NoDuplicates(chains[h]) && OnlyIn(chains, h, chains[h][j])
  {
    assert Bucket(chains[h], h, g, index);
    forall i | 0 <= i < |chains| && i != h
      ensures chains[h][j] !in chains[i]
    {
      assert Bucket(chains[i], i, g, index);
    }
  }

  lemma LessOne(m: map<bytes, Value>, index: Index, entries: set<Entry>, k: bytes)
    requires Shows(m, index, entries) && k in index
    ensures |index - {k}| == |index| - 1 && Shows(m - {k}, index - {k}, entries)
  {
    assert (index - {k}).Keys == index.Keys - {k};
    forall l | l in m - {k}
      ensures ShownAt(l, m - {k}, index - {k}, entries)
    {
      assert ShownAt(l, m, index, entries);
    }
  }

  /** What a table stands for: its finite map, its chains, the entry of every key, and all entries
      there ever were. */
  datatype Content = Content(m: map<bytes, Value>, chains: Chains, index: Index, entries: set<Entry>)

  /** A table of `used` entries that stands for s. */
  ghost predicate Stands(table: array<Entry?>, used: nat, g: Hashing, s: Content)
    reads table, s.entries
  {
    && used == |s.index| <= |s.chains|
    && (s.chains != [] ==> PowerOfTwo(|s.chains|) && Placed(s.chains, g, s.index))
    && Hung(table, s.chains) && AllLinked(s.chains, s.entries) && Shows(s.m, s.index, s.entries)
  }

  /** s without entry number j of chain h. */
  ghost function Cut(s: Content, h: nat, j: nat): (s': Content)
    requires h < |s.chains| && j < |s.chains[h]|
    ensures IsCut(s.chains, h, j, s'.chains)
  {
    var key := s.chains[h][j].key;
    Content(s.m - {key}, s.chains[h := s.chains[h][..j] + s.chains[h][j + 1..]], s.index - {key}, s.entries)
  }

  // ---------------------------------------------------------------- the table

  class Dict {
    var table: array<Entry?>
    const hash: bytes -> nat
    var size: nat
    var sizemask: nat
    var used: nat
    ghost var s: Content

    ghost predicate Valid()
      reads this, table, s.entries
    {
      && size == |s.chains| && (size > 0 ==> sizemask == size - 1)
      && Stands(table, used, Hashing(hash, sizemask), s)
    }

    /** dictCreate. */
    constructor (hash: bytes -> nat)
      ensures this.hash == hash && Valid() && s.m == map[] && size == 0 && s.entries == {} && fresh(table)
    {
      this.hash := hash;
      table := new Entry?[0];
      size, sizemask, used := 0, 0, 0;
      s := Content(map[], [], map[], {});
    }

    /** The chain walk of dictFind, dictDelete and _dictKeyIndex: the entry with the key in slot h,
        the one before it, and its position. */
    method Walk(key: bytes, h: nat) returns (prev: Entry?, he: Entry?, ghost j: nat)
      requires Valid() && size > 0 && h == Slot(key, Hashing(hash, sizemask))
      ensures h < |s.chains| && he == Nth(s.chains[h], j)
      ensures he == null ==> key !in s.index
      ensures he != null ==> key in s.index && s.index[key] == he && he.key == key
      ensures he != null ==> prev == if j == 0 then null else s.chains[h][j - 1]
      ensures prev != null ==> prev in s.entries
    {
      ghost var c, g := s.chains[h], Hashing(hash, sizemask);
      assert Bucket(c, h, g, s.index) && Linked(c) && Within(c, s.entries);
      assert key in s.index ==> Lodged(key, s.chains, g, s.index);
      prev, he, j := null, table[h], 0;
      while he != null
        invariant j <= |c| && he == Nth(c, j)
        invariant prev == if j == 0 then null else c[j - 1]
        invariant forall l :: 0 <= l < j ==> c[l].key != key
        decreases |c| - j
      {
        if key == he.key {
          return;
        }
        prev, he, j := he, he.next, j + 1;
      }
    }

    /** dictFind. */
    method Find(key: bytes) returns (he: Entry?)
      requires Valid()
      ensures he == null <==> key !in s.m
      ensures he != null ==>
                && key in s.index && he == s.index[key] && he in s.entries && he.key == key && he.val == s.m[key]
    {
      if size == 0 {
        assert s.index == map[];
        return null;
      }
      assert key in s.m ==> ShownAt(key, s.m, s.index, s.entries);
      var prev; ghost var j;
      prev, he, j := Walk(key, Slot(key, Hashing(hash, sizemask)));
    }

    /** The table has come to stand for t. */
    method Settle(ghost t: Content, entries: nat)
      requires size == |t.chains| && (size > 0 ==> sizemask == size - 1)
      requires Stands(table, entries, Hashing(hash, sizemask), t)
      modifies this`used, this`s
      ensures Valid() && s == t && used == entries
    {
      s := t;
      used := entries;
    }

    /** Takes out the entry de that Walk found. */
    method Remove(h: nat, prev: Entry?, de: Entry, ghost j: nat)
      requires Valid() && h < |s.chains| && j < |s.chains[h]| && de == s.chains[h][j]
      requires prev == if j == 0 then null else s.chains[h][j - 1]
      modifies this`used, this`s, table, (if prev == null then {} else {prev})`next
      ensures Valid() && s == Cut(old(s), h, j) && used == old(used) - 1
    {
      ghost var t := Unlink(table, used, Hashing(hash, sizemask), s, h, prev, de, j);
      Settle(t, used - 1);
    }

    /** dictDelete; h and j say where the entry was. */
    method Delete(key: bytes) returns (rc: int, ghost h: nat, ghost j: nat)
      requires Valid()
      modifies this`used, this`s, table, s.entries`next
      ensures Valid()
      ensures rc == if key in old(s.m) then DICT_OK else DICT_ERR
      ensures rc == DICT_OK ==>
                && h < |old(s.chains)| && j < |old(s.chains[h])| && old(s.chains[h][j]).key == key
                && s == Cut(old(s), h, j)
      ensures rc == DICT_ERR ==> s == old(s)
      ensures s.m == old(s.m) - {key} && used <= old(used)
    {
      h, j := 0, 0;
      if size == 0 {
        assert s.index == map[];
        return DICT_ERR, h, j;
      }
      var slot := Slot(key, Hashing(hash, sizemask));
      var prev, de;
      prev, de, j := Walk(key, slot);
      if de == null {
        return DICT_ERR, h, j;
      }
      h := slot;
      Remove(slot, prev, de, j);
      return DICT_OK, h, j;
    }

    /** The insertion of dictAdd. */
    method Insert(key: bytes, val: Value)
      requires Valid() && key !in s.index && used < size
      modifies this`used, this`s, table
      ensures Valid() && s.m == old(s.m)[key := val]
      ensures fresh(s.entries - old(s.entries)) && used == old(used) + 1
    {
      ghost var t := PushEntry(table, used, Hashing(hash, sizemask), s, Slot(key, Hashing(hash, sizemask)), key, val);
      Settle(t, used + 1);
    }

    /** The new table takes the place of the old one. */
    method Install(newTable: array<Entry?>, realsize: nat, ghost t: Content)
      requires realsize == |t.chains| > 0 && Stands(newTable, used, Hashing(hash, realsize - 1), t)
      modifies this`table, this`size, this`sizemask, this`s
      ensures Valid() && table == newTable && size == realsize && s == t
    {
      table := newTable;
      size := realsize;
      sizemask := realsize - 1;
      s := t;
    }

    /** dictExpand. */
    method Expand(newSize: nat) returns (rc: int)
      requires Valid() && newSize < LONG_MAX
      modifies this`table, this`size, this`sizemask, this`s, s.entries`next
      ensures Valid() && s.m == old(s.m) && s.index == old(s.index) && s.entries == old(s.entries)
      ensures rc == if used > newSize then DICT_ERR else DICT_OK
      ensures rc == DICT_ERR ==> unchanged(this)
      ensures rc == DICT_OK ==> size >= newSize && size >= DICT_HT_INITIAL_SIZE && fresh(table)
      ensures rc == DICT_OK ==> size == DICT_HT_INITIAL_SIZE || 2 * DICT_HT_INITIAL_SIZE <= size < 2 * newSize
      ensures rc == DICT_OK ==> PowerOfTwo(size)
    {
      var realsize := NextPower(newSize);
      if used > newSize {
        return DICT_ERR;
      }
      var newTable := new Entry?[realsize](_ => null);
      ghost var moved := Rehash(table, used, Hashing(hash, sizemask), s, newTable, Hashing(hash, realsize - 1));
      Install(newTable, realsize, s.(chains := moved));
      return DICT_OK;
    }

    /** _dictExpandIfNeeded. */
    method ExpandIfNeeded() returns (rc: int)
      requires Valid() && 2 * size < LONG_MAX
      modifies this`table, this`size, this`sizemask, this`s, s.entries`next
      ensures Valid() && s.m == old(s.m) && s.index == old(s.index) && s.entries == old(s.entries)
      ensures rc == DICT_OK && used < size
      ensures size == old(size) || size == DICT_HT_INITIAL_SIZE || (used == old(size) && size == 2 * used)
      ensures table == old(table) || fresh(table)
    {
      if size == 0 {
        rc := Expand(DICT_HT_INITIAL_SIZE);
      } else if used == size {
        assert PowerOfTwo(size * 2);
        rc := Expand(size * 2);
        if size > DICT_HT_INITIAL_SIZE {
          SamePower(used * 2, size);
        }
      } else {
        rc := DICT_OK;
      }
    }

    /** The number of slots is one that _dictKeyIndex can tell apart, and so it is with one more entry. */
    ghost predicate Roomy()
      reads this
    {
      size <= MAX_SLOTS && (used == size ==> 2 * size <= MAX_SLOTS)
    }

    /** _dictKeyIndex: the slot a new key goes to, or -1 for a key that is there. */
    method KeyIndex(key: bytes) returns (h: int)
      requires Valid() && Roomy()
      modifies this`table, this`size, this`sizemask, this`s, s.entries`next
      ensures Valid() && s.m == old(s.m) && s.index == old(s.index) && s.entries == old(s.entries)
      ensures used < size <= MAX_SLOTS && (table == old(table) || fresh(table))
      ensures size == old(size) || size == DICT_HT_INITIAL_SIZE || size == 2 * used
      ensures h == if key in s.m then -1 else Slot(key, Hashing(hash, sizemask))
    {
      var rc := ExpandIfNeeded();
      var slot := Slot(key, Hashing(hash, sizemask));
      var prev, he; ghost var j;
      prev, he, j := Walk(key, slot);
      h := if he != null then -1 else ToInt(slot);
    }

    /** dictAdd. */
    method Add(key: bytes, val: Value) returns (rc: int)
      requires Valid() && Roomy()
      modifies this, table, s.entries`next
      ensures Valid() && (table == old(table) || fresh(table)) && fresh(s.entries - old(s.entries))
      ensures rc == if key in old(s.m) then DICT_ERR else DICT_OK
      ensures s.m == if key in old(s.m) then old(s.m) else old(s.m)[key := val]
      ensures rc == DICT_ERR ==> s.entries == old(s.entries)
      ensures used == if rc == DICT_OK then old(used) + 1 else old(used)
      ensures size == old(size) || size == DICT_HT_INITIAL_SIZE || size == 2 * old(used)
    {
      var h := KeyIndex(key);
      if h == -1 {
        return DICT_ERR;
      }
      Insert(key, val);
      return DICT_OK;
    }

    /** dictReplace: 1 for a new key, 0 for a changed value. */
    method Replace(key: bytes, val: Value) returns (rc: int)
      requires Valid() && Roomy()
      modifies this, table, s.entries
      ensures Valid() && (table == old(table) || fresh(table)) && fresh(s.entries - old(s.entries))
      ensures rc == if key in old(s.m) then 0 else 1
      ensures s.m == old(s.m)[key := val]
      ensures used == old(used) + rc
      ensures size == old(size) || size == DICT_HT_INITIAL_SIZE || size == 2 * old(used)
    {
      var added := Add(key, val);
      if added == DICT_OK {
        return 1;
      }
      Update(key, val);
      return 0;
    }

    /** The half of dictReplace that changes a value. */
    method Update(key: bytes, val: Value)
      requires Valid() && key in s.m
      modifies this`s, s.entries`val
      ensures Valid() && s.m == old(s.m)[key := val] && s.entries == old(s.entries)
    {
      var entry := Find(key);
      ghost var t := SetVal(table, used, Hashing(hash, sizemask), s, key, val, entry);
      s := t;
    }
  }

  // ---------------------------------------------------------------- any operations, one after the other

  /** An operation, and what it reports: the code of the source, or the value found. */
  datatype Op =
    | AddOp(key: bytes, val: Value)
    | ReplaceOp(key: bytes, val: Value)
    | DeleteOp(key: bytes)
    | FindOp(key: bytes)

  datatype Report = Code(rc: int) | Found(val: Value) | Nothing

  function MapAfter(m: map<bytes, Value>, op: Op): map<bytes, Value> {
    match op
    case AddOp(key, val) => if key in m then m else m[key := val]
    case ReplaceOp(key, val) => m[key := val]
    case DeleteOp(key) => m - {key}
    case FindOp(_) => m
  }

  function ReportOf(m: map<bytes, Value>, op: Op): Report {
    match op
    case AddOp(key, _) => Code(if key in m then DICT_ERR else DICT_OK)
    case ReplaceOp(key, _) => Code(if key in m then 0 else 1)
    case DeleteOp(key) => Code(if key in m then DICT_OK else DICT_ERR)
    case FindOp(key) => if key in m then Found(m[key]) else Nothing
  }

  function MapAfterAll(m: map<bytes, Value>, ops: seq<Op>): map<bytes, Value>
    decreases |ops|
  {
    if ops == [] then m else MapAfterAll(MapAfter(m, ops[0]), ops[1..])
  }

  function Reports(m: map<bytes, Value>, ops: seq<Op>): seq<Report>
    decreases |ops|
  {
    if ops == [] then [] else [ReportOf(m, ops[0])] + Reports(MapAfter(m, ops[0]), ops[1..])
  }

  method Perform(d: Dict, op: Op) returns (report: Report)
    requires d.Valid() && d.Roomy()
    modifies d, d.table, d.s.entries
    ensures d.Valid() && (d.table == old(d.table) || fresh(d.table)) && fresh(d.s.entries - old(d.s.entries))
    ensures d.s.m == MapAfter(old(d.s.m), op) && report == ReportOf(old(d.s.m), op)
    ensures d.used <= old(d.used) + 1
    ensures d.size == old(d.size) || d.size == DICT_HT_INITIAL_SIZE || d.size == 2 * old(d.used)
  {
    match op
    case AddOp(key, val) =>
      var rc := d.Add(key, val);
      report := Code(rc);
    case ReplaceOp(key, val) =>
      var rc := d.Replace(key, val);
      report := Code(rc);
    case DeleteOp(key) =>
      var rc; ghost var h, j;
      rc, h, j := d.Delete(key);
      report := Code(rc);
    case FindOp(key) =>
      var he := d.Find(key);
      report := if he == null then Nothing else Found(he.val);
  }

  /** Under every sequence of operations the table does what a finite map does. The bound keeps the
      sizes the table may grow to within those an int can index. */
  method PerformAll(d: Dict, ops: seq<Op>, ghost bound: nat) returns (reports: seq<Report>)
    requires d.Valid() && d.size <= bound && DICT_HT_INITIAL_SIZE <= bound
    requires 2 * (d.used + |ops|) <= bound <= MAX_SLOTS
    modifies d, d.table, d.s.entries
    ensures d.Valid()
    ensures d.s.m == MapAfterAll(old(d.s.m), ops) && reports == Reports(old(d.s.m), ops)
    decreases |ops|
  {
    if ops == [] {
      return [];
    }
    var first := Perform(d, ops[0]);
    var others := PerformAll(d, ops[1..], bound);
    reports := [first] + others;
  }

  /** dictCreate with callbackDict, whose keys are hashed by dictGenHashFunction, and any operations
      on it: from the empty map on, it does what a finite map does. */
  method CallbackTable(ops: seq<Op>) returns (d: Dict, reports: seq<Report>)
    requires 2 * (|ops| + 2) <= MAX_SLOTS
    ensures d.Valid() && d.hash == Hash
    ensures d.s.m == MapAfterAll(map[], ops) && reports == Reports(map[], ops)
  {
    d := new Dict(Hash);
    reports := PerformAll(d, ops, 2 * (|ops| + 2));
  }

  /** The dictSetHashVal of dictReplace. */
  method SetVal(ghost table: array<Entry?>, ghost used: nat, ghost g: Hashing, ghost s: Content,
                key: bytes, val: Value, entry: Entry) returns (ghost t: Content)
    requires Stands(table, used, g, s) && key in s.m && key in s.index && entry == s.index[key] && entry.key == key
    modifies entry`val
    ensures t == s.(m := s.m[key := val]) && Stands(table, used, g, t)
  {
    t := s.(m := s.m[key := val]);
    assert forall k :: k in s.index ==> Lodged(k, s.chains, g, s.index);
    entry.val := val;
    assert t.m.Keys == s.m.Keys;
    forall k | k in t.m
      ensures ShownAt(k, t.m, s.index, s.entries)
    {
      assert old(ShownAt(k, s.m, s.index, s.entries));
    }
  }

  /** s with the entry e at the front of chain h. */
  ghost function Pushed(s: Content, h: nat, e: Entry): Content
    requires h < |s.chains|
    reads e
  {
    Content(s.m[e.key := e.val], s.chains[h := [e] + s.chains[h]], s.index[e.key := e], s.entries + {e})
  }

  lemma OneMore(m: map<bytes, Value>, index: Index, entries: set<Entry>, e: Entry)
    requires Shows(m, index, entries) && e.key !in index
    ensures |index[e.key := e]| == |index| + 1
    ensures Shows(m[e.key := e.val], index[e.key := e], entries + {e})
  {
    var m', index' := m[e.key := e.val], index[e.key := e];
    assert index'.Keys == index.Keys + {e.key};
    forall l | l in m'
      ensures ShownAt(l, m', index', entries + {e})
    {
      assert l != e.key ==> ShownAt(l, m, index, entries);
    }
  }

  lemma LinkedPush(chains: Chains, entries: set<Entry>, h: nat, e: Entry)
    requires AllLinked(chains, entries) && h < |chains| && e.next == Nth(chains[h], 0)
    ensures AllLinked(chains[h := [e] + chains[h]], entries + {e})
  {
    var chains' := chains[h := [e] + chains[h]];
    forall i | 0 <= i < |chains'|
      ensures Within(chains'[i], entries + {e}) && Linked(chains'[i])
    {
      assert Linked(chains[i]);
    }
  }

  /** The new entry at the head of the chain of its slot. */
  method PushEntry(table: array<Entry?>, ghost used: nat, ghost g: Hashing, ghost s: Content,
                   h: nat, key: bytes, val: Value) returns (ghost t: Content)
    requires Stands(table, used, g, s) && used < |s.chains|
    requires key !in s.index && h == Slot(key, g)
    modifies table
    ensures Stands(table, used + 1, g, t) && |t.chains| == |s.chains|
    ensures t.m == s.m[key := val] && fresh(t.entries - s.entries)
  {
    var entry := new Entry(key, val, table[h]);
    table[h] := entry;
    t := Pushed(s, h, entry);
    PushPlaced(s.chains, g, s.index, entry, t.chains);
    LinkedPush(s.chains, s.entries, h, entry);
    OneMore(s.m, s.index, s.entries, entry);
  }

  /** dictDelete from the unlinking on, but for the count. */
  method Unlink(table: array<Entry?>, ghost used: nat, ghost g: Hashing, ghost s: Content,
                h: nat, prev: Entry?, de: Entry, ghost j: nat) returns (ghost t: Content)
    requires Stands(table, used, g, s)
    requires h < |s.chains| && j < |s.chains[h]| && de == s.chains[h][j]
    requires prev == if j == 0 then null else s.chains[h][j - 1]
    modifies table, (if prev == null then {} else {prev})`next
    ensures used > 0 && t == Cut(s, h, j) && Stands(table, used - 1, g, t)
  {
    t := Cut(s, h, j);
    CutPlaced(s.chains, g, s.index, h, j, t.chains);
    LessOne(s.m, s.index, s.entries, de.key);
    InOneChain(s.chains, g, s.index, h, if prev == null then j else j - 1);
    Relink(table, s.chains, s.entries, h, prev, de, j, t.chains);
  }

  /** The pointer write of dictDelete: the chain at table[h] loses its entry number j. */
  method Relink(table: array<Entry?>, ghost chains: Chains, ghost entries: set<Entry>,
                h: nat, prev: Entry?, de: Entry, ghost j: nat, ghost chains': Chains)
    requires Hung(table, chains) && AllLinked(chains, entries)
    requires IsCut(chains, h, j, chains') && de == chains[h][j]
    requires prev == if j == 0 then null else chains[h][j - 1]
    requires NoDuplicates(chains[h])
    requires prev != null ==> OnlyIn(chains, h, prev)
    modifies table, (if prev == null then {} else {prev})`next
    ensures Hung(table, chains') && AllLinked(chains', entries)
  {
    ghost var c := chains[h];
    ghost var next := de.next;
    assert Linked(c);
    if prev != null {
      prev.next := de.next;
    } else {
      table[h] := de.next;
    }
    LinkedCut(c, j, chains'[h], next);
    forall i | 0 <= i < |chains'|
      ensures Within(chains'[i], entries) && Linked(chains'[i])
    {
      assert old(Linked(chains[i]));
    }
  }

  /** A chain whose entry number j is bypassed. */
  lemma LinkedCut(c: seq<Entry>, j: nat, left: seq<Entry>, next: Entry?)
    requires j < |c| && left == c[..j] + c[j + 1..] && next == Nth(c, j + 1)
    requires forall l {:trigger c[l].next} :: 0 <= l < |c| && l + 1 != j ==> c[l].next == Nth(c, l + 1)
    requires j > 0 ==> c[j - 1].next == next
    ensures Linked(left)
  {
    forall l | 0 <= l < |left|
      ensures left[l].next == Nth(left, l + 1)
    {
      assert left[l] == c[if l < j then l else l + 1];
    }
  }

  // ---------------------------------------------------------------- dictExpand

  /** Halfway through dictExpand: `rest` are the old chains without the entries moved so far, which
      are `left` many, and `moved` the new ones. Every key is on exactly one side. */
  ghost predicate Moving(g: Hashing, rest: Chains, g': Hashing, newTable: array<Entry?>, moved: Chains,
                         index: Index, done: set<bytes>, entries: set<Entry>)
    reads newTable, entries`next
  {
    && done <= index.Keys
    && Placed(rest, g, index - done) && AllLinked(rest, entries)
    && Placed(moved, g', KeepOnly(index, done)) && AllLinked(moved, entries) && Hung(newTable, moved)
  }

  ghost function KeepOnly(index: Index, keys: set<bytes>): Index {
    map k | k in index && k in keys :: index[k]
  }

  lemma LinkedTail(c: seq<Entry>)
    requires c != [] && forall l {:trigger c[l].next} :: 0 < l < |c| ==> c[l].next == Nth(c, l + 1)
    ensures Linked(c[1..])
  {
    forall l | 0 <= l < |c[1..]|
      ensures c[1..][l].next == Nth(c[1..], l + 1)
    {
      assert c[1..][l] == c[l + 1];
    }
  }

  ghost predicate SameBut(a: Chains, b: Chains, i: nat) {
    i < |a| == |b| && forall l :: 0 <= l < |a| && l != i ==> b[l] == a[l]
  }

  /** One entry moves: the first of chain i goes to the front of its new chain. */
  method MoveEntry(ghost g: Hashing, ghost rest: Chains, g': Hashing, newTable: array<Entry?>, ghost moved: Chains,
                   ghost index: Index, ghost done: set<bytes>, ghost entries: set<Entry>, ghost i: nat, he: Entry)
    returns (ghost rest': Chains, ghost moved': Chains)
    requires Moving(g, rest, g', newTable, moved, index, done, entries)
    requires i < |rest| && rest[i] != [] && he == rest[i][0]
    modifies newTable, he`next
    ensures he.key in index && he.key !in done
    ensures Moving(g, rest', g', newTable, moved', index, done + {he.key}, entries)
    ensures SameBut(rest, rest', i) && rest'[i] == rest[i][1..]
  {
    var h := Slot(he.key, g');
    rest' := rest[i := rest[i][1..]];
    moved' := moved[h := [he] + moved[h]];
    SidesMove(g, rest, g', moved, index, done, i, rest', moved');
    ghost var c := rest[i];
    assert Linked(c) && Within(c, entries);
    he.next := newTable[h];
    newTable[h] := he;
    forall l | 0 <= l < |rest'|
      ensures Within(rest'[l], entries) && Linked(rest'[l])
    {
      if l == i {
        LinkedTail(c);
      } else {
        assert old(Linked(rest[l]));
      }
    }
    forall l | 0 <= l < |moved|
      ensures Within(moved[l], entries) && Linked(moved[l])
    {
      assert old(Linked(moved[l]));
    }
    LinkedPush(moved, entries, h, he);
    assert entries + {he} == entries;
  }

  /** The move of MoveEntry, as far as the pointers are not concerned. */
  lemma SidesMove(g: Hashing, rest: Chains, g': Hashing, moved: Chains, index: Index, done: set<bytes>,
                  i: nat, rest': Chains, moved': Chains)
    requires done <= index.Keys && Placed(rest, g, index - done) && Placed(moved, g', KeepOnly(index, done))
    requires i < |rest| && rest[i] != [] && rest' == rest[i := rest[i][1..]]
    requires var h := Slot(rest[i][0].key, g'); moved' == moved[h := [rest[i][0]] + moved[h]]
    ensures var he := rest[i][0];
      && he.key in index && he.key !in done
      && Placed(rest', g, index - (done + {he.key}))
      && Placed(moved', g', KeepOnly(index, done + {he.key}))
      && NoDuplicates(rest[i])
      && OnlyIn(rest, i, he)
      && (forall l :: 0 <= l < |moved| ==> he !in moved[l])
  {
    var he := rest[i][0];
    assert Bucket(rest[i], i, g, index - done);
    assert rest[i][..0] + rest[i][1..] == rest[i][1..];
    CutPlaced(rest, g, index - done, i, 0, rest');
    InOneChain(rest, g, index - done, i, 0);
    assert (index - done) - {he.key} == index - (done + {he.key});
    PushPlaced(moved, g', KeepOnly(index, done), he, moved');
    Absent(moved, g', KeepOnly(index, done), he);
    assert KeepOnly(index, done)[he.key := he] == KeepOnly(index, done + {he.key});
  }

  lemma EmptyChains(g: Hashing, chains: Chains, newTable: array<Entry?>, entries: set<Entry>)
    requires |chains| == g.mask + 1 == newTable.Length
    requires forall i :: 0 <= i < |chains| ==> chains[i] == []
    requires forall i :: 0 <= i < newTable.Length ==> newTable[i] == null
    ensures Placed(chains, g, map[]) && AllLinked(chains, entries) && Hung(newTable, chains)
  {
    forall i | 0 <= i < |chains|
      ensures Within(chains[i], entries) && Linked(chains[i]) && Bucket(chains[i], i, g, map[])
    {
      assert chains[i] == [];
    }
  }

  lemma NothingLeft(rest: Chains, g: Hashing, index: Index)
    requires Placed(rest, g, index)
    requires forall i :: 0 <= i < |rest| ==> rest[i] == []
    ensures index == map[]
  {
    assert forall k :: k in index ==> Lodged(k, rest, g, index);
  }

  lemma AllMoved(index: Index, done: set<bytes>)
    requires done <= index.Keys && |index - done| == 0
    ensures KeepOnly(index, done) == index
  {
    assert index - done == map[];
    forall k | k in index
      ensures k in done
    {
      assert k !in index - done;
    }
  }

  /** The inner loop of dictExpand: all of chain i is relinked, in front of what its slots hold. */
  method MoveChain(ghost g: Hashing, ghost rest0: Chains, g': Hashing, newTable: array<Entry?>,
                   ghost moved0: Chains, ghost index: Index, ghost done0: set<bytes>, ghost entries: set<Entry>,
                   ghost i: nat, head: Entry?, left0: nat)
    returns (left: nat, ghost rest: Chains, ghost moved: Chains, ghost done: set<bytes>)
    requires Moving(g, rest0, g', newTable, moved0, index, done0, entries)
    requires i < |rest0| && head == Nth(rest0[i], 0) && left0 == |index - done0|
    modifies newTable, entries`next
    ensures Moving(g, rest, g', newTable, moved, index, done, entries)
    ensures SameBut(rest0, rest, i) && rest[i] == [] && left == |index - done|
  {
    left, rest, moved, done := left0, rest0, moved0, done0;
    var he := head;
    while he != null
      invariant SameBut(rest0, rest, i) && he == Nth(rest[i], 0) && left == |index - done|
      invariant Moving(g, rest, g', newTable, moved, index, done, entries)
      decreases |rest[i]|
    {
      var nextHe := he.next;
      assert Linked(rest[i]) && Within(rest[i], entries);
      OneLess(index, done, he.key);
      rest, moved := MoveEntry(g, rest, g', newTable, moved, index, done, entries, i, he);
      done := done + {he.key};
      left := left - 1;
      he := nextHe;
    }
  }

  /** The old chains below slot i are empty, and the others still hang in their slots. */
  ghost predicate Swept(table: array<Entry?>, rest: Chains, i: nat)
    reads table
  {
    && i <= |rest| == table.Length
    && (forall l :: 0 <= l < i ==> rest[l] == [])
    && (forall l :: i <= l < |rest| ==> table[l] == Nth(rest[l], 0))
  }

  lemma SweptAll(table: array<Entry?>, rest: Chains, g: Hashing, index: Index, done: set<bytes>, left: nat)
    requires Placed(rest, g, index - done) && done <= index.Keys && left == |index - done|
    requires left == 0 || Swept(table, rest, table.Length)
    ensures left == 0 && KeepOnly(index, done) == index
  {
    if left > 0 {
      NothingLeft(rest, g, index - done);
    }
    AllMoved(index, done);
  }

  lemma NothingMoved(table: array<Entry?>, used: nat, g: Hashing, s: Content,
                     newTable: array<Entry?>, g': Hashing, moved: Chains)
    requires Stands(table, used, g, s) && s.chains != []
    requires Placed(moved, g', map[]) && AllLinked(moved, s.entries) && Hung(newTable, moved)
    ensures Moving(g, s.chains, g', newTable, moved, s.index, {}, s.entries)
    ensures s.index - {} == s.index && Swept(table, s.chains, 0)
  {
    assert s.index - {} == s.index && KeepOnly(s.index, {}) == map[];
  }

  /** One turn of the outer loop of dictExpand. */
  method SweepSlot(table: array<Entry?>, i: nat, ghost g: Hashing, ghost rest0: Chains, g': Hashing,
                   newTable: array<Entry?>, ghost moved0: Chains, ghost index: Index, ghost done0: set<bytes>,
                   ghost entries: set<Entry>, left0: nat)
    returns (left: nat, ghost rest: Chains, ghost moved: Chains, ghost done: set<bytes>)
    requires newTable != table && i < table.Length && Swept(table, rest0, i) && left0 == |index - done0|
    requires Moving(g, rest0, g', newTable, moved0, index, done0, entries)
    modifies newTable, entries`next
    ensures Moving(g, rest, g', newTable, moved, index, done, entries) && left == |index - done|
    ensures Swept(table, rest, i + 1)
  {
    left, rest, moved, done :=
      MoveChain(g, rest0, g', newTable, moved0, index, done0, entries, i, table[i], left0);
  }

  /** The outer loop of dictExpand: every slot that the count of entries left to move leads to. */
  method Sweep(table: array<Entry?>, used: nat, ghost g: Hashing, ghost index: Index, ghost entries: set<Entry>,
               ghost rest0: Chains, newTable: array<Entry?>, g': Hashing, ghost moved0: Chains)
    returns (left: nat, ghost rest: Chains, ghost moved: Chains, ghost done: set<bytes>)
    requires newTable != table && used == |index - {}| && Swept(table, rest0, 0)
    requires Moving(g, rest0, g', newTable, moved0, index, {}, entries)
    modifies newTable, entries`next
    ensures Moving(g, rest, g', newTable, moved, index, done, entries) && left == |index - done|
    ensures left == 0 || Swept(table, rest, table.Length)
  {
    left, rest, moved, done := used, rest0, moved0, {};
    var i, size := 0, table.Length;
    while i < size && left > 0
      invariant 0 <= i <= size && left == |index - done|
      invariant Moving(g, rest, g', newTable, moved, index, done, entries)
      invariant Swept(table, rest, i)
    {
      left, rest, moved, done :=
        SweepSlot(table, i, g, rest, g', newTable, moved, index, done, entries, left);
      i := i + 1;
    }
  }

  /** The loops of dictExpand: every entry is relinked into the new table. */
  method Rehash(table: array<Entry?>, used: nat, ghost g: Hashing, ghost s: Content,
                newTable: array<Entry?>, g': Hashing) returns (ghost moved: Chains)
    requires Stands(table, used, g, s) && newTable != table && newTable.Length == g'.mask + 1
    requires forall i :: 0 <= i < newTable.Length ==> newTable[i] == null
    modifies newTable, s.entries`next
    ensures Placed(moved, g', s.index) && AllLinked(moved, s.entries) && Hung(newTable, moved)
  {
    moved := seq(g'.mask + 1, _ => []);
    EmptyChains(g', moved, newTable, s.entries);
    if table.Length == 0 {
      return;
    }
    NothingMoved(table, used, g, s, newTable, g', moved);
    var left; ghost var rest, done;
    left, rest, moved, done := Sweep(table, used, g, s.index, s.entries, s.chains, newTable, g', moved);
    SweptAll(table, rest, g, s.index, done, left);
    assert left == 0;
  }

  lemma OneLess(index: Index, done: set<bytes>, k: bytes)
    ensures k in index && k !in done ==> |index - (done + {k})| == |index - done| - 1
  {
    if k in index && k !in done {
      assert (index - (done + {k})).Keys == (index - done).Keys - {k};
    }
  }
}
