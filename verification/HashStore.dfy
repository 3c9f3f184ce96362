/** The reference-counted in-memory hash store. */
module HashStore {
  import opened Bytes
  import opened TrieNode

  /** The encoding of the empty trie, which every store holds under its own hash. */
  const NULL_RLP: bytes := [0x80]

  /** A stored value and its signed reference count. */
  datatype Counted = Counted(value: bytes, rc: int)

  type Data = map<H256, Counted>

  function Rc(d: Data, k: H256): int {
    if k in d then d[k].rc else 0
  }

  function DbGet(h: HashFn, d: Data, k: H256): Option<bytes> {
    if k == h(NULL_RLP) then Some(NULL_RLP)
    else if k in d && d[k].rc > 0 then Some(d[k].value)
    else None
  }

  /** One more reference; the value is replaced only where none was referenced. */
  function DbEmplace(d: Data, k: H256, v: bytes): Data {
    if v == NULL_RLP then d
    else if k !in d then d[k := Counted(v, 1)]
    else d[k := Counted(if d[k].rc <= 0 then v else d[k].value, d[k].rc + 1)]
  }

  function DbInsert(h: HashFn, d: Data, v: bytes): Data {
    DbEmplace(d, h(v), v)
  }

  /** One reference less, possibly below zero. */
  function DbRemove(h: HashFn, d: Data, k: H256): Data {
    if k == h(NULL_RLP) then d
    else if k !in d then d[k := Counted([], -1)]
    else d[k := Counted(d[k].value, d[k].rc - 1)]
  }

  /** What is held of a key, readable or not; the empty trie's encoding is always there. */
  function DbRaw(h: HashFn, d: Data, k: H256): Option<Counted> {
    if k == h(NULL_RLP) then Some(Counted(NULL_RLP, 1))
    else if k in d then Some(d[k])
    else None
  }

  /** One reference less, and the entry is gone with its last one; its value is then returned. */
  function DbRemoveAndPurge(h: HashFn, d: Data, k: H256): (Data, Option<bytes>) {
    if k == h(NULL_RLP) then (d, None)
    else if k !in d then (d[k := Counted([], -1)], None)
    else if d[k].rc == 1 then (d - {k}, Some(d[k].value))
    else (d[k := Counted(d[k].value, d[k].rc - 1)], None)
  }

  /** The entries of which references are left over, or owed. */
  function DbPurge(d: Data): Data {
    map k | k in d && d[k].rc != 0 :: d[k]
  }

  /** The entries that count, as they were; no count is lost or made up, and no answer changes. */
  ghost predicate Purged(h: HashFn, before: Data, after: Data) {
    (forall k :: k in after ==> after[k].rc != 0 && k in before && after[k] == before[k]) &&
    (forall k :: Rc(after, k) == Rc(before, k)) &&
    (forall k :: DbGet(h, after, k) == DbGet(h, before, k))
  }

  /** Purging is the only way to do so, and it is done at once. */
  lemma PurgeKeeps(h: HashFn, d: Data, e: Data)
    ensures Purged(h, d, e) <==> e == DbPurge(d)
    ensures DbPurge(DbPurge(d)) == DbPurge(d)
  {
    if Purged(h, d, e) {
      forall k ensures k in e <==> k in DbPurge(d) { assert Rc(e, k) == Rc(d, k); }
    }
  }

  /** One entry merged into what is there. */
  function Merged(d: Data, k: H256, c: Counted): Counted {
    if k in d then Counted(if d[k].rc < 0 then c.value else d[k].value, d[k].rc + c.rc) else c
  }

  /** All entries of other merged in: counts add up, and a debt takes the other's value. */
  function DbConsolidate(d: Data, other: Data): (r: Data)
    ensures r.Keys == d.Keys + other.Keys
    ensures forall k :: Rc(r, k) == Rc(d, k) + Rc(other, k)
  {
    map k | k in d.Keys + other.Keys :: if k in other then Merged(d, k, other[k]) else d[k]
  }

  /** Every referenced value hashes to its key, and all of them are among the strings used. */
  ghost predicate Addressed(h: HashFn, d: Data, used: iset<bytes>) {
    NULL_RLP in used && forall k :: k in d && d[k].rc > 0 ==> d[k].value in used && h(d[k].value) == k
  }

  /** No two of the strings used share a hash. */
  ghost predicate CollisionFree(h: HashFn, used: iset<bytes>) {
    forall a, b :: a in used && b in used && h(a) == h(b) ==> a == b
  }

  /** Nothing readable is lost or changed. */
  ghost predicate Extends(h: HashFn, d: Data, e: Data) {
    forall k :: DbGet(h, d, k).Some? ==> DbGet(h, e, k) == DbGet(h, d, k)
  }

  lemma InsertReadable(h: HashFn, d: Data, v: bytes, used: iset<bytes>)
    requires Addressed(h, d, used) && CollisionFree(h, used) && v in used && Rc(d, h(v)) >= 0
    ensures DbGet(h, DbInsert(h, d, v), h(v)) == Some(v)
    ensures Extends(h, d, DbInsert(h, d, v)) && Addressed(h, DbInsert(h, d, v), used)
    ensures forall k :: k != h(NULL_RLP) ==> Rc(DbInsert(h, d, v), k) == Rc(d, k) + if k == h(v) then 1 else 0
  {
    assert h(v) == h(NULL_RLP) ==> v == NULL_RLP;
    if h(v) in d && d[h(v)].rc > 0 { assert d[h(v)].value == v; }
  }

  /** A removal takes back an insertion of the same value: counts and answers are as before. */
  lemma RemoveAfterInsert(h: HashFn, d: Data, v: bytes, k: H256)
    requires CollisionFree(h, iset{NULL_RLP, v})
    ensures Rc(DbRemove(h, DbInsert(h, d, v), h(v)), k) == Rc(d, k)
    ensures DbGet(h, DbRemove(h, DbInsert(h, d, v), h(v)), k) == DbGet(h, d, k)
  {
    assert v in iset{NULL_RLP, v} && NULL_RLP in iset{NULL_RLP, v};
  }

  /** The entries of other not in rest are merged, the others not yet. */
  ghost predicate MergedBut(before: Data, other: Data, d: Data, rest: set<H256>) {
    d.Keys == before.Keys + (other.Keys - rest) &&
    forall k :: k in d ==> d[k] == if k in other && k !in rest then Merged(before, k, other[k]) else before[k]
  }

  lemma MergedStep(before: Data, other: Data, d: Data, rest: set<H256>, key: H256)
    requires MergedBut(before, other, d, rest) && rest <= other.Keys && key in rest
    ensures MergedBut(before, other, d[key := Merged(d, key, other[key])], rest - {key})
  {
    assert key in d <==> key in before;
    assert key in d ==> d[key] == before[key];
  }

  lemma MergedNone(before: Data, other: Data)
    ensures MergedBut(before, other, before, other.Keys)
  {
  }

  lemma MergedAll(before: Data, other: Data, d: Data)
    requires MergedBut(before, other, d, {})
    ensures d == DbConsolidate(before, other)
  {
  }

  class MemoryDB {
    const h: HashFn
    var data: Data

    constructor (h: HashFn)
      ensures this.h == h && data == map[]
    {
      this.h := h;
      data := map[];
    }

    /** Some for every key with a positive count; the source calls this get and contains. */
    method Get(k: H256) returns (v: Option<bytes>)
      ensures v == DbGet(h, data, k)
    {
      if k == h(NULL_RLP) {
        return Some(NULL_RLP);
      }
      if k in data && data[k].rc > 0 {
        v := Some(data[k].value);
      } else {
        v := None;
      }
    }

    method Insert(value: bytes) returns (key: H256)
      modifies this
      ensures key == h(value) && data == DbInsert(h, old(data), value)
    {
      if value == NULL_RLP {
        return h(NULL_RLP);
      }
      key := h(value);
      if key in data {
        var entry := data[key];
        if entry.rc <= 0 {
          entry := entry.(value := value);
        }
        data := data[key := entry.(rc := entry.rc + 1)];
      } else {
        data := data[key := Counted(value, 1)];
      }
    }

    /** A value under a key given by the caller; only the value is checked for the empty trie's. */
    method Emplace(key: H256, value: bytes)
      modifies this
      ensures data == DbEmplace(old(data), key, value)
    {
      if value == NULL_RLP {
        return;
      }
      if key in data {
        var entry := data[key];
        if entry.rc <= 0 {
          entry := entry.(value := value);
        }
        data := data[key := entry.(rc := entry.rc + 1)];
      } else {
        data := data[key := Counted(value, 1)];
      }
    }

    method Raw(k: H256) returns (c: Option<Counted>)
      ensures c == DbRaw(h, data, k)
    {
      if k == h(NULL_RLP) {
        return Some(Counted(NULL_RLP, 1));
      }
      c := if k in data then Some(data[k]) else None;
    }

    method RemoveAndPurge(key: H256) returns (purged: Option<bytes>)
      modifies this
      ensures (data, purged) == DbRemoveAndPurge(h, old(data), key)
    {
      purged := None;
      if key == h(NULL_RLP) {
        return;
      }
      if key in data {
        var entry := data[key];
        if entry.rc == 1 {
          purged := Some(entry.value);
          data := data - {key};
        } else {
          data := data[key := entry.(rc := entry.rc - 1)];
        }
      } else {
        data := data[key := Counted([], -1)];
      }
    }

    method Purge()
      modifies this
      ensures Purged(h, old(data), data)
    {
      PurgeKeeps(h, data, DbPurge(data));
      data := map k | k in data && data[k].rc != 0 :: data[k];
    }

    /** Hands over all entries and starts afresh. */
    method Drain() returns (drained: Data)
      modifies this
      ensures drained == old(data) && data == map[]
    {
      drained := data;
      data := map[];
    }

    method Consolidate(other: MemoryDB)
      requires other != this
      modifies this, other
      ensures data == DbConsolidate(old(data), old(other.data)) && other.data == map[]
    {
      ghost var before := data;
      var drained := other.Drain();
      var rest := drained.Keys;
      MergedNone(before, drained);
      while rest != {}
        invariant rest <= drained.Keys && other.data == map[] && MergedBut(before, drained, data, rest)
        decreases |rest|
      {
        var key :| key in rest;
        MergedStep(before, drained, data, rest, key);
        MergeEntry(key, drained[key]);
        rest := rest - {key};
      }
      MergedAll(before, drained, data);
    }

    method MergeEntry(key: H256, c: Counted)
      modifies this
      ensures data == old(data)[key := Merged(old(data), key, c)]
    {
      if key in data {
        var entry := data[key];
        if entry.rc < 0 {
          entry := entry.(value := c.value);
        }
        data := data[key := entry.(rc := entry.rc + c.rc)];
      } else {
        data := data[key := c];
      }
    }

    method Remove(key: H256)
      modifies this
      ensures data == DbRemove(h, old(data), key)
    {
      if key == h(NULL_RLP) {
        return;
      }
      if key in data {
        data := data[key := data[key].(rc := data[key].rc - 1)];
      } else {
        data := data[key := Counted([], -1)];
      }
    }
  }
}
