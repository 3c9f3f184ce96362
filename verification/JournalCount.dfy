/** Counting in the pruning journal: what all journalled entries insert, the overlay that mirrors
    it, and the bytes that overlay holds. */
module JournalCounts {
  import opened Bytes
  import opened TrieNode
  import opened HashStore
  import opened JournalRecords

  type Journal = map<nat, seq<JournalEntry>>

  function EntriesOf(j: Journal, era: nat): seq<JournalEntry> {
    if era in j then j[era] else []
  }

  /** Everything a list of entries inserts. */
  ghost function InsertedBy(entries: seq<JournalEntry>): multiset<H256> {
    if entries == [] then multiset{}
    else InsertedBy(entries[..|entries| - 1]) + multiset(entries[|entries| - 1].insertions)
  }

  /** Everything the journal inserts, each key as often as it is inserted. */
  ghost function Held(j: Journal): multiset<H256> {
    if j == map[] then multiset{}
    else
      var era :| era in j;
      InsertedBy(j[era]) + Held(j - {era})
  }

  /** The sum does not depend on the order of the eras. */
  lemma {:induction false} HeldTake(j: Journal, era: nat)
    requires era in j
    ensures Held(j) == InsertedBy(j[era]) + Held(j - {era})
    decreases |j|
  {
    var first :| first in j && Held(j) == InsertedBy(j[first]) + Held(j - {first});
    if first != era {
      HeldTake(j - {first}, era);
      HeldTake(j - {era}, first);
      WithoutBoth(j, first, era);
      Swap(InsertedBy(j[first]), InsertedBy(j[era]), Held(j - {first} - {era}));
    }
  }

  lemma WithoutBoth<K, V>(m: map<K, V>, a: K, b: K)
    ensures m - {a} - {b} == m - {b} - {a}
  {
  }

  lemma Swap(a: multiset<H256>, b: multiset<H256>, c: multiset<H256>)
    ensures a + (b + c) == b + (a + c)
  {
  }

  lemma HeldWithout(j: Journal, era: nat)
    ensures Held(j) == InsertedBy(EntriesOf(j, era)) + Held(j - {era})
  {
    if era in j {
      HeldTake(j, era);
    } else {
      assert j - {era} == j;
      PlusNothing(Held(j));
    }
  }

  /** One entry more in an era. */
  lemma HeldAdd(j: Journal, era: nat, e: JournalEntry)
    ensures Held(j[era := EntriesOf(j, era) + [e]]) == Held(j) + multiset(e.insertions)
  {
    var k := j[era := EntriesOf(j, era) + [e]];
    HeldWithout(j, era);
    HeldWithout(k, era);
    assert k - {era} == j - {era};
    assert (EntriesOf(j, era) + [e])[..|EntriesOf(j, era)|] == EntriesOf(j, era);
  }

  // ---- counting a list key by key ----

  /** The first i keys counted on top of what was there. */
  ghost function CountedTo(start: multiset<H256>, s: seq<H256>, i: nat): multiset<H256>
    requires i <= |s|
  {
    start + multiset(s[..i])
  }

  lemma CountedNone(start: multiset<H256>, s: seq<H256>)
    ensures CountedTo(start, s, 0) == start
  {
    assert s[..0] == [];
  }

  lemma CountedNext(start: multiset<H256>, s: seq<H256>, i: nat)
    requires i < |s|
    ensures CountedTo(start, s, i) + multiset{s[i]} == CountedTo(start, s, i + 1)
  {
    TakeSnoc(s, i);
  }

  lemma CountedAll(start: multiset<H256>, s: seq<H256>)
    ensures CountedTo(start, s, |s|) == start + multiset(s)
  {
    TakeAll(s);
  }

  // ---- bytes held ----

  ghost function SumSizes(d: Data): nat {
    if d == map[] then 0
    else
      var k :| k in d;
      |d[k].value| + SumSizes(d - {k})
  }

  lemma {:induction false} SumTake(d: Data, k: H256)
    requires k in d
    ensures SumSizes(d) == |d[k].value| + SumSizes(d - {k})
    decreases |d|
  {
    var first :| first in d && SumSizes(d) == |d[first].value| + SumSizes(d - {first});
    if first != k {
      SumTake(d - {first}, k);
      SumTake(d - {k}, first);
      WithoutBoth(d, first, k);
    }
  }

  lemma SumPut(d: Data, k: H256, c: Counted)
    ensures SumSizes(d[k := c]) == |c.value| + SumSizes(d - {k})
    ensures k !in d ==> SumSizes(d[k := c]) == |c.value| + SumSizes(d)
    ensures k in d && d[k].value == c.value ==> SumSizes(d[k := c]) == SumSizes(d)
  {
    SumTake(d[k := c], k);
    assert d[k := c] - {k} == d - {k};
    if k in d { SumTake(d, k); } else { assert d - {k} == d; }
  }

  // ---- the overlay ----

  /** A key cut to the length the database searches by, the rest zero. */
  function Short(k: H256): H256 {
    k[..DB_PREFIX_LEN] + seq(20, _ => 0)
  }

  /** The keys used, the value each addresses, and the way back from a short key. */
  datatype Universe = Universe(keys: iset<H256>, content: H256 -> bytes, full: H256 -> H256)

  /** Short keys are not confused, among each other or with the empty trie's. */
  ghost predicate Proper(u: Universe, h: HashFn) {
    forall k :: k in u.keys ==>
      u.full(Short(k)) == k && Short(k) != h(NULL_RLP) && k != h(NULL_RLP) && u.content(k) != NULL_RLP
  }

  /** An overlay entry s is the key behind s with its value and its number of insertions. */
  ghost predicate Mirrors(u: Universe, d: Data, held: multiset<H256>, s: H256) {
    s in d ==>
      var k := u.full(s);
      k in held && Short(k) == s && d[s] == Counted(u.content(k), held[k])
  }

  /** A key held is in use and counted under its short form. */
  ghost predicate CountedIn(u: Universe, d: Data, held: multiset<H256>, k: H256) {
    k in held ==> k in u.keys && Short(k) in d
  }

  /** The overlay counts exactly the insertions held. */
  ghost predicate Reflects(u: Universe, d: Data, held: multiset<H256>) {
    (forall k :: CountedIn(u, d, held, k)) && (forall s :: Mirrors(u, d, held, s))
  }

  lemma ReflectsUnique(u: Universe, d: Data, e: Data, held: multiset<H256>)
    requires Reflects(u, d, held) && Reflects(u, e, held)
    ensures d == e
  {
    forall s
      ensures s in d <==> s in e
      ensures s in d ==> d[s] == e[s]
    {
      assert Mirrors(u, d, held, s) && Mirrors(u, e, held, s);
      assert CountedIn(u, d, held, u.full(s)) && CountedIn(u, e, held, u.full(s));
    }
  }

  /** What the overlay answers for a key's short form. */
  lemma ReflectsAnswer(u: Universe, h: HashFn, d: Data, held: multiset<H256>, k: H256)
    requires Reflects(u, d, held) && Proper(u, h) && k in u.keys
    ensures DbGet(h, d, Short(k)) == if k in held then Some(u.content(k)) else None
    ensures k in held <==> Short(k) in d
    ensures k in held ==> d[Short(k)] == Counted(u.content(k), held[k])
  {
    assert CountedIn(u, d, held, k) && Mirrors(u, d, held, Short(k));
  }

  /** One insertion more. */
  lemma EmplaceReflects(u: Universe, h: HashFn, d: Data, held: multiset<H256>, k: H256)
    requires Reflects(u, d, held) && Proper(u, h) && k in u.keys
    ensures Reflects(u, DbEmplace(d, Short(k), u.content(k)), held + multiset{k})
    ensures SumSizes(DbEmplace(d, Short(k), u.content(k))) ==
      SumSizes(d) + if DbGet(h, d, Short(k)).Some? then 0 else |u.content(k)|
  {
    ReflectsAnswer(u, h, d, held, k);
    var e, more := DbEmplace(d, Short(k), u.content(k)), held + multiset{k};
    forall x ensures CountedIn(u, e, more, x) { assert CountedIn(u, d, held, x); }
    forall s ensures Mirrors(u, e, more, s) { assert Mirrors(u, d, held, s); }
    SumPut(d, Short(k), e[Short(k)]);
  }

  /** One insertion taken back; the last one takes the entry with it. */
  lemma PurgeReflects(u: Universe, h: HashFn, d: Data, held: multiset<H256>, k: H256)
    requires Reflects(u, d, held) && Proper(u, h) && k in held
    ensures var (e, purged) := DbRemoveAndPurge(h, d, Short(k));
      Reflects(u, e, held - multiset{k}) && Short(k) in d &&
      (purged.Some? <==> held[k] == 1) &&
      SumSizes(d) == SumSizes(e) + (if purged.Some? then |purged.value| else 0)
  {
    assert CountedIn(u, d, held, k);
    ReflectsAnswer(u, h, d, held, k);
    var (e, purged) := DbRemoveAndPurge(h, d, Short(k));
    var less := held - multiset{k};
    forall x ensures CountedIn(u, e, less, x) {
      assert CountedIn(u, d, held, x);
      if x in less && held[k] == 1 { assert u.full(Short(x)) == x && u.full(Short(k)) == k; }
    }
    forall s ensures Mirrors(u, e, less, s) {
      assert Mirrors(u, d, held, s);
    }
    if held[k] == 1 { SumTake(d, Short(k)); } else { SumPut(d, Short(k), e[Short(k)]); }
  }
}
