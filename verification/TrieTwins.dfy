/** The one way in which the store keeps a reference it does not need: two equal nodes given up together. */
module TrieTwins {
  import opened Bytes
  import opened RlpSpec
  import opened Nibbles
  import opened Trie
  import opened TrieNode
  import opened TrieRoot
  import opened HashStore
  import opened Arena
  import opened TrieSteps
  import opened TrieCommit
  import opened TrieWrites
  import opened TrieStates
  import opened TrieDBMuts
  import opened TrieCounts
  import opened TrieScripts
  import opened TrieRuns

  /** The leaf that both keys have below the branch, and the tries of one key and of both. */
  function Twin(v: bytes): Tree {
    Leaf([0], v)
  }

  function OneKey(v: bytes): Tree {
    Leaf([1, 0], v)
  }

  function BothKeys(v: bytes): Tree {
    Branch(NO_CHILDREN[1 := Twin(v)][2 := Twin(v)], None)
  }

  lemma TwinsBuilt(v: bytes)
    ensures AsNibbles([0x10]) == [1, 0] && AsNibbles([0x20]) == [2, 0]
    ensures Insert(OneKey(v), [2, 0], v) == BothKeys(v)
  {
    var stub := NO_CHILDREN[1 := Twin(v)];
    assert LeafToBranch([1, 0], v) == Branch(stub, None) by { assert [1 as nibble, 0][1..] == [0]; }
    assert CommonPrefix([2, 0], [1, 0]) == 0;
    assert stub[2] == Empty && [2 as nibble, 0][1..] == [0];
    assert Insert(Branch(stub, None), [2, 0], v) == Branch(stub[2 := Insert(Empty, [0], v)], None);
  }

  /** The steps before the removal: both keys set, and committed. */
  function BothSteps(v: bytes): seq<Step> {
    [Change(SetValue([0x10], v)), Change(SetValue([0x20], v)), Commit]
  }

  function BothEdits(v: bytes): seq<Edit> {
    [SetValue([0x10], v), SetValue([0x20], v)]
  }

  /** A first edit, or one more before anything is committed. */
  lemma NewEdit(h: HashFn, steps: seq<Step>, edit: Edit)
    requires AccountOf(h, steps).committed == []
    ensures var a, b := AccountOf(h, steps), AccountOf(h, steps + [Change(edit)]);
      b.edits == a.edits + [edit] && b.committed == [] && b.twinFree == a.twinFree
  {
    EmptyHolds(h, map[], Disk(Empty));
    assert RunTree([]) == Empty;
    assert (steps + [Change(edit)])[..|steps|] == steps;
  }

  lemma BothAccount(h: HashFn, v: bytes)
    ensures var steps, edits := BothSteps(v), BothEdits(v);
      AccountOf(h, steps[..2]).edits == edits && AccountOf(h, steps) == Account(edits, edits, edits, true)
  {
    var steps, edits := BothSteps(v), BothEdits(v);
    NewEdit(h, [], edits[0]);
    NewEdit(h, [Change(edits[0])], edits[1]);
    assert [] + [Change(edits[0])] == [Change(edits[0])];
    assert steps[..2] == [Change(edits[0])] + [Change(edits[1])];
    assert steps[..3] == steps && [] + [edits[0]] + [edits[1]] == edits;
    AccountNext(h, steps, 2);
  }

  lemma OneRun(v: bytes)
    requires v != []
    ensures BothEdits(v)[..1] == [SetValue([0x10], v)]
    ensures RunTree([SetValue([0x10], v)]) == OneKey(v) && RunMap([SetValue([0x10], v)]) == map[[0x10] := v]
  {
    TwinsBuilt(v);
    assert [SetValue([0x10], v)][..0] == [] && RunTree([]) == Empty;
  }

  lemma BothRun(v: bytes)
    requires v != []
    ensures RunTree(BothEdits(v)) == BothKeys(v) && RunMap(BothEdits(v)) == map[[0x10] := v, [0x20] := v]
  {
    OneRun(v);
    TwinsBuilt(v);
  }

  lemma BothLegal(h: HashFn, v: bytes, used: iset<bytes>)
    requires v != [] && |v| <= MAX_VALUE && Within(h, BothKeys(v), used)
    ensures LegalSteps(h, used, BothSteps(v))
  {
    var steps := BothSteps(v);
    BothAccount(h, v);
    BothRun(v);
    LastLegal(h, used, AccountOf(h, steps[..2]), v);
    forall i | 0 <= i < |steps| ensures LegalAt(h, used, steps, i) {
      if i < 2 { EditLegal(h, used, AccountOf(h, steps[..i]), steps[i]); }
    }
  }

  lemma EditLegal(h: HashFn, used: iset<bytes>, a: Account, step: Step)
    requires step.Change? && ShortEdit(step.edit)
    ensures Legal(h, used, a, step)
  {
  }

  lemma LastLegal(h: HashFn, used: iset<bytes>, a: Account, v: bytes)
    requires a.edits == BothEdits(v) && RunTree(BothEdits(v)) == BothKeys(v) && Within(h, BothKeys(v), used)
    ensures Legal(h, used, a, Commit)
  {
  }

  lemma HashesFrom(h: HashFn, children: seq<Tree>, x: H256)
    requires children != []
    ensures HashesAll(h, children)[x] == HashesOf(h, children[0])[x] + HashesAll(h, children[1..])[x]
  {
  }

  lemma HashesTwice(h: HashFn, children: seq<Tree>, t: Tree, x: H256)
    requires |children| > 2 && children[1] == t && children[2] == t
    ensures HashesAll(h, children)[x] >= 2 * HashesOf(h, t)[x]
  {
    var second, third := children[1..], children[1..][1..];
    HashesFrom(h, children, x);
    HashesFrom(h, second, x);
    HashesFrom(h, third, x);
    assert second[0] == t && third[0] == t;
  }

  /** The twin is hashed, is there twice, and is no node of the trie of one key. */
  lemma TwinNodes(h: HashFn, v: bytes, used: iset<bytes>)
    requires 32 <= |v| <= MAX_VALUE && CollisionFree(h, used)
    requires Within(h, BothKeys(v), used) && Within(h, OneKey(v), used)
    ensures var x := RootHash(h, Twin(v));
      x != h(NULL_RLP) && Pers(h, Disk(BothKeys(v)))[x] >= 2 && x !in Pers(h, Disk(OneKey(v)))
  {
    var t := BothKeys(v);
    assert t.children[0] == Empty && t.children[1] == Twin(v) && t.children[2] == Twin(v);
    assert Within(h, t.children[0], used) && Within(h, t.children[1], used);
    TwinHashed(h, v);
    HashesTwice(h, t.children, Twin(v), RootHash(h, Twin(v)));
    TwinApart(h, v);
  }

  lemma TwinHashed(h: HashFn, v: bytes)
    requires 32 <= |v| <= MAX_VALUE
    ensures Hashed(h, Twin(v)) && Rlp(h, Empty) == NULL_RLP && Rlp(h, Twin(v)) != NULL_RLP
  {
    var key := Item.Data(HexPrefix([0], true));
    var items := [key, Item.Data(v)];
    assert items[1..] == [Item.Data(v)] && items[1..][1..] == [];
    assert EncodeAll(items) == Encode(key) + (Encode(Item.Data(v)) + EncodeAll([]));
  }

  lemma TwinApart(h: HashFn, v: bytes)
    requires v != [] && |v| <= MAX_VALUE
    ensures Rlp(h, Twin(v)) != Rlp(h, OneKey(v))
  {
    SmallNodeRlp(h, Twin(v));
    SmallNodeRlp(h, OneKey(v));
    DecodeNodeOfRlp(h, Twin(v));
    DecodeNodeOfRlp(h, OneKey(v));
  }

  /** Two keys with one long value, committed, one of them removed, and committed again: the leaf that
      both had below the branch is in the trie no more, and the store still has a reference to it. */
  method TwinLeaks(h: HashFn, db: MemoryDB, v: bytes, ghost used: iset<bytes>) returns (trie: TrieDBMut)
    requires db.h == h && Ready(h, db.data, used) && 32 <= |v| <= MAX_VALUE
    requires Within(h, BothKeys(v), used) && Within(h, OneKey(v), used)
    modifies db
    ensures trie.Valid() && trie.contents == map[[0x10] := v] && trie.root == RootHash(h, OneKey(v))
    ensures RootHash(h, Twin(v)) !in Pers(h, Disk(OneKey(v)))
    ensures Rc(db.data, RootHash(h, Twin(v))) > Rc(old(db.data), RootHash(h, Twin(v)))
  {
    ghost var base := db.data;
    TwinNodes(h, v, used);
    trie := StoreBoth(h, db, v, used);
    RemoveTwin(trie, v, base, Pers(h, Disk(BothKeys(v))), RootHash(h, Twin(v)));
  }

  method StoreBoth(h: HashFn, db: MemoryDB, v: bytes, ghost used: iset<bytes>) returns (trie: TrieDBMut)
    requires db.h == h && Ready(h, db.data, used) && v != [] && |v| <= MAX_VALUE && Within(h, BothKeys(v), used)
    modifies db
    ensures fresh(trie) && fresh(trie.storage) && trie.db == db && trie.h == h && trie.used == used
    ensures trie.Valid() && trie.contents == map[[0x10] := v, [0x20] := v]
    ensures Counts(h, old(db.data), db.data, Pers(h, trie.shape), trie.deathRow, Pers(h, Disk(BothKeys(v))), true)
  {
    BothLegal(h, v, used);
    BothAccount(h, v);
    BothRun(v);
    trie := TakeEach(h, db, BothSteps(v), used);
  }

  /** The hash has two references and gives back one. */
  lemma TwinLost(h: HashFn, base: Data, d: Data, e: Data, held: multiset<H256>, death: set<H256>,
                 stored: multiset<H256>, after: multiset<H256>, deathAfter: set<H256>, needed: multiset<H256>, x: H256)
    requires Counts(h, base, d, held, death, stored, true) && Budget(held, death, after, deathAfter)
    requires Settled(h, d, e, deathAfter, after, needed)
    requires x != h(NULL_RLP) && stored[x] >= 2 && after[x] == 0 && needed[x] == 0
    ensures Rc(e, x) > Rc(base, x)
  {
    assert CountsAt(base, d, held, death, stored, true, x) && Accounted(held, death, after, deathAfter, x);
  }

  method RemoveTwin(trie: TrieDBMut, v: bytes, ghost base: Data, ghost stored: multiset<H256>, ghost x: H256)
    requires trie.Valid() && trie.contents == map[[0x10] := v, [0x20] := v] && v != []
    requires Counts(trie.h, base, trie.db.data, Pers(trie.h, trie.shape), trie.deathRow, stored, true)
    requires Within(trie.h, OneKey(v), trie.used)
    requires x != trie.h(NULL_RLP) && stored[x] >= 2 && x !in Pers(trie.h, Disk(OneKey(v)))
    modifies trie, trie.storage, trie.db
    ensures trie.Valid() && trie.contents == map[[0x10] := v] && trie.root == RootHash(trie.h, OneKey(v))
    ensures Rc(trie.db.data, x) > Rc(base, x)
  {
    ghost var d, held, death := trie.db.data, Pers(trie.h, trie.shape), trie.deathRow;
    var _ := trie.Remove([0x20]);
    DropSecond(v);
    OneKeyLeft(trie.h, d, trie.shape, trie.contents, v, x);
    ghost var after, deathAfter := Pers(trie.h, trie.shape), trie.deathRow;
    assert Budget(held, death, after, deathAfter);
    trie.Commit();
    TwinLost(trie.h, base, d, trie.db.data, held, death, stored, after, deathAfter, Pers(trie.h, trie.shape), x);
  }

  lemma DropSecond(v: bytes)
    ensures EditMap(map[[0x10] := v, [0x20] := v], DropKey([0x20])) == map[[0x10] := v]
    ensures [0x10] in map[[0x10] := v] && map[[0x10] := v] != map[]
  {
    var m: Contents := map[[0x10] := v];
    assert [0x10] in m;
  }

  lemma OneKeyLeft(h: HashFn, d: Data, shape: LTree, m: Contents, v: bytes, x: H256)
    requires Means(Abs(shape), m) && Good(h, d, shape) && m == map[[0x10] := v] && v != []
    requires x !in Pers(h, Disk(OneKey(v)))
    ensures Abs(shape) == OneKey(v) && Pers(h, shape)[x] == 0
  {
    OneRun(v);
    RepresentsUnique(Abs(shape), OneKey(v), m);
    HeldWithin(h, d, shape);
  }
}
