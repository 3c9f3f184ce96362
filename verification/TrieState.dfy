/** The state of a mutable trie between calls: what it owns, what it stands for, and that the store
    still references every node it relies on. */
module TrieStates {
  import opened Bytes
  import opened Nibbles
  import opened Trie
  import opened TrieShape
  import opened TrieNode
  import opened TrieRoot
  import opened HashStore
  import opened Arena
  import opened NodeStorages
  import opened TrieSteps
  import opened TrieCommit
  import opened TrieWrites

  /** t is the one canonical trie of m, within the sizes the encoder can write. */
  ghost predicate Means(t: Tree, m: Contents) {
    Canonical(t) && WellFormed(t) && Represents(t, m) && NoEmptyValue(m) && ShortContents(m)
  }

  ghost predicate Sound(h: HashFn, d: Data, nodes: seq<Stored>, free: seq<nat>, shape: LTree, m: Contents,
                        death: set<H256>, used: iset<bytes>) {
    TreeOk(h, d, nodes, free, shape, {}) && Means(Abs(shape), m) &&
    Enough(h, d, Pers(h, shape) + multiset(death)) && Addressed(h, d, used) && CollisionFree(h, used)
  }

  ghost predicate ShortEdit(edit: Edit) {
    edit.SetValue? ==> 2 * |edit.key| <= MAX_KEY && |edit.value| <= MAX_VALUE
  }

  lemma MeansEdited(t: Tree, m: Contents, edit: Edit)
    requires Means(t, m) && ShortEdit(edit)
    ensures Means(EditTree(t, edit), EditMap(m, edit))
  {
    EditKeeps(t, m, edit);
  }

  lemma MeansEmpty()
    ensures Means(Empty, map[])
  {
  }

  /** A trie that stands for nothing but the empty map is empty. */
  lemma MeansNothing(t: Tree, m: Contents)
    requires Means(t, m)
    ensures t == Empty <==> m == map[]
  {
    if t == Empty {
      forall k ensures k !in m { assert Lookup(t, AsNibbles(k)) == Get(m, k); }
    } else {
      var q := SomeKey(t);
      assert Lookup(t, q).Some?;
      var k: bytes :| AsNibbles(k) == q;
      assert Get(m, k).Some?;
    }
  }

  /** What an edit finds, and when it leaves nothing. */
  lemma EditedMeans(t: Tree, m: Contents, edit: Edit)
    requires Means(t, m) && ShortEdit(edit)
    ensures Lookup(t, AsNibbles(edit.key)) == Get(m, edit.key)
    ensures EditTree(t, edit) == Empty <==> EditMap(m, edit) == map[]
  {
    MeansEdited(t, m, edit);
    MeansNothing(EditTree(t, edit), EditMap(m, edit));
  }

  lemma MeansSmall(t: Tree, m: Contents)
    requires Means(t, m)
    ensures SmallContents(t)
  {
    forall q | Lookup(t, q).Some?
      ensures |q| <= MAX_KEY && |Lookup(t, q).value| <= MAX_VALUE
    {
      var k: bytes :| AsNibbles(k) == q;
      assert Lookup(t, AsNibbles(k)) == Get(m, k);
    }
  }

  /** Keys that can be encoded make a trie no deeper than their lengths. */
  lemma MeansLow(t: Tree, m: Contents)
    requires Means(t, m)
    ensures Height(t) <= MAX_KEY
  {
    MeansSmall(t, m);
    HeightBelow(t, MAX_KEY);
  }

  lemma {:induction false} AllSmallOf(t: Tree)
    requires Canonical(t) && SmallContents(t)
    ensures AllSmall(t)
    decreases t
  {
    SmallRlp(_ => seq(32, _ => 0), t);
    match t {
      case Extension(_, child) =>
        SmallChild(t);
        AllSmallOf(child);
      case Branch(children, _) =>
        forall i: nat | i < 16 ensures AllSmall(children[i]) {
          SmallBranchChild(t, i);
          AllSmallOf(children[i]);
        }
      case _ =>
    }
  }

  /** An edit within its budget leaves the state sound. */
  lemma EditSound(h: HashFn, d: Data, before: seq<Stored>, beforeFree: seq<nat>, nodes: seq<Stored>, free: seq<nat>,
                  shape: LTree, after: LTree, m: Contents, edit: Edit, death: set<H256>, deathAfter: set<H256>,
                  used: iset<bytes>)
    requires Sound(h, d, before, beforeFree, shape, m, death, used) && ShortEdit(edit)
    requires EditedTree(h, d, before, nodes, free, shape, after, {}, death, deathAfter)
    requires Abs(after) == EditTree(Abs(shape), edit)
    ensures Sound(h, d, nodes, free, after, EditMap(m, edit), deathAfter, used)
  {
    MeansEdited(Abs(shape), m, edit);
    EnoughBudget(h, d, Pers(h, shape), death, Pers(h, after), deathAfter);
  }

  lemma EmptyGood(h: HashFn, d: Data)
    ensures Good(h, d, Disk(Empty)) && Pers(h, Disk(Empty)) == multiset{h(NULL_RLP)} &&
      RootHash(h, Empty) == h(NULL_RLP)
  {
    assert Rlp(h, Empty) == [0x80];
    PlusNothing(multiset{h(NULL_RLP)});
  }

  lemma EnoughNull(h: HashFn, d: Data, death: set<H256>)
    requires Enough(h, d, multiset{} + multiset(death))
    ensures Enough(h, d, multiset{h(NULL_RLP)} + multiset(death))
  {
    forall x | x != h(NULL_RLP) ensures Rc(d, x) >= (multiset{h(NULL_RLP)} + multiset(death))[x] {
      assert (multiset{} + multiset(death))[x] == multiset(death)[x];
    }
  }

  /** The trie was obliterated. */
  lemma DropAllSound(h: HashFn, d: Data, before: seq<Stored>, beforeFree: seq<nat>, nodes: seq<Stored>, free: seq<nat>,
                     shape: LTree, m: Contents, edit: Edit, death: set<H256>, deathAfter: set<H256>, used: iset<bytes>)
    requires Sound(h, d, before, beforeFree, shape, m, death, used) && ShortEdit(edit)
    requires RemovedTree(h, before, nodes, free, shape, {}, death, deathAfter)
    requires EditTree(Abs(shape), edit) == Empty
    ensures Sound(h, d, nodes, free, Disk(Empty), EditMap(m, edit), deathAfter, used)
  {
    MeansEdited(Abs(shape), m, edit);
    EnoughBudget(h, d, Pers(h, shape), death, multiset{}, deathAfter);
    EmptyGood(h, d);
    EnoughNull(h, d, deathAfter);
    assert Slots(Disk(Empty)) + {} == {};
  }

  /** What an edit gives back: references are only given up, the row gains exactly the hashes of those, and
      the stored root's is among them when the map has changed. */
  ghost predicate GivesUp(h: HashFn, before: LTree, m: Contents, death: set<H256>, after: LTree, n: Contents,
                          deathAfter: set<H256>) {
    Budget(Pers(h, before), death, if n == map[] then multiset{} else Pers(h, after), deathAfter) &&
    (n != m && Persisted(before) ==> RootHash(h, Abs(before)) in deathAfter)
  }

  lemma EditGivesUp(h: HashFn, before: LTree, m: Contents, edit: Edit, death: set<H256>, after: LTree,
                    deathAfter: set<H256>)
    requires Means(Abs(before), m) && ShortEdit(edit) && Abs(after) == EditTree(Abs(before), edit)
    requires Budget(Pers(h, before), death, Pers(h, after), deathAfter) && Replaces(before, after)
    requires Mourned(h, before, after, deathAfter)
    ensures GivesUp(h, before, m, death, after, EditMap(m, edit), deathAfter)
  {
    MeansEdited(Abs(before), m, edit);
    MeansNothing(Abs(after), EditMap(m, edit));
    if Abs(after) == Abs(before) { RepresentedUnique(Abs(after), m, EditMap(m, edit)); }
  }

  lemma DropAllGivesUp(h: HashFn, d: Data, before: LTree, m: Contents, death: set<H256>, after: LTree,
                       deathAfter: set<H256>)
    requires Budget(Pers(h, before), death, multiset{}, deathAfter)
    requires Good(h, d, before)
    ensures GivesUp(h, before, m, death, after, map[], deathAfter)
  {
    assert Accounted(Pers(h, before), death, multiset{}, deathAfter, RootHash(h, Abs(before)));
  }

  // ---- committing ----

  lemma DrainedSound(h: HashFn, d: Data, e: Data, nodes: seq<Stored>, free: seq<nat>, shape: LTree, m: Contents,
                     death: set<H256>, used: iset<bytes>)
    requires Sound(h, d, nodes, free, shape, m, death, used) && Drained(h, d, e, death)
    ensures Sound(h, e, nodes, free, shape, m, {}, used)
  {
    DrainedKeeps(h, d, e, death, Pers(h, shape), used);
    GoodSame(h, d, e, shape);
    PlusNothing(Pers(h, shape));
  }

  lemma SoundReady(h: HashFn, d: Data, nodes: seq<Stored>, free: seq<nat>, shape: LTree, m: Contents, used: iset<bytes>)
    requires Sound(h, d, nodes, free, shape, m, {}, used)
    ensures Ready(h, d, used) && AllSmall(Abs(shape)) && Enough(h, d, Pers(h, shape))
  {
    MeansSmall(Abs(shape), m);
    AllSmallOf(Abs(shape));
    PlusNothing(Pers(h, shape));
    forall x | x != h(NULL_RLP) ensures Rc(d, x) >= 0 {
      assert Rc(d, x) >= (Pers(h, shape) + multiset{})[x];
    }
  }

  /** Writing the root of a new trie leaves the whole trie on disk. */
  lemma CommittedSound(h: HashFn, d: Data, e: Data, before: seq<Stored>, nodes: seq<Stored>, free: seq<nat>,
                       shape: LTree, m: Contents, used: iset<bytes>)
    requires shape.Mem? && shape.cached.None? && Means(Abs(shape), m) && AllSmall(Abs(shape))
    requires Ready(h, d, used) && Enough(h, d, Pers(h, shape)) && Rlp(h, Abs(shape)) in used
    requires NodeWritten(h, d, e, before, nodes, free, shape.node, {}, used)
    ensures OnDisk(h, DbInsert(h, e, Rlp(h, Abs(shape))), nodes, free, Abs(shape), m, used)
    ensures Gained(h, d, DbInsert(h, e, Rlp(h, Abs(shape))), Pers(h, shape), Pers(h, Disk(Abs(shape))))
  {
    var t := Abs(shape);
    var f := DbInsert(h, e, Rlp(h, t));
    RootInserted(h, d, e, t, PersNode(h, shape.node), used);
    PlusNothing(PersNode(h, shape.node));
    EnoughAfter(h, d, f, Pers(h, shape), Pers(h, Disk(t)));
    DiskSound(h, f, nodes, free, t, m, used);
  }

  /** A trie all in the store, with a reference for each of its nodes. */
  ghost predicate OnDisk(h: HashFn, d: Data, nodes: seq<Stored>, free: seq<nat>, t: Tree, m: Contents,
                         used: iset<bytes>) {
    Sound(h, d, nodes, free, Disk(t), m, {}, used) && Good(h, d, Disk(t)) && Enough(h, d, Pers(h, Disk(t)))
  }

  lemma DiskSound(h: HashFn, d: Data, nodes: seq<Stored>, free: seq<nat>, t: Tree, m: Contents, used: iset<bytes>)
    requires Tidy(nodes, free, {}) && Good(h, d, Disk(t)) && Means(t, m) && Enough(h, d, Pers(h, Disk(t)))
    requires Addressed(h, d, used) && CollisionFree(h, used)
    ensures OnDisk(h, d, nodes, free, t, m, used)
  {
    PlusNothing(Pers(h, Disk(t)));
    assert Slots(Disk(t)) + {} == {};
  }

  // ---- what a stored root says ----

  /** Only the empty trie has the hash of the empty trie. */
  lemma NullRoot(h: HashFn, d: Data, t: Tree)
    requires Good(h, d, Disk(t))
    ensures RootHash(h, t) == h(NULL_RLP) <==> t == Empty
  {
    assert Rlp(h, Empty) == NULL_RLP;
    if RootHash(h, t) == h(NULL_RLP) {
      assert Rlp(h, t) == NULL_RLP;
      if t != Empty {
        SmallNodeRlp(h, t);
        DecodeNodeOfRlp(h, t);
        DecodeNodeOfRlp(h, Empty);
      }
    }
  }
}
