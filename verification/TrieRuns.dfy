/** Whole runs against the mutable trie, its root against the root of the key-value list, and what
    the written store answers afterwards. */
module TrieRuns {
  import opened Bytes
  import opened Nibbles
  import opened Trie
  import opened TrieNode
  import opened TrieRoot
  import opened HashStore
  import opened Arena
  import opened TrieCommit
  import opened TrieWrites
  import opened TrieStates
  import opened TrieDBMuts
  import opened TrieCounts
  import opened TrieScripts
  import opened TrieLookup

  /** The root of a trie and the root of the key-value list it holds, each as the source computes it. */
  method CompareRoots(trie: TrieDBMut, input: seq<Pair>) returns (committed: H256, listed: H256)
    requires trie.Valid() && trie.contents == MapOf(input) && Within(trie.h, Abs(trie.shape), trie.used)
    modifies trie, trie.storage, trie.db
    ensures trie.Valid() && trie.contents == old(trie.contents) && trie.root == committed
    ensures committed == listed
  {
    trie.Commit();
    committed := trie.root;
    listed := RootOfList(trie.h, input);
  }

  ghost predicate ShortEdits(edits: seq<Edit>) {
    forall i :: 0 <= i < |edits| ==> ShortEdit(edits[i])
  }

  /** A run of edits on an empty trie. */
  method ApplyAll(trie: TrieDBMut, edits: seq<Edit>)
    requires trie.Valid() && trie.contents == map[] && ShortEdits(edits)
    modifies trie, trie.storage
    ensures trie.Valid() && trie.contents == RunMap(edits)
  {
    var i := 0;
    while i < |edits|
      invariant 0 <= i <= |edits| && trie.Valid() && trie.contents == RunMap(edits[..i])
    {
      assert edits[..i + 1][..i] == edits[..i];
      Apply(trie, edits[i]);
      i := i + 1;
    }
    TakeAll(edits);
  }

  method Apply(trie: TrieDBMut, edit: Edit)
    requires trie.Valid() && ShortEdit(edit)
    modifies trie, trie.storage
    ensures trie.Valid() && trie.contents == EditMap(old(trie.contents), edit)
    ensures trie.root == (if trie.contents == map[] then trie.h(NULL_RLP) else old(trie.root))
    ensures GivesUp(trie.h, old(trie.shape), old(trie.contents), old(trie.deathRow), trie.shape, trie.contents,
                    trie.deathRow)
  {
    match edit {
      case SetValue(key, value) => var _ := trie.Insert(key, value);
      case DropKey(key) => var _ := trie.Remove(key);
    }
  }

  /** Any run of edits from an empty trie, then a commit: the root is that of the run's canonical
      trie, and the store answers every key under it. */
  method RunAndCommit(h: HashFn, db: MemoryDB, edits: seq<Edit>, ghost used: iset<bytes>) returns (root: H256)
    requires db.h == h && Ready(h, db.data, used) && ShortEdits(edits) && Within(h, RunTree(edits), used)
    modifies db
    ensures root == RootHash(h, RunTree(edits))
    ensures ServesMap(h, db.data, root, RunMap(edits))
  {
    var trie := new TrieDBMut(h, db, used);
    ApplyAll(trie, edits);
    RepresentsUnique(Abs(trie.shape), RunTree(edits), RunMap(edits));
    trie.Commit();
    root := trie.root;
    CommitServes(h, db.data, Abs(trie.shape), trie.contents);
  }

  // ---- runs with commits in between ----

  /** Any run of edits, commits and reopenings from an empty trie: at its end the trie answers as all
      its edits say, and the store still answers under the root as the saved ones say, whatever was
      edited since. Every reference taken is given back: the store has one for each occurrence of a node in
      the trie of the last commit, beyond those it started with. There are never fewer, and there are no more
      unless a stored trie with two equal nodes was edited. */
  method RunSteps(h: HashFn, db: MemoryDB, steps: seq<Step>, ghost used: iset<bytes>) returns (trie: TrieDBMut)
    requires db.h == h && Ready(h, db.data, used) && LegalSteps(h, used, steps)
    modifies db
    ensures trie.db == db && AfterSteps(trie, AccountOf(h, steps))
    ensures var a := AccountOf(h, steps);
      trie.root == RootHash(h, RunTree(a.saved)) && ServesMap(h, db.data, trie.root, RunMap(a.saved))
    ensures var a := AccountOf(h, steps);
      forall x :: x != h(NULL_RLP) ==>
        Rc(db.data, x) >= Rc(old(db.data), x) + StoredNodes(h, a)[x] &&
        (a.twinFree ==> Rc(db.data, x) == Rc(old(db.data), x) + StoredNodes(h, a)[x])
  {
    ghost var base, a := db.data, AccountOf(h, steps);
    trie := TakeEach(h, db, steps, used);
    SavedServes(h, db.data, trie.root, a.saved);
    CountsEnd(h, base, db.data, Pers(h, trie.shape), trie.deathRow, StoredNodes(h, a), a.twinFree);
  }

  method TakeEach(h: HashFn, db: MemoryDB, steps: seq<Step>, ghost used: iset<bytes>) returns (trie: TrieDBMut)
    requires db.h == h && Ready(h, db.data, used) && LegalSteps(h, used, steps)
    modifies db
    ensures fresh(trie) && fresh(trie.storage) && trie.h == h && trie.db == db && trie.used == used
    ensures AfterSteps(trie, AccountOf(h, steps)) && CountsAfter(trie, old(db.data), AccountOf(h, steps))
  {
    ghost var base, a := db.data, OPENING;
    trie := Begin(h, db, used);
    var i := 0;
    while i < |steps|
      invariant 0 <= i <= |steps| && fresh(trie) && fresh(trie.storage) && trie.h == h && trie.db == db
      invariant trie.used == used && a == AccountOf(h, steps[..i])
      invariant AfterSteps(trie, a) && CountsAfter(trie, base, a)
    {
      AccountNext(h, steps, i);
      assert LegalAt(h, used, steps, i);
      trie := Take(trie, steps[i], a, base);
      a := Entered(h, a, steps[i]);
      i := i + 1;
    }
    TakeAll(steps);
  }

  method Begin(h: HashFn, db: MemoryDB, ghost used: iset<bytes>) returns (trie: TrieDBMut)
    requires db.h == h && Ready(h, db.data, used)
    ensures fresh(trie) && fresh(trie.storage) && trie.h == h && trie.db == db && trie.used == used
    ensures AfterSteps(trie, OPENING) && CountsAfter(trie, db.data, OPENING)
  {
    trie := new TrieDBMut(h, db, used);
    NothingSaved(h, db.data);
    CountsStart(h, db.data);
  }

  lemma SavedServes(h: HashFn, d: Data, root: H256, edits: seq<Edit>)
    requires SavedAs(h, d, root, edits)
    ensures root == RootHash(h, RunTree(edits)) && ServesMap(h, d, root, RunMap(edits))
  {
    CommitServes(h, d, RunTree(edits), RunMap(edits));
  }

  method Take(trie: TrieDBMut, step: Step, ghost a: Account, ghost base: Data) returns (after: TrieDBMut)
    requires AfterSteps(trie, a) && Legal(trie.h, trie.used, a, step) && CountsAfter(trie, base, a)
    modifies trie, trie.storage, trie.db
    ensures after.h == trie.h && after.db == trie.db && after.used == trie.used
    ensures AfterSteps(after, Entered(trie.h, a, step)) && CountsAfter(after, base, Entered(trie.h, a, step))
    ensures (after == trie && after.storage == trie.storage) || (fresh(after) && fresh(after.storage))
  {
    after := trie;
    match step {
      case Change(edit) => ChangeStep(trie, edit, a, base);
      case Commit => CommitStep(trie, a.edits, base, StoredNodes(trie.h, a), a.twinFree);
      case Reopen => after := ReopenStep(trie, a.edits, base, StoredNodes(trie.h, a), a.twinFree);
    }
  }

  method ChangeStep(trie: TrieDBMut, edit: Edit, ghost a: Account, ghost base: Data)
    requires AfterSteps(trie, a) && ShortEdit(edit) && CountsAfter(trie, base, a)
    modifies trie, trie.storage
    ensures AfterSteps(trie, Entered(trie.h, a, Change(edit)))
    ensures CountsAfter(trie, base, Entered(trie.h, a, Change(edit)))
  {
    ghost var root, shape, m, death := trie.root, trie.shape, trie.contents, trie.deathRow;
    ghost var n := Entered(trie.h, a, Change(edit));
    assert (a.edits + [edit])[..|a.edits|] == a.edits;
    Apply(trie, edit);
    ChangeSaved(trie.h, trie.db.data, root, trie.root, a, edit);
    ChangeCounts(trie.h, base, trie.db.data, shape, m, death, trie.shape, trie.contents, trie.deathRow,
                 StoredNodes(trie.h, a), a.twinFree, n.twinFree);
  }

  lemma ChangeCounts(h: HashFn, base: Data, d: Data, shape: LTree, m: Contents, death: set<H256>, after: LTree,
                     n: Contents, deathAfter: set<H256>, stored: multiset<H256>, exact: bool, exactAfter: bool)
    requires Counts(h, base, d, Pers(h, shape), death, stored, exact)
    requires GivesUp(h, shape, m, death, after, n, deathAfter) && Good(h, d, after) && Means(Abs(after), n)
    requires exactAfter ==> exact && NoTwins(h, stored)
    ensures Counts(h, base, d, Pers(h, after), deathAfter, stored, exactAfter)
  {
    var held := if n == map[] then multiset{} else Pers(h, after);
    CountsEdited(h, base, d, Pers(h, shape), death, stored, exact, held, deathAfter, exactAfter);
    MeansNothing(Abs(after), n);
    if n == map[] { EmptyHolds(h, d, after); }
    forall x | x != h(NULL_RLP) ensures CountsAt(base, d, Pers(h, after), deathAfter, stored, exactAfter, x) {
      assert CountsAt(base, d, held, deathAfter, stored, exactAfter, x);
    }
  }

  lemma CountsEnd(h: HashFn, base: Data, d: Data, held: multiset<H256>, death: set<H256>, stored: multiset<H256>,
                  exact: bool)
    requires Counts(h, base, d, held, death, stored, exact)
    ensures forall x :: x != h(NULL_RLP) ==>
      Rc(d, x) >= Rc(base, x) + stored[x] && (exact ==> Rc(d, x) == Rc(base, x) + stored[x])
  {
    forall x | x != h(NULL_RLP)
      ensures Rc(d, x) >= Rc(base, x) + stored[x] && (exact ==> Rc(d, x) == Rc(base, x) + stored[x])
    {
      assert CountsAt(base, d, held, death, stored, exact, x);
    }
  }

  method CommitStep(trie: TrieDBMut, ghost edits: seq<Edit>, ghost base: Data, ghost stored: multiset<H256>,
                    ghost exact: bool)
    requires trie.Valid() && trie.contents == RunMap(edits) && Within(trie.h, RunTree(edits), trie.used)
    requires Counts(trie.h, base, trie.db.data, Pers(trie.h, trie.shape), trie.deathRow, stored, exact)
    modifies trie, trie.storage, trie.db
    ensures trie.Valid() && trie.contents == RunMap(edits) && trie.deathRow == {}
    ensures SavedAs(trie.h, trie.db.data, trie.root, edits)
    ensures Enough(trie.h, trie.db.data, Pers(trie.h, Disk(RunTree(edits))))
    ensures Pers(trie.h, trie.shape) == Pers(trie.h, Disk(RunTree(edits)))
    ensures Counts(trie.h, base, trie.db.data, Pers(trie.h, trie.shape), {}, Pers(trie.h, trie.shape), exact)
  {
    RepresentsUnique(Abs(trie.shape), RunTree(edits), RunMap(edits));
    ghost var d, held, death := trie.db.data, Pers(trie.h, trie.shape), trie.deathRow;
    trie.Commit();
    CountsCommitted(trie.h, base, d, trie.db.data, held, death, stored, exact, Pers(trie.h, trie.shape));
  }

  /** Dropping a trie commits it; it is opened again under its root. */
  method ReopenStep(trie: TrieDBMut, ghost edits: seq<Edit>, ghost base: Data, ghost stored: multiset<H256>,
                    ghost exact: bool)
    returns (again: TrieDBMut)
    requires trie.Valid() && trie.contents == RunMap(edits) && Within(trie.h, RunTree(edits), trie.used)
    requires Counts(trie.h, base, trie.db.data, Pers(trie.h, trie.shape), trie.deathRow, stored, exact)
    modifies trie, trie.storage, trie.db
    ensures again.h == trie.h && again.db == trie.db && again.used == trie.used && fresh(again) && fresh(again.storage)
    ensures again.Valid() && again.contents == RunMap(edits) && SavedAs(again.h, again.db.data, again.root, edits)
    ensures Counts(again.h, base, again.db.data, Pers(again.h, again.shape), again.deathRow,
                   Pers(again.h, Disk(RunTree(edits))), exact)
  {
    CommitStep(trie, edits, base, stored, exact);
    SoundReady(trie.h, trie.db.data, trie.storage.nodes, trie.storage.freeIndices, trie.shape, trie.contents,
               trie.used);
    var found := FromExisting(trie.h, trie.db, trie.root, RunTree(edits), RunMap(edits), trie.used);
    again := found.value;
  }

  // ---- lookups ----

  /** Every key is looked up under root as m answers it. */
  ghost predicate ServesMap(h: HashFn, d: Data, root: H256, m: Contents) {
    forall k: bytes ::
      LookUp(TrieReader(), h, d, root, AsNibbles(k), MAX_DEPTH) == Found(TrieRoot.Get(m, k))
  }

  /** A trie all on disk is looked up from its root as it answered in memory. */
  lemma CommitServes(h: HashFn, d: Data, t: Tree, m: Contents)
    requires Means(t, m) && Good(h, d, Disk(t))
    ensures ServesMap(h, d, RootHash(h, t), m)
  {
    TrieReaderReadsBack();
    MeansLow(t, m);
    forall k: bytes
      ensures LookUp(TrieReader(), h, d, RootHash(h, t), AsNibbles(k), MAX_DEPTH) == Found(TrieRoot.Get(m, k))
    {
      LookUpStored(TrieReader(), h, d, t, AsNibbles(k), MAX_DEPTH);
    }
  }

  /** A recorded lookup proves the map's answer: a store made of the recorded nodes gives it, and no
      store of honestly hashed strings gives another. */
  lemma ProofOfAnswer(h: HashFn, d: Data, e: Data, t: Tree, m: Contents, k: bytes, used: iset<bytes>)
    requires Means(t, m) && Good(h, d, Disk(t))
    requires Addressed(h, d, used) && Addressed(h, e, used) && CollisionFree(h, used)
    ensures var r, root, q := TrieReader(), RootHash(h, t), AsNibbles(k);
      var records := AtLeast(Visited(r, h, d, root, q, MAX_DEPTH, 0), 0);
      LookUp(r, h, StoreOf(h, records), root, q, MAX_DEPTH) == Found(TrieRoot.Get(m, k)) &&
      (LookUp(r, h, e, root, q, MAX_DEPTH) == Found(TrieRoot.Get(m, k)) || LookUp(r, h, e, root, q, MAX_DEPTH).Missing?)
  {
    var r, root, q := TrieReader(), RootHash(h, t), AsNibbles(k);
    TrieReaderReadsBack();
    MeansLow(t, m);
    LookUpStored(r, h, d, t, q, MAX_DEPTH);
    RecordedLookupIsProof(r, h, d, root, q, MAX_DEPTH, used);
    NoForgedAnswer(r, h, d, e, root, q, MAX_DEPTH, used);
  }

  // ---- ownership ----

  /** The slot reached by following children along a path; an extension's child is number 0. */
  ghost function SlotOn(lt: LTree, path: seq<nat>): Option<nat>
    decreases |path|
  {
    if lt.Disk? then None
    else if path == [] then Some(lt.slot)
    else
      match lt.node
      case LExtension(_, child) => if path[0] == 0 then SlotOn(child, path[1..]) else None
      case LBranch(children, _) =>
        if path[0] < |children| && children[path[0]].Some? then SlotOn(children[path[0]].value, path[1..]) else None
      case _ => None
  }

  lemma {:induction false} SlotOnOwned(lt: LTree, path: seq<nat>)
    requires SlotOn(lt, path).Some?
    ensures SlotOn(lt, path).value in Slots(lt)
    ensures path != [] ==> SlotOn(lt, path).value in SlotsNode(lt.node)
    decreases |path|
  {
    if path != [] {
      match lt.node {
        case LExtension(_, child) => SlotOnOwned(child, path[1..]);
        case LBranch(children, _) =>
          SlotOnOwned(children[path[0]].value, path[1..]);
          assert SlotOn(lt, path).value in SlotsOption(children[path[0]]);
        case _ =>
      }
    }
  }

  /** No slot is reached along two paths. */
  lemma {:induction false} SlotReachedOnce(lt: LTree, p: seq<nat>, q: seq<nat>)
    requires Sep(lt) && SlotOn(lt, p).Some? && SlotOn(lt, p) == SlotOn(lt, q)
    ensures p == q
    decreases |p|
  {
    SlotOnOwned(lt, p);
    SlotOnOwned(lt, q);
    if p != [] && q != [] {
      if p[0] == q[0] {
        SlotReachedOnce(if lt.node.LExtension? then lt.node.child else lt.node.children[p[0]].value, p[1..], q[1..]);
        assert p == [p[0]] + p[1..] && q == [q[0]] + q[1..];
      } else {
        DifferentChildren(lt, p, q);
      }
    }
  }

  lemma DifferentChildren(lt: LTree, p: seq<nat>, q: seq<nat>)
    requires Sep(lt) && SlotOn(lt, p).Some? && SlotOn(lt, q).Some?
    requires p != [] && q != [] && p[0] != q[0]
    ensures SlotOn(lt, p) != SlotOn(lt, q)
  {
    var children := lt.node.children;
    SlotOnOwned(children[p[0]].value, p[1..]);
    SlotOnOwned(children[q[0]].value, q[1..]);
    if p[0] < q[0] {
      assert SlotsOption(children[p[0]]) !! SlotsOption(children[q[0]]);
    } else {
      assert SlotsOption(children[q[0]]) !! SlotsOption(children[p[0]]);
    }
  }

  /** In a sound state a reachable slot exists and is not free, so the next allocation spares it. */
  lemma ReachableIsLive(h: HashFn, d: Data, nodes: seq<Stored>, free: seq<nat>, shape: LTree, m: Contents,
                        death: set<H256>, used: iset<bytes>, path: seq<nat>)
    requires Sound(h, d, nodes, free, shape, m, death, used) && SlotOn(shape, path).Some?
    ensures SlotOn(shape, path).value < |nodes| && SlotOn(shape, path).value !in free
  {
    SlotOnOwned(shape, path);
    assert SlotOn(shape, path).value in Slots(shape) + {};
  }
}
