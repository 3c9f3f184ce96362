/** Loading nodes from the store into the arena, inlined children with them. */
module TrieLoad {
  import opened Bytes
  import opened RlpSpec
  import opened RlpDecoder
  import opened Nibbles
  import opened Trie
  import opened TrieNode
  import opened HashStore
  import opened Arena
  import opened NodeStorages

  /** What a stored parent knows of a child it was encoded with. */
  ghost predicate Loadable(h: HashFn, d: Data, t: Tree) {
    KidsStored(h, d, t) && Canonical(t) && AllSmall(t)
  }

  lemma LoadableChild(h: HashFn, d: Data, t: Tree)
    requires t.Extension? && Loadable(h, d, t)
    ensures Loadable(h, d, t.child) && ChildStored(h, d, t.child)
  {
  }

  lemma LoadableBranchChild(h: HashFn, d: Data, t: Tree, i: nat)
    requires t.Branch? && Loadable(h, d, t) && i < 16
    ensures Loadable(h, d, t.children[i]) && ChildStored(h, d, t.children[i])
  {
    assert ChildStored(h, d, t.children[i]);
  }

  /** A freshly loaded node owns its slots, stands for t, and is clean. */
  ghost predicate LoadedNode(h: HashFn, d: Data, before: seq<Stored>, nodes: seq<Stored>, free: seq<nat>,
                             ln: LNode, t: Tree, keep: set<nat>) {
    NodeOk(h, d, nodes, free, ln, keep) && Kept(before, nodes, keep) && AbsNode(ln) == t && CleanNode(h, ln)
  }

  ghost predicate LoadedChild(h: HashFn, d: Data, before: seq<Stored>, nodes: seq<Stored>, free: seq<nat>,
                              lt: LTree, t: Tree, keep: set<nat>) {
    TreeOk(h, d, nodes, free, lt, keep) && GoodChild(h, d, lt) && Kept(before, nodes, keep) && Abs(lt) == t &&
      Clean(h, lt)
  }

  lemma DecodedNode(h: HashFn, d: Data, t: Tree)
    requires Loadable(h, d, t)
    ensures |Rlp(h, t)| < RLP_LIMIT && DecodeNode(Rlp(h, t)) == Ok(NodeView(h, t))
  {
    SmallNodeRlp(h, t);
    DecodeNodeOfRlp(h, t);
  }

  /** The parts of a stored node. */
  method Decoded(rlp: bytes, ghost h: HashFn, ghost d: Data, ghost t: Tree) returns (node: RlpNode)
    requires Loadable(h, d, t) && rlp == Rlp(h, t)
    ensures node == NodeView(h, t)
  {
    DecodedNode(h, d, t);
    node := DecodeNode(rlp).value;
  }

  /** Decodes a node; inlined children are decoded and stored with it, hashed ones stay on disk. */
  method FromRlp(h: HashFn, rlp: bytes, storage: NodeStorage, ghost d: Data, ghost t: Tree, ghost keep: set<nat>)
    returns (node: Node, ghost ln: LNode)
    requires Loadable(h, d, t) && rlp == Rlp(h, t)
    requires Tidy(storage.nodes, storage.freeIndices, keep)
    modifies storage
    ensures node == NodeOf(h, ln)
    ensures LoadedNode(h, d, old(storage.nodes), storage.nodes, storage.freeIndices, ln, t, keep)
    decreases t, 1
  {
    var decoded := Decoded(rlp, h, d, t);
    match decoded {
      case RlpEmpty =>
        node, ln := EmptyNode, LEmpty;
      case RlpLeaf(key, v) =>
        node, ln := LeafNode(HexPrefix(key, true), v), LLeaf(key, v);
      case RlpExtension(key, item) =>
        LoadableChild(h, d, t);
        var child, lt := InlineOrHash(h, item, storage, d, t.child, keep);
        ExtensionOk(h, d, storage.nodes, storage.freeIndices, key, lt, keep);
        node, ln := ExtensionNode(HexPrefix(key, false), child), LExtension(key, lt);
      case RlpBranch(items, value) =>
        node, ln := BranchFromRlp(h, items, value, storage, d, t, keep);
    }
  }

  ghost function NoLTrees(): (r: seq<Option<LTree>>)
    ensures |r| == 16 && forall i :: 0 <= i < 16 ==> r[i] == None
  {
    seq(16, _ => None)
  }

  function NoHandles(): (r: seq<Option<NodeHandle>>)
    ensures |r| == 16 && forall i :: 0 <= i < 16 ==> r[i] == None
  {
    seq(16, _ => None)
  }

  /** The first n children are loaded, the others still absent. */
  ghost predicate LoadedUpTo(children: seq<Option<LTree>>, t: Tree, n: nat)
    requires t.Branch? && |t.children| == 16 && n <= 16
  {
    |children| == 16 &&
    (forall i :: 0 <= i < n ==> AbsOption(children[i]) == t.children[i]) &&
    (forall i :: n <= i < 16 ==> children[i] == None)
  }

  lemma NoneLoaded(h: HashFn, d: Data, nodes: seq<Stored>, free: seq<nat>, t: Tree, keep: set<nat>)
    requires t.Branch? && |t.children| == 16 && Tidy(nodes, free, keep)
    ensures LoadedUpTo(NoLTrees(), t, 0)
    ensures LoadedNodeSoFar(h, d, nodes, nodes, free, NoLTrees(), t.value, keep)
  {
    assert SlotsAll(NoLTrees()) == {};
    assert SlotsNode(LBranch(NoLTrees(), t.value)) + keep == keep;
  }

  ghost predicate LoadedNodeSoFar(h: HashFn, d: Data, before: seq<Stored>, nodes: seq<Stored>, free: seq<nat>,
                                  children: seq<Option<LTree>>, value: Option<bytes>, keep: set<nat>) {
    NodeOk(h, d, nodes, free, LBranch(children, value), keep) && Kept(before, nodes, keep) &&
    CleanNode(h, LBranch(children, value))
  }

  lemma OthersOfNone(children: seq<Option<LTree>>, i: nat, keep: set<nat>)
    requires i < |children| && children[i] == None
    ensures Others(children, i, keep) == SlotsAll(children) + keep
  {
    assert children[i := None] == children;
  }

  /** One more child put in its place. */
  lemma OneMoreLoaded(h: HashFn, d: Data, before: seq<Stored>, mid: seq<Stored>, nodes: seq<Stored>, free: seq<nat>,
                      children: seq<Option<LTree>>, value: Option<bytes>, i: nat, lt: LTree, t: Tree, keep: set<nat>)
    requires t.Branch? && |t.children| == 16 && i < 16 && LoadedUpTo(children, t, i)
    requires NodeOkButFree(h, d, mid, LBranch(children, value), keep)
    requires Kept(before, mid, keep) && CleanNode(h, LBranch(children, value))
    requires LoadedChild(h, d, mid, nodes, free, lt, t.children[i], SlotsAll(children) + keep)
    ensures LoadedNodeSoFar(h, d, before, nodes, free, children[i := Some(lt)], value, keep)
    ensures LoadedUpTo(children[i := Some(lt)], t, i + 1)
  {
    OthersOfNone(children, i, keep);
    PutChild(h, d, mid, nodes, free, children, value, i, lt, keep);
    KeptTwice(before, mid, nodes, keep);
  }

  method BranchFromRlp(h: HashFn, items: seq<bytes>, value: Option<bytes>, storage: NodeStorage,
                       ghost d: Data, ghost t: Tree, ghost keep: set<nat>)
    returns (node: Node, ghost ln: LNode)
    requires Loadable(h, d, t) && t.Branch? && RlpBranch(items, value) == NodeView(h, t)
    requires Tidy(storage.nodes, storage.freeIndices, keep)
    modifies storage
    ensures node == NodeOf(h, ln)
    ensures LoadedNode(h, d, old(storage.nodes), storage.nodes, storage.freeIndices, ln, t, keep)
    decreases t, 0, 1
  {
    var handles := NoHandles();
    ghost var children := NoLTrees();
    ghost var before := storage.nodes;
    NoneLoaded(h, d, storage.nodes, storage.freeIndices, t, keep);
    var i := 0;
    while i < 16
      invariant 0 <= i <= 16 && LoadedUpTo(children, t, i)
      invariant LoadedNodeSoFar(h, d, before, storage.nodes, storage.freeIndices, children, value, keep)
      invariant handles == HandlesOf(h, children)
    {
      handles, children := LoadPlace(h, items[i], i, handles, storage, d, t, before, children, value, keep);
      i := i + 1;
    }
    AllLoaded(children, t);
    node, ln := BranchNode(handles, value), LBranch(children, value);
  }

  lemma AllLoaded(children: seq<Option<LTree>>, t: Tree)
    requires t.Branch? && |t.children| == 16 && LoadedUpTo(children, t, 16)
    ensures AbsChildren(children) == t.children
  {
  }

  /** Loads what stands in place i, if anything does. */
  method LoadPlace(h: HashFn, item: bytes, i: nat, handles: seq<Option<NodeHandle>>, storage: NodeStorage,
                   ghost d: Data, ghost t: Tree, ghost before: seq<Stored>, ghost children: seq<Option<LTree>>,
                   ghost value: Option<bytes>, ghost keep: set<nat>)
    returns (after: seq<Option<NodeHandle>>, ghost childrenAfter: seq<Option<LTree>>)
    requires Loadable(h, d, t) && t.Branch? && i < 16 && LoadedUpTo(children, t, i) && item == NodeView(h, t).nodes[i]
    requires LoadedNodeSoFar(h, d, before, storage.nodes, storage.freeIndices, children, value, keep)
    requires handles == HandlesOf(h, children)
    modifies storage
    ensures LoadedUpTo(childrenAfter, t, i + 1) && after == HandlesOf(h, childrenAfter)
    ensures LoadedNodeSoFar(h, d, before, storage.nodes, storage.freeIndices, childrenAfter, value, keep)
    decreases t, 0, 0
  {
    ChildKindsAt(h, t, i);
    after, childrenAfter := handles, children;
    if !IsEmptyItem(item) {
      LoadableBranchChild(h, d, t, i);
      ghost var mid := storage.nodes;
      var child, lt := InlineOrHash(h, item, storage, d, t.children[i], SlotsAll(children) + keep);
      OneMoreLoaded(h, d, before, mid, storage.nodes, storage.freeIndices, children, value, i, lt, t, keep);
      after := handles[i := Some(child)];
      childrenAfter := children[i := Some(lt)];
    }
  }

  lemma ChildKindsAt(h: HashFn, t: Tree, i: nat)
    requires Canonical(t) && t.Branch? && i < 16
    ensures NodeView(h, t).nodes[i] == Encode(ChildItem(h, t.children[i]))
    ensures IsEmptyItem(NodeView(h, t).nodes[i]) == (t.children[i] == Empty)
  {
    ChildKinds(h, t.children[i]);
  }

  /** A handle for what a parent holds of a child: its hash, or a slot with the inlined node. */
  method InlineOrHash(h: HashFn, item: bytes, storage: NodeStorage, ghost d: Data, ghost t: Tree, ghost keep: set<nat>)
    returns (handle: NodeHandle, ghost lt: LTree)
    requires Loadable(h, d, t) && ChildStored(h, d, t) && t != Empty && item == Encode(ChildItem(h, t))
    requires Tidy(storage.nodes, storage.freeIndices, keep)
    modifies storage
    ensures handle == HandleOf(h, lt)
    ensures LoadedChild(h, d, old(storage.nodes), storage.nodes, storage.freeIndices, lt, t, keep)
    decreases t, 2, 1
  {
    ChildKinds(h, t);
    if IsHashItem(item) {
      handle, lt := Hash(Payload(item).value), Disk(t);
      HashLoaded(h, d, storage.nodes, storage.freeIndices, t, keep);
    } else {
      handle, lt := Inline(h, item, storage, d, t, keep);
    }
  }

  lemma HashLoaded(h: HashFn, d: Data, nodes: seq<Stored>, free: seq<nat>, t: Tree, keep: set<nat>)
    requires Loadable(h, d, t) && ChildStored(h, d, t) && t != Empty && Hashed(h, t) && Tidy(nodes, free, keep)
    ensures LoadedChild(h, d, nodes, nodes, free, Disk(t), t, keep)
  {
    assert Slots(Disk(t)) + keep == keep;
  }

  /** An inlined node in a slot of its own. */
  method Inline(h: HashFn, item: bytes, storage: NodeStorage, ghost d: Data, ghost t: Tree, ghost keep: set<nat>)
    returns (handle: NodeHandle, ghost lt: LTree)
    requires Loadable(h, d, t) && t != Empty && !Hashed(h, t) && item == Rlp(h, t)
    requires Tidy(storage.nodes, storage.freeIndices, keep)
    modifies storage
    ensures handle == HandleOf(h, lt)
    ensures LoadedChild(h, d, old(storage.nodes), storage.nodes, storage.freeIndices, lt, t, keep)
    decreases t, 2, 0
  {
    var child, ln := FromRlp(h, item, storage, d, t, keep);
    ghost var mid := storage.nodes;
    var slot := storage.Alloc(New(child), SlotsNode(ln) + keep);
    NodePlaced(h, d, mid, storage.nodes, storage.freeIndices, slot, ln, keep);
    handle, lt := InMemory(slot), Mem(slot, None, ln);
  }

  /** Loads the node behind a hash. */
  method Cache(h: HashFn, hash: H256, db: MemoryDB, storage: NodeStorage, ghost t: Tree, ghost keep: set<nat>)
    returns (slot: nat, ghost ln: LNode)
    requires db.h == h && hash == RootHash(h, t) && Good(h, db.data, Disk(t))
    requires Tidy(storage.nodes, storage.freeIndices, keep)
    modifies storage
    ensures TreeOk(h, db.data, storage.nodes, storage.freeIndices, Mem(slot, Some(hash), ln), keep)
    ensures Kept(old(storage.nodes), storage.nodes, keep) && AbsNode(ln) == t
    ensures Pers(h, Mem(slot, Some(hash), ln)) == Pers(h, Disk(t))
  {
    var rlp := db.Get(hash);
    var node;
    node, ln := FromRlp(h, rlp.value, storage, db.data, t, keep);
    ghost var mid := storage.nodes;
    slot := storage.Alloc(Cached(node, hash), SlotsNode(ln) + keep);
    CachedPlaced(h, db.data, mid, storage.nodes, storage.freeIndices, slot, hash, ln, t, keep);
    KeptTwice(old(storage.nodes), mid, storage.nodes, keep);
  }

  lemma CachedPlaced(h: HashFn, d: Data, before: seq<Stored>, nodes: seq<Stored>, free: seq<nat>,
                     slot: nat, hash: H256, ln: LNode, t: Tree, keep: set<nat>)
    requires NodeOkButFree(h, d, before, ln, keep) && AbsNode(ln) == t && CleanNode(h, ln)
    requires RootStored(h, d, t) && hash == RootHash(h, t)
    requires slot !in SlotsNode(ln) + keep && slot < |nodes| && nodes[slot] == Cached(NodeOf(h, ln), hash)
    requires Tidy(nodes, free, SlotsNode(ln) + keep + {slot}) && Kept(before, nodes, SlotsNode(ln) + keep)
    ensures TreeOk(h, d, nodes, free, Mem(slot, Some(hash), ln), keep)
    ensures Pers(h, Mem(slot, Some(hash), ln)) == Pers(h, Disk(t))
  {
    HoldsNodeKept(h, before, nodes, ln);
    assert Slots(Mem(slot, Some(hash), ln)) + keep == SlotsNode(ln) + keep + {slot};
    CleanPers(h, d, ln);
  }
}
