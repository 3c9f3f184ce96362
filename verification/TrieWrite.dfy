/** Writing a trie held in the arena back to the store: nodes are encoded from the leaves up, short
    ones into their parent, the others into the store. */
module TrieWrites {
  import opened Bytes
  import opened RlpSpec
  import opened RlpStreams
  import opened Nibbles
  import opened Trie
  import opened TrieNode
  import opened TrieHash
  import opened HashStore
  import opened Arena
  import opened NodeStorages
  import opened TrieSteps
  import opened TrieCommit

  const FRESH_STREAM := Stack([], [])

  /** Short keys and values, and only strings the hash is injective on. */
  ghost predicate Writable(h: HashFn, t: Tree, used: iset<bytes>) {
    AllSmall(t) && Within(h, t, used)
  }

  /** The store kept all it held, honestly hashed. */
  ghost predicate Wrote(h: HashFn, d: Data, e: Data, used: iset<bytes>) {
    Extends(h, d, e) && Addressed(h, e, used) && NonNegative(h, e)
  }

  lemma WroteTwice(h: HashFn, d: Data, e: Data, f: Data, used: iset<bytes>)
    requires Wrote(h, d, e, used) && Wrote(h, e, f, used)
    ensures Wrote(h, d, f, used)
  {
  }

  ghost predicate Ready(h: HashFn, d: Data, used: iset<bytes>) {
    CollisionFree(h, used) && Addressed(h, d, used) && NonNegative(h, d)
  }

  /** What is below the node can be read, and its references are counted. */
  ghost predicate NodeWritten(h: HashFn, d: Data, e: Data, before: seq<Stored>, nodes: seq<Stored>, free: seq<nat>,
                              ln: LNode, keep: set<nat>, used: iset<bytes>) {
    Wrote(h, d, e, used) && Tidy(nodes, free, keep) && Kept(before, nodes, keep) &&
    KidsStored(h, e, AbsNode(ln)) && Gained(h, d, e, PersNode(h, ln), HashesBelow(h, AbsNode(ln)))
  }

  ghost predicate TreeWritten(h: HashFn, d: Data, e: Data, before: seq<Stored>, nodes: seq<Stored>, free: seq<nat>,
                              lt: LTree, keep: set<nat>, used: iset<bytes>) {
    Wrote(h, d, e, used) && Tidy(nodes, free, keep) && Kept(before, nodes, keep) &&
    ChildStored(h, e, Abs(lt)) && Gained(h, d, e, Pers(h, lt), HashesOf(h, Abs(lt)))
  }

  lemma ListDone(items: seq<Item>)
    requires |Encode(List(items))| < RLP_LIMIT
    ensures Listed(FRESH_STREAM, items, |items|) == Stack(Encode(List(items)), [])
  {
    Header32Exact(|EncodeAll(items)|, 0xc0);
  }

  // ---- one subtree ----

  /** A subtree referred to by its hash is in the store already. */
  lemma PersistedWritten(h: HashFn, d: Data, before: seq<Stored>, nodes: seq<Stored>, free: seq<nat>,
                         lt: LTree, keep: set<nat>, used: iset<bytes>)
    requires Persisted(lt) && GoodChild(h, d, lt) && Ready(h, d, used)
    requires Tidy(nodes, free, keep) && Kept(before, nodes, keep)
    ensures TreeWritten(h, d, d, before, nodes, free, lt, keep, used)
    ensures ChildItem(h, Abs(lt)) == Item.Data(RootHash(h, Abs(lt)))
  {
    if lt.Mem? { CleanPers(h, d, lt.node); }
    GainedNothing(h, d, Pers(h, lt));
  }

  lemma HashItem(x: H256)
    ensures EncodeData32(x) == Encode(Item.Data(x))
  {
    Header32Exact(32, 0x80);
  }

  /** A new node short enough to stand in its parent. */
  lemma InlineWritten(h: HashFn, d: Data, e: Data, before: seq<Stored>, nodes: seq<Stored>, free: seq<nat>,
                      lt: LTree, keep: set<nat>, used: iset<bytes>)
    requires lt.Mem? && lt.cached.None? && !Hashed(h, Abs(lt))
    requires NodeWritten(h, d, e, before, nodes, free, lt.node, keep, used)
    ensures TreeWritten(h, d, e, before, nodes, free, lt, keep, used)
  {
    PlusNothing(PersNode(h, lt.node));
    PlusNothing(HashesBelow(h, Abs(lt)));
  }

  /** A new node stored under its hash. */
  lemma HashedWritten(h: HashFn, d: Data, e: Data, before: seq<Stored>, nodes: seq<Stored>, free: seq<nat>,
                      lt: LTree, keep: set<nat>, used: iset<bytes>)
    requires lt.Mem? && lt.cached.None? && Hashed(h, Abs(lt)) && Rlp(h, Abs(lt)) in used && Ready(h, e, used)
    requires NodeWritten(h, d, e, before, nodes, free, lt.node, keep, used)
    ensures TreeWritten(h, d, DbInsert(h, e, Rlp(h, Abs(lt))), before, nodes, free, lt, keep, used)
  {
    var f := DbInsert(h, e, Rlp(h, Abs(lt)));
    RootInserted(h, d, e, AbsNode(lt.node), PersNode(h, lt.node), used);
    PlusNothing(PersNode(h, lt.node));
  }

  /** Storing a node below which all is stored. */
  lemma RootInserted(h: HashFn, d: Data, e: Data, t: Tree, held: multiset<H256>, used: iset<bytes>)
    requires Wrote(h, d, e, used) && Ready(h, e, used) && Rlp(h, t) in used
    requires KidsStored(h, e, t) && Gained(h, d, e, held, HashesBelow(h, t))
    ensures Wrote(h, d, DbInsert(h, e, Rlp(h, t)), used) && RootStored(h, DbInsert(h, e, Rlp(h, t)), t)
    ensures Gained(h, d, DbInsert(h, e, Rlp(h, t)), held, multiset{RootHash(h, t)} + HashesBelow(h, t))
  {
    var f := DbInsert(h, e, Rlp(h, t));
    InsertWrites(h, e, Rlp(h, t), used);
    WroteTwice(h, d, e, f, used);
    KidsStoredExtends(h, e, f, t);
    GainedSteps(h, d, e, f, held, HashesBelow(h, t), multiset{}, multiset{RootHash(h, t)});
    PlusNothing(held);
  }

  lemma InsertWrites(h: HashFn, e: Data, v: bytes, used: iset<bytes>)
    requires Ready(h, e, used) && v in used
    ensures Wrote(h, e, DbInsert(h, e, v), used) && DbGet(h, DbInsert(h, e, v), h(v)) == Some(v)
    ensures Gained(h, e, DbInsert(h, e, v), multiset{}, multiset{h(v)})
  {
    GainedInsert(h, e, v, used);
    if h(v) == h(NULL_RLP) {
      assert v == NULL_RLP;
    } else {
      InsertReadable(h, e, v, used);
    }
  }

  /** Writes the reference to a subtree into the stream of its parent, and the subtree into the store. */
  method CommitNode(h: HashFn, db: MemoryDB, storage: NodeStorage, handle: NodeHandle, stream: RlpStream,
                    ghost lt: LTree, ghost keep: set<nat>, ghost used: iset<bytes>)
    requires db.h == h && handle == HandleOf(h, lt) && Ready(h, db.data, used) && Writable(h, Abs(lt), used)
    requires TreeOk(h, db.data, storage.nodes, storage.freeIndices, lt, keep) && GoodChild(h, db.data, lt)
    requires stream.Valid() && stream.stack.Accepts(1)
    modifies db, storage, stream
    ensures TreeWritten(h, old(db.data), db.data, old(storage.nodes), storage.nodes, storage.freeIndices, lt, keep,
                        used)
    ensures stream.Valid() && stream.stack == old(stream.stack).Received(Encode(ChildItem(h, Abs(lt))))
    decreases lt, 1, 0
  {
    ghost var before := storage.nodes;
    match handle {
      case Hash(x) =>
        TidySame(storage.nodes, storage.freeIndices, Slots(lt) + keep, keep);
        PersistedWritten(h, db.data, before, storage.nodes, storage.freeIndices, lt, keep, used);
        HashItem(x);
        stream.AppendBytes(x);
      case InMemory(slot) =>
        var stored := storage.Destroy(slot, Slots(lt) + keep);
        match stored {
          case Cached(_, x) =>
            TidySame(storage.nodes, storage.freeIndices, Slots(lt) + keep - {slot}, keep);
            PersistedWritten(h, db.data, before, storage.nodes, storage.freeIndices, lt, keep, used);
            HashItem(x);
            stream.AppendBytes(x);
          case New(node) =>
            NodeTaken(h, db.data, before, storage.nodes, storage.freeIndices, lt, keep);
            CommitNew(h, db, storage, node, stream, lt, keep, used, before);
        }
    }
  }

  method CommitNew(h: HashFn, db: MemoryDB, storage: NodeStorage, node: Node, stream: RlpStream,
                   ghost lt: LTree, ghost keep: set<nat>, ghost used: iset<bytes>, ghost before: seq<Stored>)
    requires db.h == h && lt.Mem? && lt.cached.None? && node == NodeOf(h, lt.node)
    requires Ready(h, db.data, used) && Writable(h, Abs(lt), used)
    requires NodeOk(h, db.data, storage.nodes, storage.freeIndices, lt.node, keep) && Kept(before, storage.nodes, keep)
    requires stream.Valid() && stream.stack.Accepts(1)
    modifies db, storage, stream
    ensures TreeWritten(h, old(db.data), db.data, before, storage.nodes, storage.freeIndices, lt, keep, used)
    ensures stream.Valid() && stream.stack == old(stream.stack).Received(Encode(ChildItem(h, Abs(lt))))
    decreases lt, 0
  {
    var rlp := IntoRlp(h, db, storage, node, lt.node, keep, used, before);
    if |rlp| >= 32 {
      HashedWritten(h, old(db.data), db.data, before, storage.nodes, storage.freeIndices, lt, keep, used);
      var hash := db.Insert(rlp);
      HashItem(hash);
      stream.AppendBytes(hash);
    } else {
      InlineWritten(h, old(db.data), db.data, before, storage.nodes, storage.freeIndices, lt, keep, used);
      stream.AppendRaw(rlp, 1);
    }
  }

  // ---- one node ----

  lemma NothingBelow(h: HashFn, d: Data, before: seq<Stored>, nodes: seq<Stored>, free: seq<nat>,
                     ln: LNode, keep: set<nat>, used: iset<bytes>)
    requires (ln.LEmpty? || ln.LLeaf?) && Ready(h, d, used) && Tidy(nodes, free, SlotsNode(ln) + keep) &&
      Kept(before, nodes, keep)
    ensures NodeWritten(h, d, d, before, nodes, free, ln, keep, used)
  {
    TidySame(nodes, free, SlotsNode(ln) + keep, keep);
    GainedNothing(h, d, multiset{});
  }

  /** A node's encoding, its children written to the store or into it. */
  method IntoRlp(h: HashFn, db: MemoryDB, storage: NodeStorage, node: Node,
                 ghost ln: LNode, ghost keep: set<nat>, ghost used: iset<bytes>, ghost before: seq<Stored>)
    returns (rlp: bytes)
    requires db.h == h && node == NodeOf(h, ln) && Ready(h, db.data, used) && Writable(h, AbsNode(ln), used)
    requires NodeOk(h, db.data, storage.nodes, storage.freeIndices, ln, keep) && Kept(before, storage.nodes, keep)
    modifies db, storage
    ensures rlp == Rlp(h, AbsNode(ln))
    ensures NodeWritten(h, old(db.data), db.data, before, storage.nodes, storage.freeIndices, ln, keep, used)
    decreases ln, 2
  {
    SmallNodeRlp(h, AbsNode(ln));
    var stream := new RlpStream();
    match node {
      case EmptyNode =>
        NothingBelow(h, db.data, before, storage.nodes, storage.freeIndices, ln, keep, used);
        FreshPut([0x80]);
        stream.AppendEmptyData();
      case LeafNode(partial, value) =>
        NothingBelow(h, db.data, before, storage.nodes, storage.freeIndices, ln, keep, used);
        FreshPut(Rlp(h, AbsNode(ln)));
        AppendPair(partial, value, stream);
      case ExtensionNode(partial, child) =>
        ExtensionParts(h, db.data, storage.nodes, storage.freeIndices, ln.key, ln.child, keep);
        PartialShort(ln.key);
        ExtensionIntoRlp(h, db, storage, partial, child, stream, ln.key, ln.child, keep, used, before);
        ExtensionWritten(h, old(db.data), db.data, before, storage.nodes, storage.freeIndices, ln.key, ln.child,
                         keep, used);
      case BranchNode(handles, value) =>
        BranchIntoRlp(h, db, storage, handles, value, stream, ln.children, keep, used, before);
    }
    rlp := stream.Out();
  }

  method ExtensionIntoRlp(h: HashFn, db: MemoryDB, storage: NodeStorage, partial: bytes, child: NodeHandle,
                          stream: RlpStream, ghost key: nibbles, ghost lt: LTree, ghost keep: set<nat>,
                          ghost used: iset<bytes>, ghost before: seq<Stored>)
    requires db.h == h && partial == HexPrefix(key, false) && child == HandleOf(h, lt) && |partial| < RLP_LIMIT
    requires Ready(h, db.data, used) && Writable(h, Abs(lt), used)
    requires TreeOk(h, db.data, storage.nodes, storage.freeIndices, lt, keep) && GoodChild(h, db.data, lt)
    requires Kept(before, storage.nodes, keep) && |Rlp(h, Extension(key, Abs(lt)))| < RLP_LIMIT
    requires stream.Valid() && stream.stack == FRESH_STREAM
    modifies db, storage, stream
    ensures stream.Valid() && stream.stack == Stack(Rlp(h, Extension(key, Abs(lt))), [])
    ensures TreeWritten(h, old(db.data), db.data, before, storage.nodes, storage.freeIndices, lt, keep, used)
    decreases lt, 2
  {
    ghost var items := ReferenceItems(h, partial, Abs(lt));
    ghost var mid := storage.nodes;
    BeginPair(partial, stream, items);
    CommitListed(h, db, storage, child, stream, lt, keep, used, items, 1);
    ListDone(items);
    KeptTwice(before, mid, storage.nodes, keep);
  }

  /** A key part and the reference behind it. */
  ghost function ReferenceItems(h: HashFn, partial: bytes, t: Tree): (r: seq<Item>)
    ensures |r| == 2 && r[0] == Item.Data(partial) && r[1] == ChildItem(h, t)
  {
    [Item.Data(partial), ChildItem(h, t)]
  }

  /** The reference to a subtree as the next item of the announced list. */
  method CommitListed(h: HashFn, db: MemoryDB, storage: NodeStorage, handle: NodeHandle, stream: RlpStream,
                      ghost lt: LTree, ghost keep: set<nat>, ghost used: iset<bytes>, ghost items: seq<Item>,
                      ghost i: nat)
    requires db.h == h && handle == HandleOf(h, lt) && Ready(h, db.data, used) && Writable(h, Abs(lt), used)
    requires TreeOk(h, db.data, storage.nodes, storage.freeIndices, lt, keep) && GoodChild(h, db.data, lt)
    requires i < |items| && items[i] == ChildItem(h, Abs(lt))
    requires stream.Valid() && stream.stack == Listed(FRESH_STREAM, items, i)
    modifies db, storage, stream
    ensures TreeWritten(h, old(db.data), db.data, old(storage.nodes), storage.nodes, storage.freeIndices, lt, keep,
                        used)
    ensures stream.Valid() && stream.stack == Listed(FRESH_STREAM, items, i + 1)
    decreases lt, 1, 1
  {
    ListedNext(FRESH_STREAM, items, i, Encode(items[i]));
    CommitNode(h, db, storage, handle, stream, lt, keep, used);
  }

  /** What is written below an extension is what is written of its child. */
  lemma ExtensionWritten(h: HashFn, d: Data, e: Data, before: seq<Stored>, nodes: seq<Stored>, free: seq<nat>,
                         key: nibbles, lt: LTree, keep: set<nat>, used: iset<bytes>)
    requires TreeWritten(h, d, e, before, nodes, free, lt, keep, used)
    ensures NodeWritten(h, d, e, before, nodes, free, LExtension(key, lt), keep, used)
  {
  }

  lemma PartialShort(key: nibbles)
    requires |key| <= MAX_KEY
    ensures |HexPrefix(key, false)| < RLP_LIMIT
  {
  }

  // ---- a branch, child by child ----

  /** The first n children are written, the others still held. */
  ghost predicate WrittenUpTo(h: HashFn, d: Data, e: Data, before: seq<Stored>, nodes: seq<Stored>, free: seq<nat>,
                              children: seq<Option<LTree>>, value: Option<bytes>, n: nat, keep: set<nat>,
                              used: iset<bytes>)
    requires |children| == 16 && n <= 16
  {
    Wrote(h, d, e, used) && Kept(before, nodes, keep) &&
    NodeOk(h, e, nodes, free, LBranch(Cleared(children, n), value), keep) &&
    KidsUpTo(h, e, children, n) &&
    Gained(h, d, e, PersAll(h, children[..n]), HashesAll(h, AbsChildren(children)[..n]))
  }

  ghost predicate KidsUpTo(h: HashFn, e: Data, children: seq<Option<LTree>>, n: nat)
    requires n <= |children|
  {
    forall i :: 0 <= i < n ==> ChildStored(h, e, AbsOption(children[i]))
  }

  lemma KidsUpToStep(h: HashFn, d: Data, e: Data, children: seq<Option<LTree>>, n: nat)
    requires n < |children| && KidsUpTo(h, d, children, n) && Extends(h, d, e) &&
      ChildStored(h, e, AbsOption(children[n]))
    ensures KidsUpTo(h, e, children, n + 1)
  {
    forall i | 0 <= i < n ensures ChildStored(h, e, AbsOption(children[i])) {
      ChildStoredExtends(h, d, e, AbsOption(children[i]));
    }
  }

  lemma EmptyStored(h: HashFn, d: Data)
    ensures ChildStored(h, d, Empty)
  {
    assert |Rlp(h, Empty)| == 1;
  }

  lemma NoneWritten(h: HashFn, d: Data, before: seq<Stored>, nodes: seq<Stored>, free: seq<nat>,
                    children: seq<Option<LTree>>, value: Option<bytes>, keep: set<nat>, used: iset<bytes>)
    requires |children| == 16 && Ready(h, d, used) && Kept(before, nodes, keep)
    requires NodeOk(h, d, nodes, free, LBranch(children, value), keep)
    ensures WrittenUpTo(h, d, d, before, nodes, free, children, value, 0, keep, used)
  {
    ClearedStep(children, 0);
    assert children[..0] == [] && AbsChildren(children)[..0] == [];
  }

  lemma AllWritten(h: HashFn, d: Data, e: Data, before: seq<Stored>, nodes: seq<Stored>, free: seq<nat>,
                   children: seq<Option<LTree>>, value: Option<bytes>, keep: set<nat>, used: iset<bytes>)
    requires |children| == 16 && WrittenUpTo(h, d, e, before, nodes, free, children, value, 16, keep, used)
    ensures NodeWritten(h, d, e, before, nodes, free, LBranch(children, value), keep, used)
  {
    TakeAll(children);
    TakeAll(AbsChildren(children));
    TidySame(nodes, free, SlotsNode(LBranch(Cleared(children, 16), value)) + keep, keep);
  }

  /** One more child written or absent. */
  lemma OneMoreWritten(h: HashFn, d: Data, e: Data, f: Data, before: seq<Stored>, mid: seq<Stored>, nodes: seq<Stored>,
                       free: seq<nat>, freeMid: seq<nat>, children: seq<Option<LTree>>, value: Option<bytes>, n: nat,
                       keep: set<nat>, used: iset<bytes>)
    requires |children| == 16 && n < 16 && children[n].Some?
    requires WrittenUpTo(h, d, e, before, mid, freeMid, children, value, n, keep, used)
    requires TreeWritten(h, e, f, mid, nodes, free, children[n].value, Others(Cleared(children, n), n, keep), used)
    ensures WrittenUpTo(h, d, f, before, nodes, free, children, value, n + 1, keep, used)
  {
    WroteTwice(h, d, e, f, used);
    KidsUpToStep(h, e, f, children, n);
    GoodNodeExtends(h, e, f, LBranch(Cleared(children, n), value));
    ChildDropped(h, f, mid, nodes, free, Cleared(children, n), value, n, keep);
    ClearedStep(children, n);
    KeptTwice(before, mid, nodes, keep);
    GainedChild(h, d, e, f, children, n);
  }

  lemma GainedChild(h: HashFn, d: Data, e: Data, f: Data, children: seq<Option<LTree>>, n: nat)
    requires n < |children|
    requires Gained(h, d, e, PersAll(h, children[..n]), HashesAll(h, AbsChildren(children)[..n]))
    requires Gained(h, e, f, PersOption(h, children[n]), HashesOf(h, AbsOption(children[n])))
    ensures Gained(h, d, f, PersAll(h, children[..n + 1]), HashesAll(h, AbsChildren(children)[..n + 1]))
  {
    PersAllSnoc(h, children, n);
    HashesAllSnoc(h, AbsChildren(children), n);
    GainedSteps(h, d, e, f, PersAll(h, children[..n]), HashesAll(h, AbsChildren(children)[..n]),
                PersOption(h, children[n]), HashesOf(h, AbsOption(children[n])));
  }

  lemma AbsentWritten(h: HashFn, d: Data, e: Data, before: seq<Stored>, nodes: seq<Stored>, free: seq<nat>,
                      children: seq<Option<LTree>>, value: Option<bytes>, n: nat, keep: set<nat>, used: iset<bytes>)
    requires |children| == 16 && n < 16 && children[n].None?
    requires WrittenUpTo(h, d, e, before, nodes, free, children, value, n, keep, used)
    ensures WrittenUpTo(h, d, e, before, nodes, free, children, value, n + 1, keep, used)
  {
    EmptyStored(h, e);
    ClearedStep(children, n);
    assert Cleared(children, n)[n := None] == Cleared(children, n);
    NoHashesInEmpty(h);
    GainedNothing(h, e, multiset{});
    GainedChild(h, d, e, e, children, n);
  }

  ghost function BranchItems(h: HashFn, children: seq<Option<LTree>>, value: Option<bytes>): (items: seq<Item>)
    ensures |items| == |children| + 1 && items[|children|] == ValueItem(value)
    ensures forall i :: 0 <= i < |children| ==> items[i] == ChildItem(h, AbsOption(children[i]))
  {
    ChildItems(h, AbsChildren(children)) + [ValueItem(value)]
  }

  method BranchIntoRlp(h: HashFn, db: MemoryDB, storage: NodeStorage, handles: seq<Option<NodeHandle>>,
                       value: Option<bytes>, stream: RlpStream, ghost children: seq<Option<LTree>>,
                       ghost keep: set<nat>, ghost used: iset<bytes>, ghost before: seq<Stored>)
    requires db.h == h && |children| == 16 && handles == HandlesOf(h, children)
    requires Ready(h, db.data, used) && Writable(h, AbsNode(LBranch(children, value)), used)
    requires NodeOk(h, db.data, storage.nodes, storage.freeIndices, LBranch(children, value), keep)
    requires Kept(before, storage.nodes, keep)
    requires |Rlp(h, AbsNode(LBranch(children, value)))| < RLP_LIMIT
    requires stream.Valid() && stream.stack == FRESH_STREAM
    modifies db, storage, stream
    ensures stream.Valid() && stream.stack == Stack(Rlp(h, AbsNode(LBranch(children, value))), [])
    ensures NodeWritten(h, old(db.data), db.data, before, storage.nodes, storage.freeIndices,
                        LBranch(children, value), keep, used)
    decreases children, 2
  {
    ghost var items := BranchItems(h, children, value);
    ghost var d := db.data;
    NoneWritten(h, d, before, storage.nodes, storage.freeIndices, children, value, keep, used);
    stream.BeginList(17);
    var i := 0;
    while i < 16
      invariant 0 <= i <= 16
      invariant WrittenUpTo(h, d, db.data, before, storage.nodes, storage.freeIndices, children, value, i, keep, used)
      invariant stream.Valid() && stream.stack == Listed(FRESH_STREAM, items, i)
    {
      CommitChild(h, db, storage, handles[i], stream, children, value, i, keep, used, before, d, items);
      i := i + 1;
    }
    AllWritten(h, d, db.data, before, storage.nodes, storage.freeIndices, children, value, keep, used);
    AppendValue(value, stream, items);
    ListDone(items);
  }

  method AppendValue(value: Option<bytes>, stream: RlpStream, ghost items: seq<Item>)
    requires |items| == 17 && items[16] == ValueItem(value) && (value.Some? ==> |value.value| <= MAX_VALUE)
    requires stream.Valid() && stream.stack == Listed(FRESH_STREAM, items, 16)
    modifies stream
    ensures stream.Valid() && stream.stack == Listed(FRESH_STREAM, items, 17)
  {
    ListedNext(FRESH_STREAM, items, 16, Encode(items[16]));
    if value.Some? {
      EncodeData32Exact(value.value);
      stream.AppendBytes(value.value);
    } else {
      EncodeNothing();
      stream.AppendEmptyData();
    }
  }

  method CommitChild(h: HashFn, db: MemoryDB, storage: NodeStorage, handle: Option<NodeHandle>, stream: RlpStream,
                     ghost children: seq<Option<LTree>>, ghost value: Option<bytes>, ghost i: nat, ghost keep: set<nat>,
                     ghost used: iset<bytes>, ghost before: seq<Stored>, ghost d: Data, ghost items: seq<Item>)
    requires db.h == h && |children| == 16 && i < 16 && handle == HandleOption(h, children[i])
    requires CollisionFree(h, used) && Writable(h, AbsNode(LBranch(children, value)), used)
    requires WrittenUpTo(h, d, db.data, before, storage.nodes, storage.freeIndices, children, value, i, keep, used)
    requires items == BranchItems(h, children, value)
    requires stream.Valid() && stream.stack == Listed(FRESH_STREAM, items, i)
    modifies db, storage, stream
    ensures WrittenUpTo(h, d, db.data, before, storage.nodes, storage.freeIndices, children, value, i + 1, keep, used)
    ensures stream.Valid() && stream.stack == Listed(FRESH_STREAM, items, i + 1)
    decreases children, 1
  {
    match handle {
      case None =>
        AbsentWritten(h, d, db.data, before, storage.nodes, storage.freeIndices, children, value, i, keep, used);
        EmptyRlp(h);
        ListedNext(FRESH_STREAM, items, i, [0x80]);
        stream.AppendEmptyData();
      case Some(child) =>
        ghost var e, mid, freeMid := db.data, storage.nodes, storage.freeIndices;
        TakeChild(h, e, mid, freeMid, Cleared(children, i), value, i, keep);
        CommitListed(h, db, storage, child, stream, children[i].value, Others(Cleared(children, i), i, keep), used,
                     items, i);
        OneMoreWritten(h, d, e, db.data, before, mid, storage.nodes, storage.freeIndices, freeMid, children, value,
                       i, keep, used);
    }
  }
}
