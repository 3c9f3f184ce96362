/** The node arena of the mutable trie: slots, handles into them, and the ghost tree that says
    which slots a subtree owns, what it stands for and which hashes in the store it relies on. */
module Arena {
  import opened Bytes
  import opened Nibbles
  import opened Trie
  import opened TrieNode
  import opened HashStore

  // ---- what the source stores ----

  datatype NodeHandle = InMemory(slot: nat) | Hash(hash: H256)

  /** A node in memory; keys are kept hex-prefixed. */
  datatype Node =
    | EmptyNode
    | LeafNode(key: bytes, leafValue: bytes)
    | ExtensionNode(key: bytes, child: NodeHandle)
    | BranchNode(children: seq<Option<NodeHandle>>, value: Option<bytes>)

  datatype Stored = New(node: Node) | Cached(node: Node, hash: H256)

  // ---- the ghost tree ----

  /** A subtree either still on disk or held in a slot, cached under a hash or new. */
  datatype LTree = Disk(t: Tree) | Mem(slot: nat, cached: Option<H256>, node: LNode)

  datatype LNode =
    | LEmpty
    | LLeaf(key: nibbles, leafValue: bytes)
    | LExtension(key: nibbles, child: LTree)
    | LBranch(children: seq<Option<LTree>>, value: Option<bytes>)

  /** The trie a ghost tree stands for. */
  function Abs(lt: LTree): Tree
    decreases lt, 0
  {
    match lt
    case Disk(t) => t
    case Mem(_, _, node) => AbsNode(node)
  }

  function AbsNode(ln: LNode): Tree
    decreases ln, 0
  {
    match ln
    case LEmpty => Empty
    case LLeaf(key, v) => Leaf(key, v)
    case LExtension(key, child) => Extension(key, Abs(child))
    case LBranch(children, value) => Branch(AbsChildren(children), value)
  }

  function AbsOption(c: Option<LTree>): Tree
    decreases c, 1
  {
    if c.None? then Empty else Abs(c.value)
  }

  function AbsChildren(children: seq<Option<LTree>>): (r: seq<Tree>)
    ensures |r| == |children|
    ensures forall i :: 0 <= i < |children| ==> r[i] == AbsOption(children[i])
    decreases children, 0
  {
    seq(|children|, i requires 0 <= i < |children| => AbsOption(children[i]))
  }

  function HandleOf(h: HashFn, lt: LTree): NodeHandle {
    match lt
    case Disk(t) => Hash(RootHash(h, t))
    case Mem(slot, _, _) => InMemory(slot)
  }

  function HandleOption(h: HashFn, c: Option<LTree>): Option<NodeHandle> {
    if c.None? then None else Some(HandleOf(h, c.value))
  }

  function HandlesOf(h: HashFn, children: seq<Option<LTree>>): (r: seq<Option<NodeHandle>>)
    ensures |r| == |children|
    ensures forall i :: 0 <= i < |children| ==> r[i] == HandleOption(h, children[i])
  {
    seq(|children|, i requires 0 <= i < |children| => HandleOption(h, children[i]))
  }

  /** The arena's node for a ghost node. */
  function NodeOf(h: HashFn, ln: LNode): Node {
    match ln
    case LEmpty => EmptyNode
    case LLeaf(key, v) => LeafNode(HexPrefix(key, true), v)
    case LExtension(key, child) => ExtensionNode(HexPrefix(key, false), HandleOf(h, child))
    case LBranch(children, value) => BranchNode(HandlesOf(h, children), value)
  }

  function StoredOf(h: HashFn, cached: Option<H256>, ln: LNode): Stored {
    if cached.None? then New(NodeOf(h, ln)) else Cached(NodeOf(h, ln), cached.value)
  }

  // ---- slots ----

  /** The slots a subtree owns. */
  ghost function Slots(lt: LTree): set<nat>
    decreases lt, 0
  {
    match lt
    case Disk(_) => {}
    case Mem(slot, _, node) => {slot} + SlotsNode(node)
  }

  ghost function SlotsNode(ln: LNode): set<nat>
    decreases ln, 0
  {
    match ln
    case LEmpty => {}
    case LLeaf(_, _) => {}
    case LExtension(_, child) => Slots(child)
    case LBranch(children, _) => SlotsAll(children)
  }

  ghost function SlotsOption(c: Option<LTree>): set<nat>
    decreases c, 1
  {
    if c.None? then {} else Slots(c.value)
  }

  ghost function SlotsAll(children: seq<Option<LTree>>): (r: set<nat>)
    ensures forall s :: s in r <==> exists i :: 0 <= i < |children| && s in SlotsOption(children[i])
    decreases children, 0
  {
    set i, s | 0 <= i < |children| && s in SlotsOption(children[i]) :: s
  }

  /** No slot is reached twice. */
  ghost predicate Sep(lt: LTree)
    decreases lt, 0
  {
    lt.Mem? ==> lt.slot !in SlotsNode(lt.node) && SepNode(lt.node)
  }

  ghost predicate SepNode(ln: LNode)
    decreases ln, 0
  {
    match ln
    case LEmpty => true
    case LLeaf(_, _) => true
    case LExtension(_, child) => Sep(child)
    case LBranch(children, _) =>
      (forall i :: 0 <= i < |children| && children[i].Some? ==> Sep(children[i].value)) &&
      Apart(children)
  }

  ghost predicate Apart(children: seq<Option<LTree>>) {
    forall i, j :: 0 <= i < j < |children| ==> SlotsOption(children[i]) !! SlotsOption(children[j])
  }

  /** The slots hold the nodes the ghost tree says. */
  ghost predicate Holds(h: HashFn, nodes: seq<Stored>, lt: LTree)
    decreases lt, 0
  {
    lt.Mem? ==>
      lt.slot < |nodes| && nodes[lt.slot] == StoredOf(h, lt.cached, lt.node) && HoldsNode(h, nodes, lt.node)
  }

  ghost predicate HoldsNode(h: HashFn, nodes: seq<Stored>, ln: LNode)
    decreases ln, 0
  {
    match ln
    case LEmpty => true
    case LLeaf(_, _) => true
    case LExtension(_, child) => Holds(h, nodes, child)
    case LBranch(children, _) => forall i :: 0 <= i < |children| && children[i].Some? ==>
      Holds(h, nodes, children[i].value)
  }

  /** The slots in s are kept as they are. */
  ghost predicate Kept(nodes: seq<Stored>, after: seq<Stored>, s: set<nat>) {
    forall i :: i in s && i < |nodes| ==> i < |after| && after[i] == nodes[i]
  }

  lemma KeptTwice(a: seq<Stored>, b: seq<Stored>, c: seq<Stored>, keep: set<nat>)
    requires Kept(a, b, keep) && Kept(b, c, keep)
    ensures Kept(a, c, keep)
  {
  }

  lemma {:induction false} HoldsKept(h: HashFn, nodes: seq<Stored>, after: seq<Stored>, lt: LTree)
    requires Holds(h, nodes, lt) && Kept(nodes, after, Slots(lt))
    ensures Holds(h, after, lt)
    decreases lt, 0
  {
    if lt.Mem? { HoldsNodeKept(h, nodes, after, lt.node); }
  }

  lemma {:induction false} HoldsNodeKept(h: HashFn, nodes: seq<Stored>, after: seq<Stored>, ln: LNode)
    requires HoldsNode(h, nodes, ln) && Kept(nodes, after, SlotsNode(ln))
    ensures HoldsNode(h, after, ln)
    decreases ln, 0
  {
    match ln {
      case LExtension(_, child) => HoldsKept(h, nodes, after, child);
      case LBranch(children, _) =>
        forall i | 0 <= i < |children| && children[i].Some?
          ensures Holds(h, after, children[i].value)
        {
          assert forall s :: s in SlotsOption(children[i]) ==> s in SlotsNode(ln);
          HoldsKept(h, nodes, after, children[i].value);
        }
      case _ =>
    }
  }

  // ---- the store behind a subtree ----

  ghost predicate AllSmall(t: Tree)
    decreases t
  {
    SmallNode(t) &&
    match t
    case Extension(_, child) => AllSmall(child)
    case Branch(children, _) => forall i :: 0 <= i < |children| ==> AllSmall(children[i])
    case _ => true
  }

  /** Every hashed node below t can be read from the store. */
  ghost predicate KidsStored(h: HashFn, d: Data, t: Tree)
    decreases t, 0
  {
    match t
    case Extension(_, child) => ChildStored(h, d, child)
    case Branch(children, _) => forall i :: 0 <= i < |children| ==> ChildStored(h, d, children[i])
    case _ => true
  }

  ghost predicate ChildStored(h: HashFn, d: Data, t: Tree)
    decreases t, 1
  {
    (Hashed(h, t) ==> DbGet(h, d, RootHash(h, t)) == Some(Rlp(h, t))) && KidsStored(h, d, t)
  }

  /** t itself and everything below can be read, starting from its hash. */
  ghost predicate RootStored(h: HashFn, d: Data, t: Tree) {
    DbGet(h, d, RootHash(h, t)) == Some(Rlp(h, t)) && KidsStored(h, d, t)
  }

  /** Referenced by hash when its parent is encoded without visiting it. */
  predicate Persisted(lt: LTree) {
    lt.Disk? || lt.cached.Some?
  }

  /** Subtrees on disk are readable, and cached ones still are what their hash says. */
  ghost predicate Good(h: HashFn, d: Data, lt: LTree)
    decreases lt, 0
  {
    match lt
    case Disk(t) => RootStored(h, d, t) && Canonical(t) && AllSmall(t)
    case Mem(_, cached, node) =>
      GoodNode(h, d, node) &&
      (cached.Some? ==>
         cached.value == RootHash(h, AbsNode(node)) && RootStored(h, d, AbsNode(node)) && CleanNode(h, node))
  }

  ghost predicate GoodNode(h: HashFn, d: Data, ln: LNode)
    decreases ln, 0
  {
    match ln
    case LEmpty => true
    case LLeaf(_, _) => true
    case LExtension(_, child) => GoodChild(h, d, child)
    case LBranch(children, _) =>
      |children| == 16 && forall i :: 0 <= i < 16 && children[i].Some? ==> GoodChild(h, d, children[i].value)
  }

  ghost predicate GoodChild(h: HashFn, d: Data, lt: LTree)
    decreases lt, 1
  {
    Good(h, d, lt) && Abs(lt) != Empty && (Persisted(lt) ==> Hashed(h, Abs(lt)))
  }

  /** Nothing below was changed since it was read: what is new is only inlined. */
  ghost predicate CleanNode(h: HashFn, ln: LNode)
    decreases ln, 0
  {
    match ln
    case LEmpty => true
    case LLeaf(_, _) => true
    case LExtension(_, child) => Clean(h, child)
    case LBranch(children, _) => forall i :: 0 <= i < |children| && children[i].Some? ==> Clean(h, children[i].value)
  }

  ghost predicate Clean(h: HashFn, lt: LTree)
    decreases lt, 0
  {
    lt.Mem? && lt.cached.None? ==> !Hashed(h, AbsNode(lt.node)) && CleanNode(h, lt.node)
  }

  // ---- counting hashes ----

  /** The hash under which a parent refers to t, if it does. */
  ghost function OwnHash(h: HashFn, t: Tree): multiset<H256> {
    if Hashed(h, t) then multiset{RootHash(h, t)} else multiset{}
  }

  /** The hashed nodes below t, each as often as it occurs. */
  ghost function HashesBelow(h: HashFn, t: Tree): multiset<H256>
    decreases t, 0
  {
    match t
    case Extension(_, child) => HashesOf(h, child)
    case Branch(children, _) => HashesAll(h, children)
    case _ => multiset{}
  }

  ghost function HashesOf(h: HashFn, t: Tree): multiset<H256>
    decreases t, 1
  {
    OwnHash(h, t) + HashesBelow(h, t)
  }

  ghost function HashesAll(h: HashFn, children: seq<Tree>): multiset<H256>
    decreases children, 0
  {
    if children == [] then multiset{} else HashesOf(h, children[0]) + HashesAll(h, children[1..])
  }

  /** The references to the store a subtree still holds. */
  ghost function Pers(h: HashFn, lt: LTree): multiset<H256>
    decreases lt, 0
  {
    match lt
    case Disk(t) => multiset{RootHash(h, t)} + HashesBelow(h, t)
    case Mem(_, cached, node) => (if cached.Some? then multiset{cached.value} else multiset{}) + PersNode(h, node)
  }

  ghost function PersNode(h: HashFn, ln: LNode): multiset<H256>
    decreases ln, 0
  {
    match ln
    case LEmpty => multiset{}
    case LLeaf(_, _) => multiset{}
    case LExtension(_, child) => Pers(h, child)
    case LBranch(children, _) => PersAll(h, children)
  }

  ghost function PersOption(h: HashFn, c: Option<LTree>): multiset<H256>
    decreases c, 1
  {
    if c.None? then multiset{} else Pers(h, c.value)
  }

  ghost function PersAll(h: HashFn, children: seq<Option<LTree>>): multiset<H256>
    decreases children, 0
  {
    if children == [] then multiset{} else PersOption(h, children[0]) + PersAll(h, children[1..])
  }

  lemma {:induction false} PersUpdate(h: HashFn, children: seq<Option<LTree>>, i: nat, c: Option<LTree>)
    requires i < |children|
    ensures PersAll(h, children[i := c]) + PersOption(h, children[i]) == PersAll(h, children) + PersOption(h, c)
  {
    var updated, rest := children[i := c], children[1..];
    if i == 0 {
      assert updated[1..] == rest;
      SwapEnds(PersOption(h, c), PersAll(h, rest), PersOption(h, children[0]));
    } else {
      PersUpdate(h, rest, i - 1, c);
      assert updated[1..] == rest[i - 1 := c];
      Regroup(PersOption(h, children[0]), PersAll(h, rest[i - 1 := c]), PersOption(h, children[i]));
      Regroup(PersOption(h, children[0]), PersAll(h, rest), PersOption(h, c));
    }
  }

  lemma SwapEnds(a: multiset<H256>, b: multiset<H256>, c: multiset<H256>)
    ensures a + b + c == c + b + a
  {
  }

  lemma Regroup(a: multiset<H256>, b: multiset<H256>, c: multiset<H256>)
    ensures a + b + c == a + (b + c)
  {
  }

  /** Where nothing changed, the references held are exactly the hashed nodes below. */
  lemma {:induction false} CleanPers(h: HashFn, d: Data, ln: LNode)
    requires CleanNode(h, ln) && GoodNode(h, d, ln)
    ensures PersNode(h, ln) == HashesBelow(h, AbsNode(ln))
    decreases ln, 0
  {
    match ln {
      case LExtension(_, child) => CleanPersChild(h, d, child);
      case LBranch(children, _) => CleanPersAll(h, d, children);
      case LEmpty =>
      case LLeaf(_, _) =>
    }
  }

  lemma {:induction false} CleanPersChild(h: HashFn, d: Data, lt: LTree)
    requires Clean(h, lt) && GoodChild(h, d, lt)
    ensures Pers(h, lt) == HashesOf(h, Abs(lt))
    decreases lt, 0
  {
    if lt.Mem? { CleanPers(h, d, lt.node); }
  }

  ghost predicate CleanOption(h: HashFn, d: Data, c: Option<LTree>) {
    c.Some? ==> Clean(h, c.value) && GoodChild(h, d, c.value)
  }

  lemma {:induction false} CleanPersOption(h: HashFn, d: Data, c: Option<LTree>)
    requires CleanOption(h, d, c)
    ensures PersOption(h, c) == HashesOf(h, AbsOption(c))
    decreases c, 1
  {
    if c.Some? { CleanPersChild(h, d, c.value); } else { NoHashesInEmpty(h); }
  }

  lemma NoHashesInEmpty(h: HashFn)
    ensures HashesOf(h, Empty) == multiset{} && !Hashed(h, Empty)
  {
    assert |Rlp(h, Empty)| == 1;
  }

  lemma {:induction false} CleanPersAll(h: HashFn, d: Data, children: seq<Option<LTree>>)
    requires forall i :: 0 <= i < |children| ==> CleanOption(h, d, children[i])
    ensures PersAll(h, children) == HashesAll(h, AbsChildren(children))
    decreases children, 0
  {
    if children != [] {
      CleanPersOption(h, d, children[0]);
      CleanPersAll(h, d, children[1..]);
      assert AbsChildren(children)[1..] == AbsChildren(children[1..]);
    }
  }
}
