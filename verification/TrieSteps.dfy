/** What the steps of an insertion or a removal in the arena do to ownership, to the store behind
    it, and to the references it holds. */
module TrieSteps {
  import opened Bytes
  import opened Nibbles
  import opened Trie
  import opened TrieShape
  import opened TrieNode
  import opened HashStore
  import opened Arena
  import opened NodeStorages
  import opened TrieLoad

  /** References are only given up, and the hashes of those given up are exactly what joins the row. */
  ghost predicate Budget(before: multiset<H256>, death: set<H256>, after: multiset<H256>, deathAfter: set<H256>) {
    forall x :: Accounted(before, death, after, deathAfter, x)
  }

  ghost predicate Accounted(before: multiset<H256>, death: set<H256>, after: multiset<H256>, deathAfter: set<H256>,
                            x: H256) {
    after[x] <= before[x] && (x in deathAfter <==> x in death || after[x] < before[x])
  }

  lemma BudgetChild(total: multiset<H256>, was: multiset<H256>, is': multiset<H256>, after: multiset<H256>,
                    death: set<H256>, deathAfter: set<H256>)
    requires Budget(was, death, is', deathAfter) && after + was == total + is'
    ensures Budget(total, death, after, deathAfter)
  {
    forall x ensures Accounted(total, death, after, deathAfter, x) {
      assert (after + was)[x] == (total + is')[x];
      assert Accounted(was, death, is', deathAfter, x);
    }
  }

  lemma InsertNotEmpty(t: Tree, k: nibbles, v: bytes)
    requires WellFormed(t)
    ensures Insert(t, k, v) != Empty
    decreases |k|, Rank(t)
  {
    match t {
      case Leaf(key, lv) =>
        if CommonPrefix(k, key) == 0 && !(|key| == 0 && |k| == 0) { InsertNotEmpty(LeafToBranch(key, lv), k, v); }
      case Extension(key, child) =>
        if CommonPrefix(k, key) == 0 { InsertNotEmpty(ExtensionToBranch(key, child), k, v); }
      case _ =>
    }
  }

  /** What an edit of a node held outside the arena owes. */
  ghost predicate EditedNode(h: HashFn, d: Data, before: seq<Stored>, nodes: seq<Stored>, free: seq<nat>,
                               ln: LNode, after: LNode, keep: set<nat>, death: set<H256>, deathAfter: set<H256>) {
    NodeOk(h, d, nodes, free, after, keep) && Kept(before, nodes, keep) &&
    Budget(PersNode(h, ln), death, PersNode(h, after), deathAfter)
  }

  /** The same for a subtree in a slot. */
  ghost predicate EditedTree(h: HashFn, d: Data, before: seq<Stored>, nodes: seq<Stored>, free: seq<nat>,
                               lt: LTree, after: LTree, keep: set<nat>, death: set<H256>, deathAfter: set<H256>) {
    TreeOk(h, d, nodes, free, after, keep) && Kept(before, nodes, keep) && after.Mem? &&
    Budget(Pers(h, lt), death, Pers(h, after), deathAfter) && Replaces(lt, after) &&
    Mourned(h, lt, after, deathAfter)
  }

  /** A subtree that had a hash and has none any more: the hash is on the row. */
  ghost predicate Mourned(h: HashFn, lt: LTree, after: LTree, deathAfter: set<H256>) {
    Persisted(lt) && !Persisted(after) ==> RootHash(h, Abs(lt)) in deathAfter
  }

  /** A changed child put back into its branch. */
  lemma ChildReplaced(h: HashFn, d: Data, before: seq<Stored>, nodes: seq<Stored>, free: seq<nat>,
                      children: seq<Option<LTree>>, value: Option<bytes>, i: nat, after: LTree, keep: set<nat>,
                      death: set<H256>, deathAfter: set<H256>)
    requires NodeOkButFree(h, d, before, LBranch(children, value), keep) && i < 16 && children[i].Some?
    requires EditedTree(h, d, before, nodes, free, children[i].value, after, Others(children, i, keep), death,
                        deathAfter)
    ensures EditedNode(h, d, before, nodes, free, LBranch(children, value), LBranch(children[i := Some(after)], value),
                         keep, death, deathAfter)
  {
    assert GoodChild(h, d, children[i].value);
    ReplacedIsGoodChild(h, d, children[i].value, after);
    PutChild(h, d, before, nodes, free, children, value, i, after, keep);
    PersUpdate(h, children, i, Some(after));
    BudgetChild(PersAll(h, children), Pers(h, children[i].value), Pers(h, after),
                PersAll(h, children[i := Some(after)]), death, deathAfter);
  }

  /** A new leaf put where a branch had no child. */
  lemma ChildAdded(h: HashFn, d: Data, before: seq<Stored>, nodes: seq<Stored>, free: seq<nat>,
                   children: seq<Option<LTree>>, value: Option<bytes>, i: nat, lt: LTree, keep: set<nat>,
                   death: set<H256>)
    requires NodeOkButFree(h, d, before, LBranch(children, value), keep) && i < 16 && children[i].None?
    requires TreeOk(h, d, nodes, free, lt, SlotsAll(children) + keep) && GoodChild(h, d, lt)
    requires Kept(before, nodes, SlotsAll(children) + keep) && Pers(h, lt) == multiset{}
    ensures EditedNode(h, d, before, nodes, free, LBranch(children, value), LBranch(children[i := Some(lt)], value),
                         keep, death, death)
  {
    OthersOfNone(children, i, keep);
    PutChild(h, d, before, nodes, free, children, value, i, lt, keep);
    PersUpdate(h, children, i, Some(lt));
    PlusNothing(PersAll(h, children[i := Some(lt)]));
    PlusNothing(PersAll(h, children));
  }

  lemma AbsUpdate(children: seq<Option<LTree>>, i: nat, lt: LTree)
    requires i < |children|
    ensures AbsChildren(children[i := Some(lt)]) == AbsChildren(children)[i := Abs(lt)]
  {
  }

  lemma HandlesUpdate(h: HashFn, children: seq<Option<LTree>>, i: nat, lt: LTree)
    requires i < |children|
    ensures HandlesOf(h, children[i := Some(lt)]) == HandlesOf(h, children)[i := Some(HandleOf(h, lt))]
  {
  }

  lemma NoLTreesAbs(h: HashFn)
    ensures AbsChildren(NoLTrees()) == NO_CHILDREN && HandlesOf(h, NoLTrees()) == NoHandles()
    ensures PersAll(h, NoLTrees()) == multiset{}
  {
    PersNone(h, NoLTrees());
  }

  lemma NoSlots(children: seq<Option<LTree>>)
    requires forall i :: 0 <= i < |children| ==> children[i] == None
    ensures SlotsAll(children) == {} && Apart(children)
  {
  }

  /** A branch without children owns nothing and holds nothing. */
  lemma ChildlessOk(h: HashFn, d: Data, nodes: seq<Stored>, children: seq<Option<LTree>>, value: Option<bytes>,
                    keep: set<nat>)
    requires |children| == 16 && forall i :: 0 <= i < 16 ==> children[i] == None
    ensures NodeOkButFree(h, d, nodes, LBranch(children, value), keep) && SlotsAll(children) == {}
  {
    NoSlots(children);
  }

  lemma {:induction false} PersNone(h: HashFn, children: seq<Option<LTree>>)
    requires forall i :: 0 <= i < |children| ==> children[i] == None
    ensures PersAll(h, children) == multiset{}
  {
    if children != [] { PersNone(h, children[1..]); }
  }

  /** A branch without children. */
  lemma StubOk(h: HashFn, d: Data, nodes: seq<Stored>, free: seq<nat>, value: Option<bytes>, keep: set<nat>)
    requires Tidy(nodes, free, keep)
    ensures NodeOk(h, d, nodes, free, LBranch(NoLTrees(), value), keep)
  {
    ChildlessOk(h, d, nodes, NoLTrees(), value, keep);
    assert SlotsNode(LBranch(NoLTrees(), value)) + keep == keep;
  }

  lemma StubMeaning(h: HashFn, value: Option<bytes>)
    ensures PersNode(h, LBranch(NoLTrees(), value)) == multiset{}
    ensures AbsNode(LBranch(NoLTrees(), value)) == Branch(NO_CHILDREN, value)
    ensures NodeOf(h, LBranch(NoLTrees(), value)) == BranchNode(NoHandles(), value)
  {
    NoLTreesAbs(h);
  }

  lemma LeafOk(h: HashFn, d: Data, nodes: seq<Stored>, free: seq<nat>, key: nibbles, v: bytes, keep: set<nat>)
    requires Tidy(nodes, free, keep)
    ensures NodeOk(h, d, nodes, free, LLeaf(key, v), keep)
  {
    assert SlotsNode(LLeaf(key, v)) + keep == keep;
  }

  lemma BudgetSteps(a: multiset<H256>, da: set<H256>, b: multiset<H256>, db: set<H256>, c: multiset<H256>,
                    dc: set<H256>)
    requires Budget(a, da, b, db) && Budget(b, db, c, dc)
    ensures Budget(a, da, c, dc)
  {
    forall x ensures Accounted(a, da, c, dc, x) {
      assert Accounted(a, da, b, db, x) && Accounted(b, db, c, dc, x);
    }
  }

  /** A branch whose only entry is one child. */
  lemma SingleChildOk(h: HashFn, d: Data, nodes: seq<Stored>, free: seq<nat>, i: nibble, lt: LTree, keep: set<nat>)
    requires TreeOk(h, d, nodes, free, lt, keep) && GoodChild(h, d, lt)
    ensures NodeOk(h, d, nodes, free, LBranch(NoLTrees()[i as int := Some(lt)], None), keep)
  {
    ChildlessOk(h, d, nodes, NoLTrees(), None, keep);
    OthersOfNone(NoLTrees(), i, keep);
    assert {} + keep == keep;
    PutChild(h, d, nodes, nodes, free, NoLTrees(), None, i, lt, keep);
  }

  lemma SingleChildMeaning(h: HashFn, i: nibble, lt: LTree)
    ensures PersNode(h, LBranch(NoLTrees()[i as int := Some(lt)], None)) == Pers(h, lt)
    ensures AbsNode(LBranch(NoLTrees()[i as int := Some(lt)], None)) == Branch(NO_CHILDREN[i as int := Abs(lt)], None)
    ensures NodeOf(h, LBranch(NoLTrees()[i as int := Some(lt)], None)) ==
      BranchNode(NoHandles()[i as int := Some(HandleOf(h, lt))], None)
  {
    NoLTreesAbs(h);
    AbsUpdate(NoLTrees(), i, lt);
    HandlesUpdate(h, NoLTrees(), i, lt);
    PersUpdate(h, NoLTrees(), i, Some(lt));
    PlusNothing(PersAll(h, NoLTrees()[i as int := Some(lt)]));
    PlusNothing(Pers(h, lt));
  }

  // ---- inspecting a stored node ----

  /** A subtree fetched into memory stands for the same, with the same references. */
  ghost predicate Fetched(h: HashFn, d: Data, before: seq<Stored>, nodes: seq<Stored>, free: seq<nat>,
                          lt: LTree, mem: LTree, keep: set<nat>) {
    TreeOk(h, d, nodes, free, mem, keep) && Kept(before, nodes, keep) && mem.Mem? && Abs(mem) == Abs(lt) &&
    Pers(h, mem) == Pers(h, lt) && Persisted(mem) == Persisted(lt) && (Clean(h, lt) ==> Clean(h, mem))
  }

  /** A node back in a slot under its hash, because it is what it was. */
  lemma RestoredTree(h: HashFn, d: Data, before: seq<Stored>, nodes: seq<Stored>, free: seq<nat>, mem: LTree,
                     slot: nat, after: LNode, keep: set<nat>, death: set<H256>, deathAfter: set<H256>)
    requires mem.Mem? && Good(h, d, mem) && Abs(mem) != Empty
    requires NodeOkButFree(h, d, before, after, keep) && AbsNode(after) == Abs(mem)
    requires mem.cached.Some? ==> CleanNode(h, after)
    requires Budget(PersNode(h, mem.node), death, PersNode(h, after), deathAfter)
    requires slot !in SlotsNode(after) + keep && slot < |nodes| && nodes[slot] == StoredOf(h, mem.cached, after)
    requires Tidy(nodes, free, SlotsNode(after) + keep + {slot}) && Kept(before, nodes, SlotsNode(after) + keep)
    ensures TreeOk(h, d, nodes, free, Mem(slot, mem.cached, after), keep)
    ensures Budget(Pers(h, mem), death, Pers(h, Mem(slot, mem.cached, after)), deathAfter)
    ensures Replaces(mem, Mem(slot, mem.cached, after))
  {
    HoldsNodeKept(h, before, nodes, after);
    assert Slots(Mem(slot, mem.cached, after)) + keep == SlotsNode(after) + keep + {slot};
    BudgetPlus(PersNode(h, mem.node), death, PersNode(h, after), deathAfter,
               if mem.cached.Some? then multiset{mem.cached.value} else multiset{});
  }

  lemma BudgetPlus(held: multiset<H256>, death: set<H256>, after: multiset<H256>, deathAfter: set<H256>,
                   m: multiset<H256>)
    requires Budget(held, death, after, deathAfter)
    ensures Budget(m + held, death, m + after, deathAfter)
  {
    forall y ensures Accounted(m + held, death, m + after, deathAfter, y) {
      assert Accounted(held, death, after, deathAfter, y);
    }
  }

  /** A replaced node: its hash, if it had one, is given up. */
  lemma ReplacedTree(h: HashFn, d: Data, before: seq<Stored>, nodes: seq<Stored>, free: seq<nat>, mem: LTree,
                     slot: nat, after: LNode, keep: set<nat>, death: set<H256>, deathMid: set<H256>)
    requires mem.Mem? && Good(h, d, mem) && AbsNode(after) != Empty
    requires NodeOkButFree(h, d, before, after, keep)
    requires Budget(PersNode(h, mem.node), death, PersNode(h, after), deathMid)
    requires slot !in SlotsNode(after) + keep && slot < |nodes| && nodes[slot] == New(NodeOf(h, after))
    requires Tidy(nodes, free, SlotsNode(after) + keep + {slot}) && Kept(before, nodes, SlotsNode(after) + keep)
    ensures TreeOk(h, d, nodes, free, Mem(slot, None, after), keep)
    ensures Budget(Pers(h, mem), death, Pers(h, Mem(slot, None, after)),
                   if mem.cached.Some? then deathMid + {mem.cached.value} else deathMid)
    ensures Replaces(mem, Mem(slot, None, after))
    ensures Mourned(h, mem, Mem(slot, None, after),
                    if mem.cached.Some? then deathMid + {mem.cached.value} else deathMid)
  {
    NodePlaced(h, d, before, nodes, free, slot, after, keep);
    if mem.cached.Some? {
      BudgetDeath(PersNode(h, mem.node), death, PersNode(h, after), deathMid, mem.cached.value);
    } else {
      PlusNothing(PersNode(h, after));
      PlusNothing(PersNode(h, mem.node));
    }
    PlusNothing(PersNode(h, after));
  }

  lemma BudgetDeath(held: multiset<H256>, death: set<H256>, after: multiset<H256>, deathMid: set<H256>, x: H256)
    requires Budget(held, death, after, deathMid)
    ensures Budget(multiset{x} + held, death, after, deathMid + {x})
  {
    forall y ensures Accounted(multiset{x} + held, death, after, deathMid + {x}, y) {
      assert Accounted(held, death, after, deathMid, y);
    }
  }

  /** A subtree in memory, out of its slot, with what is known of the one it was fetched for. */
  ghost predicate TakenOut(h: HashFn, d: Data, before: seq<Stored>, nodes: seq<Stored>, free: seq<nat>,
                           lt: LTree, mem: LTree, stored: Stored, keep: set<nat>) {
    mem.Mem? && stored == StoredOf(h, mem.cached, mem.node) && NodeOk(h, d, nodes, free, mem.node, keep) &&
    Good(h, d, mem) && Kept(before, nodes, keep) && Abs(mem) == Abs(lt) && Pers(h, mem) == Pers(h, lt) &&
    Persisted(mem) == Persisted(lt) && (Clean(h, lt) ==> Clean(h, mem))
  }

  lemma EditedFor(h: HashFn, d: Data, start: seq<Stored>, nodes: seq<Stored>, free: seq<nat>,
                  lt: LTree, mem: LTree, after: LTree, keep: set<nat>, death: set<H256>, deathAfter: set<H256>)
    requires mem.Mem? && Abs(mem) == Abs(lt) && Pers(h, mem) == Pers(h, lt) && Persisted(mem) == Persisted(lt)
    requires EditedTree(h, d, start, nodes, free, mem, after, keep, death, deathAfter)
    ensures EditedTree(h, d, start, nodes, free, lt, after, keep, death, deathAfter)
  {
  }

  lemma TransmutedExtension(key: nibbles, child: Tree, partial: nibbles, value: bytes)
    requires WellFormed(Extension(key, child)) && CommonPrefix(partial, key) == 0
    ensures WellFormed(Shortened(key, child)) && Shortened(key, child) != Empty
    ensures WellFormed(Branch(NO_CHILDREN[key[0] as int := Shortened(key, child)], None))
    ensures Insert(Extension(key, child), partial, value) ==
      Insert(Branch(NO_CHILDREN[key[0] as int := Shortened(key, child)], None), partial, value)
  {
  }

  // ---- removal ----

  /** A child taken away altogether. */
  lemma ChildDropped(h: HashFn, d: Data, before: seq<Stored>, nodes: seq<Stored>, free: seq<nat>,
                     children: seq<Option<LTree>>, value: Option<bytes>, i: nat, keep: set<nat>)
    requires NodeOkButFree(h, d, before, LBranch(children, value), keep) && i < 16
    requires Kept(before, nodes, Others(children, i, keep)) && Tidy(nodes, free, Others(children, i, keep))
    ensures NodeOk(h, d, nodes, free, LBranch(children[i := None], value), keep)
  {
    var rest := children[i := None];
    SlotsSplit(children, i);
    DroppedHolds(h, before, nodes, children, i, keep, rest);
    assert Apart(rest) by {
      forall j, k | 0 <= j < k < |rest|
        ensures SlotsOption(rest[j]) !! SlotsOption(rest[k])
      {
        assert SlotsOption(children[j]) !! SlotsOption(children[k]);
      }
    }
    assert SlotsNode(LBranch(rest, value)) + keep == Others(children, i, keep);
  }

  lemma DroppedHolds(h: HashFn, before: seq<Stored>, nodes: seq<Stored>, children: seq<Option<LTree>>,
                     i: nat, keep: set<nat>, rest: seq<Option<LTree>>)
    requires forall j :: 0 <= j < |children| && children[j].Some? ==> Holds(h, before, children[j].value)
    requires i < |children| && rest == children[i := None] && Kept(before, nodes, Others(children, i, keep))
    ensures forall j :: 0 <= j < |rest| && rest[j].Some? ==> Holds(h, nodes, rest[j].value)
  {
    forall j | 0 <= j < |rest| && rest[j].Some?
      ensures Holds(h, nodes, rest[j].value)
    {
      assert rest[j] == children[j];
      assert SlotsOption(rest[j]) <= SlotsAll(rest);
      HoldsKept(h, before, nodes, children[j].value);
    }
  }

  lemma DroppedMeaning(h: HashFn, children: seq<Option<LTree>>, i: nat)
    requires i < |children|
    ensures AbsChildren(children[i := None]) == AbsChildren(children)[i := Empty]
    ensures HandlesOf(h, children[i := None]) == HandlesOf(h, children)[i := None]
    ensures PersAll(h, children[i := None]) + PersOption(h, children[i]) == PersAll(h, children)
  {
    DroppedAbs(children, i);
    DroppedHandles(h, children, i);
    DroppedPers(h, children, i);
  }

  lemma DroppedAbs(children: seq<Option<LTree>>, i: nat)
    requires i < |children|
    ensures AbsChildren(children[i := None]) == AbsChildren(children)[i := Empty]
  {
  }

  lemma DroppedHandles(h: HashFn, children: seq<Option<LTree>>, i: nat)
    requires i < |children|
    ensures HandlesOf(h, children[i := None]) == HandlesOf(h, children)[i := None]
  {
  }

  lemma DroppedPers(h: HashFn, children: seq<Option<LTree>>, i: nat)
    requires i < |children|
    ensures PersAll(h, children[i := None]) + PersOption(h, children[i]) == PersAll(h, children)
  {
    PersUpdate(h, children, i, None);
    PlusNothing(PersAll(h, children));
  }

  /** With the other children gone, a branch holds only what its one child holds. */
  lemma PersOnly(h: HashFn, children: seq<Option<LTree>>, i: nat)
    requires i < |children| && forall j :: 0 <= j < |children| && j != i ==> children[j] == None
    ensures PersAll(h, children) == PersOption(h, children[i])
  {
    DroppedPers(h, children, i);
    PersNone(h, children[i := None]);
    PlusNothing(PersOption(h, children[i]));
  }

  lemma TreeOkLess(h: HashFn, d: Data, nodes: seq<Stored>, free: seq<nat>, lt: LTree, keep: set<nat>, less: set<nat>)
    requires TreeOk(h, d, nodes, free, lt, keep) && less <= keep
    ensures TreeOk(h, d, nodes, free, lt, less)
  {
  }

  lemma {:induction false} UsedManyStays(children: seq<Tree>, m: nat, n: nat)
    requires m <= n <= |children| && Used(children, m) == Many
    ensures Used(children, n) == Many
  {
    if m < n { UsedManyStays(children, m, n - 1); }
  }

  /** The node under an extension key is a leaf or an extension: its hash is given up. */
  lemma BudgetTaken(h: HashFn, mem: LTree, death: set<H256>)
    requires mem.Mem?
    ensures Budget(Pers(h, mem), death, PersNode(h, mem.node),
                   death + if mem.cached.Some? then {mem.cached.value} else {})
  {
    if mem.cached.Some? {
      BudgetDeath(PersNode(h, mem.node), death, PersNode(h, mem.node), death, mem.cached.value);
    } else {
      assert death + {} == death;
      PlusNothing(PersNode(h, mem.node));
    }
  }

  /** A subtree removed altogether: its slots are free and its references given up. */
  ghost predicate RemovedNode(h: HashFn, before: seq<Stored>, nodes: seq<Stored>, free: seq<nat>,
                              ln: LNode, keep: set<nat>, death: set<H256>, deathAfter: set<H256>) {
    Tidy(nodes, free, keep) && Kept(before, nodes, keep) && Budget(PersNode(h, ln), death, multiset{}, deathAfter)
  }

  ghost predicate RemovedTree(h: HashFn, before: seq<Stored>, nodes: seq<Stored>, free: seq<nat>,
                              lt: LTree, keep: set<nat>, death: set<H256>, deathAfter: set<H256>) {
    Tidy(nodes, free, keep) && Kept(before, nodes, keep) && Budget(Pers(h, lt), death, multiset{}, deathAfter)
  }

  lemma RemovedBudget(h: HashFn, mem: LTree, death: set<H256>, deathMid: set<H256>)
    requires mem.Mem? && Budget(PersNode(h, mem.node), death, multiset{}, deathMid)
    ensures Budget(Pers(h, mem), death, multiset{}, deathMid + if mem.cached.Some? then {mem.cached.value} else {})
  {
    if mem.cached.Some? {
      BudgetDeath(PersNode(h, mem.node), death, multiset{}, deathMid, mem.cached.value);
    } else {
      assert deathMid + {} == deathMid;
      PlusNothing(PersNode(h, mem.node));
    }
  }

  /** A canonical branch that loses one entry has another. */
  lemma EntryLeft(t: Tree, i: nat)
    requires Canonical(t) && t.Branch? && i < 16
    ensures t.value.Some? ==> OneChild(t.children)
    ensures t.value.Some? || OneChild(t.children[i := Empty])
  {
    if TwoChildren(t.children) { OtherChild(t.children, i); }
  }

  lemma NodeGone(h: HashFn, nodes: seq<Stored>, free: seq<nat>, ln: LNode, keep: set<nat>, death: set<H256>)
    requires (ln.LEmpty? || ln.LLeaf?) && Tidy(nodes, free, SlotsNode(ln) + keep)
    ensures RemovedNode(h, nodes, nodes, free, ln, keep, death, death)
  {
    TidySame(nodes, free, SlotsNode(ln) + keep, keep);
  }

  /** A branch after its child i was removed altogether. */
  lemma ChildRemoved(h: HashFn, d: Data, before: seq<Stored>, nodes: seq<Stored>, free: seq<nat>,
                     children: seq<Option<LTree>>, value: Option<bytes>, i: nat, keep: set<nat>,
                     death: set<H256>, deathAfter: set<H256>)
    requires NodeOkButFree(h, d, before, LBranch(children, value), keep) && i < 16 && children[i].Some?
    requires RemovedTree(h, before, nodes, free, children[i].value, Others(children, i, keep), death, deathAfter)
    ensures EditedNode(h, d, before, nodes, free, LBranch(children, value), LBranch(children[i := None], value),
                       keep, death, deathAfter)
  {
    ChildDropped(h, d, before, nodes, free, children, value, i, keep);
    DroppedMeaning(h, children, i);
    PlusNothing(PersAll(h, children));
    BudgetChild(PersAll(h, children), Pers(h, children[i].value), multiset{}, PersAll(h, children[i := None]), death,
                deathAfter);
  }
}
