/** Allocation in the arena, and what taking a subtree out of a node and putting one back in means
    for ownership. */
module NodeStorages {
  import opened Bytes
  import opened Nibbles
  import opened Trie
  import opened TrieNode
  import opened HashStore
  import opened Arena

  /** The used slots exist, and the free list names existing unused slots, each once. */
  ghost predicate Tidy(nodes: seq<Stored>, free: seq<nat>, used: set<nat>) {
    (forall i :: i in used ==> i < |nodes|) &&
    (forall k :: 0 <= k < |free| ==> free[k] < |nodes| && free[k] !in used) &&
    (forall k, l :: 0 <= k < l < |free| ==> free[k] != free[l])
  }

  class NodeStorage {
    var nodes: seq<Stored>
    var freeIndices: seq<nat>

    constructor ()
      ensures nodes == [] && freeIndices == []
    {
      nodes, freeIndices := [], [];
    }

    /** Reuses the slot freed first, or grows; never a slot in use. */
    method Alloc(stored: Stored, ghost used: set<nat>) returns (slot: nat)
      requires Tidy(nodes, freeIndices, used)
      modifies this
      ensures slot !in used && slot < |nodes| && nodes[slot] == stored
      ensures Tidy(nodes, freeIndices, used + {slot}) && Kept(old(nodes), nodes, used)
      ensures if old(freeIndices) != []
              then slot == old(freeIndices)[0] && nodes == old(nodes)[slot := stored] &&
              freeIndices == old(freeIndices)[1..]
              else slot == |old(nodes)| && nodes == old(nodes) + [stored] && freeIndices == []
    {
      if |freeIndices| > 0 {
        slot := freeIndices[0];
        freeIndices := freeIndices[1..];
        nodes := nodes[slot := stored];
      } else {
        nodes := nodes + [stored];
        slot := |nodes| - 1;
      }
    }

    /** Takes the node out; the slot goes to the end of the free list. */
    method Destroy(slot: nat, ghost used: set<nat>) returns (stored: Stored)
      requires Tidy(nodes, freeIndices, used) && slot in used
      modifies this
      ensures stored == old(nodes)[slot]
      ensures Tidy(nodes, freeIndices, used - {slot}) && Kept(old(nodes), nodes, used - {slot})
      ensures nodes == old(nodes)[slot := New(EmptyNode)] && freeIndices == old(freeIndices) + [slot]
    {
      freeIndices := freeIndices + [slot];
      stored := nodes[slot];
      nodes := nodes[slot := New(EmptyNode)];
    }
  }

  // ---- ownership ----

  /** A node held outside the arena owns its subtrees, apart from the slots others keep. */
  ghost predicate NodeOk(h: HashFn, d: Data, nodes: seq<Stored>, free: seq<nat>, ln: LNode, keep: set<nat>) {
    HoldsNode(h, nodes, ln) && SepNode(ln) && GoodNode(h, d, ln) && SlotsNode(ln) !! keep &&
    Tidy(nodes, free, SlotsNode(ln) + keep)
  }

  ghost predicate TreeOk(h: HashFn, d: Data, nodes: seq<Stored>, free: seq<nat>, lt: LTree, keep: set<nat>) {
    Holds(h, nodes, lt) && Sep(lt) && Good(h, d, lt) && Slots(lt) !! keep &&
    Tidy(nodes, free, Slots(lt) + keep)
  }

  /** lt' may stand in a parent where lt stood. */
  ghost predicate Replaces(lt: LTree, after: LTree) {
    Abs(after) != Empty && (Persisted(after) ==> Persisted(lt) && Abs(after) == Abs(lt))
  }

  lemma TidySame(nodes: seq<Stored>, free: seq<nat>, used: set<nat>, same: set<nat>)
    requires Tidy(nodes, free, used) && same <= used
    ensures Tidy(nodes, free, same)
  {
  }

  /** What everyone but child i must keep while child i is worked on. */
  ghost function Others(children: seq<Option<LTree>>, i: nat, keep: set<nat>): set<nat>
    requires i < |children|
  {
    keep + SlotsAll(children[i := None])
  }

  lemma SlotsSplit(children: seq<Option<LTree>>, i: nat)
    requires i < |children|
    ensures SlotsAll(children) == SlotsOption(children[i]) + SlotsAll(children[i := None])
    ensures Apart(children) ==> SlotsOption(children[i]) !! SlotsAll(children[i := None])
  {
    var rest := children[i := None];
    forall s
      ensures s in SlotsAll(children) <==> s in SlotsOption(children[i]) || s in SlotsAll(rest)
    {
      if s in SlotsAll(children) {
        var j :| 0 <= j < |children| && s in SlotsOption(children[j]);
        if j != i { assert rest[j] == children[j]; }
      }
      if s in SlotsAll(rest) {
        var j :| 0 <= j < |rest| && s in SlotsOption(rest[j]);
        assert j != i && children[j] == rest[j];
      }
      if s in SlotsOption(children[i]) { assert s in SlotsAll(children); }
    }
    if Apart(children) {
      forall s | s in SlotsAll(rest)
        ensures s !in SlotsOption(children[i])
      {
        var j :| 0 <= j < |rest| && s in SlotsOption(rest[j]);
        assert j != i && children[j] == rest[j];
        if j < i { assert SlotsOption(children[j]) !! SlotsOption(children[i]); }
        else { assert SlotsOption(children[i]) !! SlotsOption(children[j]); }
      }
    }
  }

  /** Taking child i out of a branch. */
  lemma TakeChild(h: HashFn, d: Data, nodes: seq<Stored>, free: seq<nat>, children: seq<Option<LTree>>,
                  value: Option<bytes>, i: nat, keep: set<nat>)
    requires NodeOk(h, d, nodes, free, LBranch(children, value), keep)
    requires i < 16 && children[i].Some?
    ensures TreeOk(h, d, nodes, free, children[i].value, Others(children, i, keep))
    ensures GoodChild(h, d, children[i].value)
  {
    SlotsSplit(children, i);
    assert GoodChild(h, d, children[i].value);
    assert Slots(children[i].value) + Others(children, i, keep) == SlotsAll(children) + keep;
  }

  lemma ApartUpdate(children: seq<Option<LTree>>, i: nat, c: Option<LTree>)
    requires i < |children| && Apart(children)
    requires SlotsOption(c) !! SlotsAll(children[i := None])
    ensures Apart(children[i := c])
  {
    var updated := children[i := c];
    var rest := children[i := None];
    forall j, k | 0 <= j < k < |updated|
      ensures SlotsOption(updated[j]) !! SlotsOption(updated[k])
    {
      if j == i {
        assert rest[k] == children[k];
        assert SlotsOption(rest[k]) <= SlotsAll(rest);
      } else if k == i {
        assert rest[j] == children[j];
        assert SlotsOption(rest[j]) <= SlotsAll(rest);
      }
    }
  }

  /** Putting a subtree into place i of a branch whose other children were kept. */
  lemma PutChild(h: HashFn, d: Data, before: seq<Stored>, nodes: seq<Stored>, free: seq<nat>,
                 children: seq<Option<LTree>>, value: Option<bytes>, i: nat, lt: LTree, keep: set<nat>)
    requires HoldsNode(h, before, LBranch(children, value)) && SepNode(LBranch(children, value))
    requires GoodNode(h, d, LBranch(children, value)) && SlotsAll(children) !! keep && i < 16
    requires Kept(before, nodes, Others(children, i, keep))
    requires TreeOk(h, d, nodes, free, lt, Others(children, i, keep)) && GoodChild(h, d, lt)
    ensures NodeOk(h, d, nodes, free, LBranch(children[i := Some(lt)], value), keep)
  {
    var updated := children[i := Some(lt)];
    PutChildHolds(h, before, nodes, children, i, lt, keep, updated);
    ApartUpdate(children, i, Some(lt));
    SlotsSplit(updated, i);
    SlotsSplit(children, i);
    assert updated[i := None] == children[i := None];
    assert SlotsAll(updated) + keep == Slots(lt) + Others(children, i, keep);
  }

  lemma PutChildHolds(h: HashFn, before: seq<Stored>, nodes: seq<Stored>, children: seq<Option<LTree>>,
                      i: nat, lt: LTree, keep: set<nat>, updated: seq<Option<LTree>>)
    requires forall j :: 0 <= j < |children| && children[j].Some? ==> Holds(h, before, children[j].value)
    requires i < |children| && Kept(before, nodes, Others(children, i, keep)) && Holds(h, nodes, lt)
    requires updated == children[i := Some(lt)]
    ensures forall j :: 0 <= j < |updated| && updated[j].Some? ==> Holds(h, nodes, updated[j].value)
  {
    var rest := children[i := None];
    forall j | 0 <= j < |children| && j != i && children[j].Some?
      ensures Holds(h, nodes, children[j].value)
    {
      assert rest[j] == children[j];
      assert SlotsOption(rest[j]) <= SlotsAll(rest);
      HoldsKept(h, before, nodes, children[j].value);
    }
  }

  lemma ReplacedIsGoodChild(h: HashFn, d: Data, lt: LTree, after: LTree)
    requires GoodChild(h, d, lt) && Good(h, d, after) && Replaces(lt, after)
    ensures GoodChild(h, d, after)
  {
  }

  /** A node put into a slot. */
  lemma NodePlaced(h: HashFn, d: Data, before: seq<Stored>, nodes: seq<Stored>, free: seq<nat>,
                   slot: nat, ln: LNode, keep: set<nat>)
    requires NodeOkButFree(h, d, before, ln, keep)
    requires slot !in SlotsNode(ln) + keep && slot < |nodes| && nodes[slot] == New(NodeOf(h, ln))
    requires Tidy(nodes, free, SlotsNode(ln) + keep + {slot}) && Kept(before, nodes, SlotsNode(ln) + keep)
    ensures TreeOk(h, d, nodes, free, Mem(slot, None, ln), keep)
  {
    HoldsNodeKept(h, before, nodes, ln);
    assert Slots(Mem(slot, None, ln)) + keep == SlotsNode(ln) + keep + {slot};
  }

  ghost predicate NodeOkButFree(h: HashFn, d: Data, nodes: seq<Stored>, ln: LNode, keep: set<nat>) {
    HoldsNode(h, nodes, ln) && SepNode(ln) && GoodNode(h, d, ln) && SlotsNode(ln) !! keep
  }

  /** A node taken out of its slot. */
  lemma NodeTaken(h: HashFn, d: Data, before: seq<Stored>, nodes: seq<Stored>, free: seq<nat>, lt: LTree,
                  keep: set<nat>)
    requires lt.Mem? && Holds(h, before, lt) && Sep(lt) && Good(h, d, lt) && Slots(lt) !! keep
    requires Tidy(nodes, free, Slots(lt) + keep - {lt.slot}) && Kept(before, nodes, Slots(lt) + keep - {lt.slot})
    ensures NodeOk(h, d, nodes, free, lt.node, keep)
  {
    assert Slots(lt) + keep - {lt.slot} == SlotsNode(lt.node) + keep;
    HoldsNodeKept(h, before, nodes, lt.node);
  }

  /** A node with its whole child put under an extension key. */
  lemma ExtensionOk(h: HashFn, d: Data, nodes: seq<Stored>, free: seq<nat>, key: nibbles, lt: LTree, keep: set<nat>)
    requires TreeOk(h, d, nodes, free, lt, keep) && GoodChild(h, d, lt)
    ensures NodeOk(h, d, nodes, free, LExtension(key, lt), keep)
  {
  }

  lemma ExtensionParts(h: HashFn, d: Data, nodes: seq<Stored>, free: seq<nat>, key: nibbles, lt: LTree, keep: set<nat>)
    requires NodeOk(h, d, nodes, free, LExtension(key, lt), keep)
    ensures TreeOk(h, d, nodes, free, lt, keep) && GoodChild(h, d, lt)
  {
    assert GoodChild(h, d, lt);
  }
}
