/** The mutable trie: an arena of nodes over a hash store, edited in place and written back on
    commit. Every operation refines the operation on the trie as a value. */
module TrieDBMuts {
  import opened Bytes
  import opened Nibbles
  import opened Trie
  import opened TrieMap
  import opened TrieShape
  import opened TrieNode
  import opened HashStore
  import opened Arena
  import opened NodeStorages
  import opened TrieLoad
  import opened TrieSteps
  import opened TrieCommit
  import opened TrieWrites
  import opened TrieRoot
  import opened TrieStates
  import TrieLookup

  datatype InsertAction = Replace(node: Node) | Restore(node: Node)

  datatype Action = ReplaceBy(node: Node) | Keep(node: Node) | Delete

  /** A lookup at one node: the answer, or the child to go on with and how many nibbles that used. */
  datatype Turn = Here(value: Option<bytes>) | Below(next: NodeHandle, skip: nat)

  class TrieDBMut {
    const h: HashFn
    const db: MemoryDB
    const storage: NodeStorage
    var root: H256
    var rootHandle: NodeHandle
    var deathRow: set<H256>
    /** What the root handle stands for. */
    ghost var shape: LTree
    /** The map this trie is. */
    ghost var contents: Contents
    /** The byte strings the digest is taken to be injective on. */
    ghost const used: iset<bytes>

    ghost predicate Valid()
      reads this, db, storage
    {
      db.h == h && rootHandle == HandleOf(h, shape) && (shape.Disk? ==> root == RootHash(h, shape.t)) &&
      Sound(h, db.data, storage.nodes, storage.freeIndices, shape, contents, deathRow, used)
    }

    /** A new, empty trie. */
    constructor (h: HashFn, db: MemoryDB, ghost used: iset<bytes>)
      requires db.h == h && Ready(h, db.data, used)
      ensures Valid() && contents == map[] && root == h(NULL_RLP) && this.db == db && this.used == used &&
        fresh(storage)
      ensures shape == Disk(Empty) && deathRow == {}
    {
      this.h, this.db, this.used := h, db, used;
      root := h(NULL_RLP);
      rootHandle := Hash(h(NULL_RLP));
      storage := new NodeStorage();
      deathRow := {};
      shape, contents := Disk(Empty), map[];
      new;
      NewSound(h, db.data, used);
    }

    /** A trie the store holds already under root. */
    constructor Existing(h: HashFn, db: MemoryDB, root: H256, ghost t: Tree, ghost m: Contents, ghost used: iset<bytes>)
      requires db.h == h && Ready(h, db.data, used)
      requires Means(t, m) && root == RootHash(h, t) && Good(h, db.data, Disk(t)) &&
        Enough(h, db.data, Pers(h, Disk(t)))
      ensures Valid() && contents == m && this.root == root && this.db == db && this.used == used && fresh(storage)
      ensures shape == Disk(t) && deathRow == {}
    {
      this.h, this.db, this.used := h, db, used;
      this.root := root;
      rootHandle := Hash(root);
      storage := new NodeStorage();
      deathRow := {};
      shape, contents := Disk(t), m;
      new;
      ExistingSound(h, db.data, t, m, used);
    }

    /** Sets a key; an empty value removes it. */
    method Insert(key: bytes, value: bytes) returns (oldVal: Option<bytes>)
      requires Valid() && ShortEdit(SetValue(key, value))
      modifies this, storage
      ensures Valid() && contents == EditMap(old(contents), SetValue(key, value))
      ensures root == (if contents == map[] then h(NULL_RLP) else old(root))
      ensures GivesUp(h, old(shape), old(contents), old(deathRow), shape, contents, deathRow)
      ensures oldVal == TrieRoot.Get(old(contents), key)
    {
      if |value| == 0 {
        oldVal := Remove(key);
      } else {
        oldVal := InsertValue(key, value);
      }
    }

    method InsertValue(key: bytes, value: bytes) returns (oldVal: Option<bytes>)
      requires Valid() && ShortEdit(SetValue(key, value)) && value != []
      modifies this, storage
      ensures Valid() && contents == EditMap(old(contents), SetValue(key, value)) && root == old(root)
      ensures GivesUp(h, old(shape), old(contents), old(deathRow), shape, contents, deathRow)
      ensures oldVal == TrieRoot.Get(old(contents), key)
    {
      ghost var before, beforeFree, death := storage.nodes, storage.freeIndices, deathRow;
      var slot, changed, ov, after := InsertAt(rootHandle, AsNibbles(key), value, shape, {});
      oldVal := ov;
      assert key in EditMap(contents, SetValue(key, value));
      Adopt(slot, after, SetValue(key, value), before, beforeFree, death);
    }

    /** The edited tree becomes the trie. */
    method Adopt(slot: nat, ghost after: LTree, ghost edit: Edit, ghost before: seq<Stored>, ghost beforeFree: seq<nat>,
                 ghost death: set<H256>)
      requires db.h == h && Sound(h, db.data, before, beforeFree, shape, contents, death, used) && ShortEdit(edit)
      requires EditedTree(h, db.data, before, storage.nodes, storage.freeIndices, shape, after, {}, death, deathRow)
      requires Abs(after) == EditTree(Abs(shape), edit) && HandleOf(h, after) == InMemory(slot)
      requires EditMap(contents, edit) != map[]
      modifies this`rootHandle, this`shape, this`contents
      ensures Valid() && contents == EditMap(old(contents), edit) && contents != map[]
      ensures GivesUp(h, old(shape), old(contents), death, shape, contents, deathRow)
    {
      EditGivesUp(h, shape, contents, edit, death, after, deathRow);
      EditSound(h, db.data, before, beforeFree, storage.nodes, storage.freeIndices, shape, after, contents,
                edit, death, deathRow, used);
      rootHandle := InMemory(slot);
      shape, contents := after, EditMap(contents, edit);
    }

    /** Nothing is left: back to the empty trie's hash. */
    method AdoptNothing(ghost edit: Edit, ghost before: seq<Stored>, ghost beforeFree: seq<nat>, ghost death: set<H256>)
      requires db.h == h && Sound(h, db.data, before, beforeFree, shape, contents, death, used) && ShortEdit(edit)
      requires RemovedTree(h, before, storage.nodes, storage.freeIndices, shape, {}, death, deathRow)
      requires EditTree(Abs(shape), edit) == Empty
      modifies this`root, this`rootHandle, this`shape, this`contents
      ensures Valid() && contents == EditMap(old(contents), edit) && contents == map[] && root == h(NULL_RLP)
      ensures GivesUp(h, old(shape), old(contents), death, shape, contents, deathRow)
    {
      EditedMeans(Abs(shape), contents, edit);
      DropAllGivesUp(h, db.data, shape, contents, death, Disk(Empty), deathRow);
      DropAllSound(h, db.data, before, beforeFree, storage.nodes, storage.freeIndices, shape, contents,
                   edit, death, deathRow, used);
      EmptyGood(h, db.data);
      rootHandle := Hash(h(NULL_RLP));
      root := h(NULL_RLP);
      shape, contents := Disk(Empty), EditMap(contents, edit);
    }

    method Remove(key: bytes) returns (oldVal: Option<bytes>)
      requires Valid()
      modifies this, storage
      ensures Valid() && contents == EditMap(old(contents), DropKey(key))
      ensures root == (if contents == map[] then h(NULL_RLP) else old(root))
      ensures GivesUp(h, old(shape), old(contents), old(deathRow), shape, contents, deathRow)
      ensures oldVal == TrieRoot.Get(old(contents), key)
    {
      ghost var before, beforeFree, death := storage.nodes, storage.freeIndices, deathRow;
      var left, ov, after := RemoveRoot(key);
      oldVal := ov;
      match left {
        case Some((slot, changed)) => Adopt(slot, after, DropKey(key), before, beforeFree, death);
        case None => AdoptNothing(DropKey(key), before, beforeFree, death);
      }
    }

    /** The edited tree, or nothing exactly when the map has no other key. */
    method RemoveRoot(key: bytes) returns (left: Option<(nat, bool)>, oldVal: Option<bytes>, ghost after: LTree)
      requires Valid()
      modifies storage, this`deathRow
      ensures left.None? <==> EditMap(contents, DropKey(key)) == map[]
      ensures left.None? ==>
        RemovedTree(h, old(storage.nodes), storage.nodes, storage.freeIndices, shape, {}, old(deathRow), deathRow) &&
        EditTree(Abs(shape), DropKey(key)) == Empty
      ensures left.Some? ==>
        EditedTree(h, db.data, old(storage.nodes), storage.nodes, storage.freeIndices, shape, after, {}, old(deathRow),
                   deathRow) &&
        HandleOf(h, after) == InMemory(left.value.0) && Abs(after) == EditTree(Abs(shape), DropKey(key))
      ensures oldVal == TrieRoot.Get(contents, key)
    {
      EditedMeans(Abs(shape), contents, DropKey(key));
      left, oldVal, after := RemoveAt(rootHandle, AsNibbles(key), shape, {});
    }

    /** The key's value, from memory as far as nodes were loaded and from the store below. */
    method Get(key: bytes) returns (value: Option<bytes>)
      requires Valid()
      ensures value == TrieRoot.Get(contents, key)
    {
      MeansLow(Abs(shape), contents);
      value := LookupFrom(AsNibbles(key), rootHandle, shape);
    }

    method LookupFrom(key: nibbles, start: NodeHandle, ghost lt: LTree) returns (value: Option<bytes>)
      requires db.h == h && start == HandleOf(h, lt) && Holds(h, storage.nodes, lt) && Good(h, db.data, lt)
      requires Height(Abs(lt)) < TrieLookup.MAX_DEPTH
      ensures value == Lookup(Abs(lt), key)
    {
      var handle, partial := start, key;
      ghost var at := lt;
      while handle.InMemory?
        invariant handle == HandleOf(h, at) && Holds(h, storage.nodes, at) && Good(h, db.data, at)
        invariant Lookup(Abs(at), partial) == Lookup(Abs(lt), key) && Height(Abs(at)) <= Height(Abs(lt))
        decreases at
      {
        TurnsRight(h, db.data, storage.nodes, at.node, partial);
        var child := ChildOn(storage.nodes[handle.slot].node, partial);
        match child {
          case Here(v) => return v;
          case Below(next, skip) =>
            at := BelowOf(at.node, partial);
            handle, partial := next, partial[skip..];
        }
      }
      TrieLookup.TrieReaderReadsBack();
      TrieLookup.LookUpStored(TrieLookup.TrieReader(), h, db.data, at.t, partial, TrieLookup.MAX_DEPTH);
      var answer, seen := TrieLookup.LookUpRecorded(TrieLookup.TrieReader(), db, null, handle.hash, partial,
                                                    TrieLookup.MAX_DEPTH);
      value := answer.value;
    }

    method IsEmpty() returns (empty: bool)
      requires Valid()
      ensures empty <==> contents == map[]
    {
      MeansNothing(Abs(shape), contents);
      match rootHandle {
        case Hash(x) =>
          NullRoot(h, db.data, shape.t);
          empty := x == h(NULL_RLP);
          assert empty <==> Abs(shape) == Empty;
        case InMemory(slot) =>
          assert storage.nodes[slot].node == NodeOf(h, shape.node);
          empty := storage.nodes[slot].node.EmptyNode?;
          assert empty <==> Abs(shape) == Empty;
      }
    }

    /** Drops the references on the death row. */
    method Purge()
      requires Valid()
      modifies this`deathRow, db
      ensures Valid() && deathRow == {} && Drained(h, old(db.data), db.data, old(deathRow))
    {
      ghost var d, death := db.data, deathRow;
      DrainRow();
      DrainedSound(h, d, db.data, storage.nodes, storage.freeIndices, shape, contents, death, used);
    }

    /** Hash by hash, in any order. */
    method DrainRow()
      requires db.h == h
      modifies this`deathRow, db
      ensures deathRow == {} && Drained(h, old(db.data), db.data, old(deathRow))
    {
      ghost var d, death := db.data, deathRow;
      DrainedNone(h, d, death);
      while deathRow != {}
        invariant deathRow <= death && DrainedBut(h, d, db.data, death, deathRow)
        decreases |deathRow|
      {
        var hash :| hash in deathRow;
        DrainedOne(h, d, db.data, death, deathRow, hash);
        db.Remove(hash);
        deathRow := deathRow - {hash};
      }
      DrainedAll(h, d, db.data, death);
    }

    /** Writes the trie back: afterwards the store holds all of it under the root, and references
        every node at least as often as the trie contains it. Each hash on the row loses one reference, each
        node that was new gains one, and no other count changes. */
    method Commit()
      requires Valid() && Within(h, Abs(shape), used)
      modifies this, storage, db
      ensures Valid() && contents == old(contents) && deathRow == {}
      ensures Abs(shape) == old(Abs(shape)) && root == RootHash(h, Abs(shape))
      ensures Good(h, db.data, Disk(Abs(shape))) && Enough(h, db.data, Pers(h, Disk(Abs(shape))))
      ensures Pers(h, shape) == Pers(h, Disk(Abs(shape)))
      ensures Settled(h, old(db.data), db.data, old(deathRow), old(Pers(h, shape)), Pers(h, shape))
    {
      ghost var d, death, held := db.data, deathRow, Pers(h, shape);
      Purge();
      ghost var mid := db.data;
      WriteBack();
      DrainedThenGained(h, d, mid, db.data, death, held, Pers(h, shape));
    }

    /** With nothing on the row. */
    method WriteBack()
      requires Valid() && deathRow == {} && Within(h, Abs(shape), used)
      modifies this, storage, db
      ensures Committed(old(Abs(shape)), old(contents)) && Pers(h, shape) == Pers(h, Disk(Abs(shape)))
      ensures Gained(h, old(db.data), db.data, old(Pers(h, shape)), Pers(h, shape))
    {
      match rootHandle {
        case Hash(_) =>
          SoundReady(h, db.data, storage.nodes, storage.freeIndices, shape, contents, used);
          GainedNothing(h, db.data, Pers(h, shape));
        case InMemory(slot) =>
          CommitRoot(slot);
      }
    }

    /** The trie t, meaning m, is all in the store under the root. */
    ghost predicate Committed(t: Tree, m: Contents)
      reads this, db, storage
    {
      Valid() && contents == m && deathRow == {} && Abs(shape) == t && root == RootHash(h, t) &&
      Good(h, db.data, Disk(t)) && Enough(h, db.data, Pers(h, Disk(t)))
    }

    /** The root's node is out of its slot, everything below it still in place. */
    ghost predicate RootOut(node: Node)
      reads this, db, storage
    {
      db.h == h && deathRow == {} && shape.Mem? && node == NodeOf(h, shape.node) && Good(h, db.data, shape) &&
      NodeOk(h, db.data, storage.nodes, storage.freeIndices, shape.node, {}) && Ready(h, db.data, used) &&
      Means(Abs(shape), contents) && AllSmall(Abs(shape)) && Enough(h, db.data, Pers(h, shape))
    }

    method CommitRoot(slot: nat)
      requires Valid() && rootHandle == InMemory(slot) && deathRow == {} && Within(h, Abs(shape), used)
      modifies this, storage, db
      ensures Committed(old(Abs(shape)), old(contents)) && Pers(h, shape) == Pers(h, Disk(Abs(shape)))
      ensures Gained(h, old(db.data), db.data, old(Pers(h, shape)), Pers(h, shape))
    {
      ghost var before := storage.nodes;
      SoundReady(h, db.data, before, storage.freeIndices, shape, contents, used);
      var stored := storage.Destroy(slot, Slots(shape) + {});
      NodeTaken(h, db.data, before, storage.nodes, storage.freeIndices, shape, {});
      match stored {
        case New(node) => CommitNew(node);
        case Cached(node, hash) =>
          CommitCached(node, hash);
          GainedNothing(h, db.data, Pers(h, shape));
      }
    }

    /** A new root lives on disk from now on. */
    method CommitNew(node: Node)
      requires RootOut(node) && shape.cached.None? && Within(h, Abs(shape), used)
      modifies this, storage, db
      ensures Committed(old(Abs(shape)), old(contents)) && Pers(h, shape) == Pers(h, Disk(Abs(shape)))
      ensures Gained(h, old(db.data), db.data, old(Pers(h, shape)), Pers(h, shape))
    {
      WriteRoot(node);
      rootHandle := Hash(root);
      shape := Disk(Abs(shape));
    }

    /** Encodes the root with everything below it. */
    method WriteRoot(node: Node)
      requires RootOut(node) && shape.cached.None? && Within(h, Abs(shape), used)
      modifies this`root, storage, db
      ensures root == RootHash(h, Abs(shape))
      ensures OnDisk(h, db.data, storage.nodes, storage.freeIndices, Abs(shape), contents, used)
      ensures Gained(h, old(db.data), db.data, Pers(h, shape), Pers(h, Disk(Abs(shape))))
    {
      ghost var d, before := db.data, storage.nodes;
      var rlp := IntoRlp(h, db, storage, node, shape.node, {}, used, before);
      CommittedSound(h, d, db.data, before, storage.nodes, storage.freeIndices, shape, contents, used);
      root := db.Insert(rlp);
    }

    /** A root that was only loaded is in the store already. */
    method CommitCached(node: Node, hash: H256)
      requires RootOut(node) && shape.cached == Some(hash)
      modifies this, storage
      ensures Committed(old(Abs(shape)), old(contents)) && Pers(h, shape) == Pers(h, Disk(Abs(shape)))
      ensures Pers(h, shape) == old(Pers(h, shape))
    {
      ghost var lt := shape;
      RootCached(h, db.data, lt);
      RestoreRoot(node, hash);
      RestoredSound(h, db.data, storage.nodes, storage.freeIndices, lt, shape, contents, used);
    }

    /** A root that was only loaded stays in memory. */
    method RestoreRoot(node: Node, hash: H256)
      requires shape.Mem? && shape.cached == Some(hash) && node == NodeOf(h, shape.node) && Good(h, db.data, shape)
      requires NodeOk(h, db.data, storage.nodes, storage.freeIndices, shape.node, {})
      modifies this`root, this`rootHandle, this`shape, storage
      ensures root == hash && shape.Mem? && shape.cached == Some(hash) && shape.node == old(shape).node
      ensures rootHandle == InMemory(shape.slot) && TreeOk(h, db.data, storage.nodes, storage.freeIndices, shape, {})
    {
      root := hash;
      var again := AllocCached(node, hash, shape);
      rootHandle := InMemory(again);
      shape := Mem(again, Some(hash), shape.node);
    }

    method AllocCached(node: Node, hash: H256, ghost lt: LTree) returns (slot: nat)
      requires lt.Mem? && lt.cached == Some(hash) && node == NodeOf(h, lt.node) && Good(h, db.data, lt)
      requires NodeOk(h, db.data, storage.nodes, storage.freeIndices, lt.node, {})
      modifies storage
      ensures TreeOk(h, db.data, storage.nodes, storage.freeIndices, Mem(slot, Some(hash), lt.node), {})
    {
      ghost var before := storage.nodes;
      slot := storage.Alloc(Cached(node, hash), SlotsNode(lt.node) + {});
      CachedPlaced(h, db.data, before, storage.nodes, storage.freeIndices, slot, hash, lt.node, Abs(lt), {});
    }

    /** Puts a single node of a new subtree into a slot. */
    method AllocNew(node: Node, ghost ln: LNode, ghost keep: set<nat>) returns (slot: nat)
      requires node == NodeOf(h, ln) && NodeOk(h, db.data, storage.nodes, storage.freeIndices, ln, keep)
      modifies storage
      ensures TreeOk(h, db.data, storage.nodes, storage.freeIndices, Mem(slot, None, ln), keep)
      ensures Kept(old(storage.nodes), storage.nodes, SlotsNode(ln) + keep)
      ensures Pers(h, Mem(slot, None, ln)) == PersNode(h, ln)
    {
      PlusNothing(PersNode(h, ln));
      slot := storage.Alloc(New(node), SlotsNode(ln) + keep);
      NodePlaced(h, db.data, old(storage.nodes), storage.nodes, storage.freeIndices, slot, ln, keep);
    }

    method InsertIntoBranch(handles: seq<Option<NodeHandle>>, storedValue: Option<bytes>, partial: nibbles,
                            value: bytes, ghost children: seq<Option<LTree>>, ghost keep: set<nat>)
      returns (action: InsertAction, oldVal: Option<bytes>, ghost after: LNode)
      requires db.h == h && handles == HandlesOf(h, children)
      requires NodeOk(h, db.data, storage.nodes, storage.freeIndices, LBranch(children, storedValue), keep)
      requires WellFormed(AbsNode(LBranch(children, storedValue)))
      modifies storage, this`deathRow
      ensures EditedNode(h, db.data, old(storage.nodes), storage.nodes, storage.freeIndices,
                         LBranch(children, storedValue),
                           after, keep, old(deathRow), deathRow)
      ensures action.node == NodeOf(h, after)
      ensures AbsNode(after) == Trie.Insert(AbsNode(LBranch(children, storedValue)), partial, value)
      ensures oldVal == Lookup(AbsNode(LBranch(children, storedValue)), partial)
      ensures action.Restore? == (oldVal == Some(value))
      ensures action.Restore? && CleanNode(h, LBranch(children, storedValue)) ==> CleanNode(h, after)
      decreases |partial|, 0, 1
    {
      if partial == [] {
        oldVal := storedValue;
        after := LBranch(children, Some(value));
        var node := BranchNode(handles, Some(value));
        action := if storedValue == Some(value) then Restore(node) else Replace(node);
        return;
      }
      match handles[partial[0]] {
        case Some(child) =>
          action, oldVal, after := InsertBelowBranch(handles, child, storedValue, partial, value, children, keep);
        case None =>
          var node;
          node, after := InsertNewChild(handles, storedValue, partial, value, children, keep);
          action, oldVal := Replace(node), None;
      }
    }

    /** The child on the way takes the insertion. */
    method InsertBelowBranch(handles: seq<Option<NodeHandle>>, child: NodeHandle, storedValue: Option<bytes>,
                             partial: nibbles, value: bytes, ghost children: seq<Option<LTree>>, ghost keep: set<nat>)
      returns (action: InsertAction, oldVal: Option<bytes>, ghost after: LNode)
      requires db.h == h && handles == HandlesOf(h, children) && partial != []
      requires NodeOk(h, db.data, storage.nodes, storage.freeIndices, LBranch(children, storedValue), keep)
      requires WellFormed(AbsNode(LBranch(children, storedValue))) && handles[partial[0]] == Some(child)
      modifies storage, this`deathRow
      ensures EditedNode(h, db.data, old(storage.nodes), storage.nodes, storage.freeIndices,
                         LBranch(children, storedValue),
                           after, keep, old(deathRow), deathRow)
      ensures action.node == NodeOf(h, after)
      ensures AbsNode(after) == Trie.Insert(AbsNode(LBranch(children, storedValue)), partial, value)
      ensures oldVal == Lookup(AbsNode(LBranch(children, storedValue)), partial)
      ensures action.Restore? == (oldVal == Some(value))
      ensures action.Restore? && CleanNode(h, LBranch(children, storedValue)) ==> CleanNode(h, after)
      decreases |partial|, 0, 0
    {
      var idx := partial[0];
      TakeChild(h, db.data, storage.nodes, storage.freeIndices, children, storedValue, idx, keep);
      var slot, changed, ov, lt := InsertAt(child, partial[1..], value, children[idx].value,
                                            Others(children, idx, keep));
      ChildReplaced(h, db.data, old(storage.nodes), storage.nodes, storage.freeIndices, children, storedValue, idx,
                    lt, keep, old(deathRow), deathRow);
      AbsUpdate(children, idx, lt);
      HandlesUpdate(h, children, idx, lt);
      oldVal, after := ov, LBranch(children[idx as int := Some(lt)], storedValue);
      var node := BranchNode(handles[idx as int := Some(InMemory(slot))], storedValue);
      action := if changed then Replace(node) else Restore(node);
    }

    /** A new leaf where there was no child. */
    method InsertNewChild(handles: seq<Option<NodeHandle>>, storedValue: Option<bytes>, partial: nibbles, value: bytes,
                          ghost children: seq<Option<LTree>>, ghost keep: set<nat>)
      returns (node: Node, ghost after: LNode)
      requires db.h == h && handles == HandlesOf(h, children) && partial != []
      requires NodeOk(h, db.data, storage.nodes, storage.freeIndices, LBranch(children, storedValue), keep)
      requires WellFormed(AbsNode(LBranch(children, storedValue))) && handles[partial[0]] == None
      modifies storage
      ensures EditedNode(h, db.data, old(storage.nodes), storage.nodes, storage.freeIndices,
                         LBranch(children, storedValue),
                           after, keep, deathRow, deathRow)
      ensures node == NodeOf(h, after)
      ensures AbsNode(after) == Trie.Insert(AbsNode(LBranch(children, storedValue)), partial, value)
      ensures Lookup(AbsNode(LBranch(children, storedValue)), partial) == None
    {
      var idx, rest := partial[0], partial[1..];
      LeafOk(h, db.data, storage.nodes, storage.freeIndices, rest, value, SlotsAll(children) + keep);
      var slot := AllocNew(LeafNode(HexPrefix(rest, true), value), LLeaf(rest, value), SlotsAll(children) + keep);
      ghost var lt := Mem(slot, None, LLeaf(rest, value));
      ChildAdded(h, db.data, old(storage.nodes), storage.nodes, storage.freeIndices, children, storedValue, idx, lt,
                 keep, deathRow);
      AbsUpdate(children, idx, lt);
      HandlesUpdate(h, children, idx, lt);
      after := LBranch(children[idx as int := Some(lt)], storedValue);
      node := BranchNode(handles[idx as int := Some(InMemory(slot))], storedValue);
    }

    method InsertAt(handle: NodeHandle, partial: nibbles, value: bytes, ghost lt: LTree, ghost keep: set<nat>)
      returns (slot: nat, changed: bool, oldVal: Option<bytes>, ghost after: LTree)
      requires db.h == h && handle == HandleOf(h, lt)
      requires TreeOk(h, db.data, storage.nodes, storage.freeIndices, lt, keep) && WellFormed(Abs(lt))
      modifies storage, this`deathRow
      ensures EditedTree(h, db.data, old(storage.nodes), storage.nodes, storage.freeIndices, lt, after, keep,
                         old(deathRow), deathRow)
      ensures HandleOf(h, after) == InMemory(slot)
      ensures Abs(after) == Trie.Insert(Abs(lt), partial, value)
      ensures oldVal == Lookup(Abs(lt), partial)
      ensures changed == (oldVal != Some(value))
      ensures !changed && Clean(h, lt) ==> Clean(h, after)
      decreases |partial|, 6
    {
      ghost var death := deathRow;
      ghost var start := storage.nodes;
      var stored, mem := TakeOut(handle, lt, keep);
      ghost var taken := storage.nodes;
      var action, ov, ln := InsertInspector(stored.node, partial, value, mem.node, keep);
      InsertChanged(Abs(lt), partial, value);
      InsertNotEmpty(Abs(lt), partial, value);
      KeptTwice(start, taken, storage.nodes, keep);
      oldVal, changed := ov, action.Replace?;
      slot, after := PutBack(stored, action.node, action.Restore?, mem, ln, keep, death, start);
      EditedFor(h, db.data, start, storage.nodes, storage.freeIndices, lt, mem, after, keep, death, deathRow);
    }

    /** Brings the node behind a handle into memory if need be, and takes it out of its slot. */
    method TakeOut(handle: NodeHandle, ghost lt: LTree, ghost keep: set<nat>) returns (stored: Stored, ghost mem: LTree)
      requires db.h == h && handle == HandleOf(h, lt)
      requires TreeOk(h, db.data, storage.nodes, storage.freeIndices, lt, keep)
      modifies storage
      ensures TakenOut(h, db.data, old(storage.nodes), storage.nodes, storage.freeIndices, lt, mem, stored, keep)
    {
      ghost var start := storage.nodes;
      var slot;
      slot, mem := Fetch(handle, lt, keep);
      ghost var mid := storage.nodes;
      stored := storage.Destroy(slot, Slots(mem) + keep);
      NodeTaken(h, db.data, mid, storage.nodes, storage.freeIndices, mem, keep);
      KeptTaken(mid, storage.nodes, mem, keep);
      KeptTwice(start, mid, storage.nodes, keep);
    }

    /** Brings the node behind a handle into memory. */
    method Fetch(handle: NodeHandle, ghost lt: LTree, ghost keep: set<nat>) returns (slot: nat, ghost mem: LTree)
      requires db.h == h && handle == HandleOf(h, lt)
      requires TreeOk(h, db.data, storage.nodes, storage.freeIndices, lt, keep)
      modifies storage
      ensures Fetched(h, db.data, old(storage.nodes), storage.nodes, storage.freeIndices, lt, mem, keep)
      ensures mem.slot == slot
    {
      match handle {
        case InMemory(s) =>
          slot, mem := s, lt;
        case Hash(x) =>
          TidySame(storage.nodes, storage.freeIndices, Slots(lt) + keep, keep);
          ghost var ln;
          slot, ln := Cache(h, x, db, storage, lt.t, keep);
          mem := Mem(slot, Some(x), ln);
      }
    }

    /** Stores an inspected node again: under its hash if it was restored, and otherwise as new,
        with its old hash on the death row. */
    method PutBack(stored: Stored, node: Node, restored: bool, ghost mem: LTree, ghost ln: LNode, ghost keep: set<nat>,
                   ghost death: set<H256>, ghost start: seq<Stored>)
      returns (slot: nat, ghost after: LTree)
      requires mem.Mem? && stored == StoredOf(h, mem.cached, mem.node) && Good(h, db.data, mem)
      requires node == NodeOf(h, ln) && AbsNode(ln) != Empty
      requires NodeOk(h, db.data, storage.nodes, storage.freeIndices, ln, keep) && Kept(start, storage.nodes, keep)
      requires Budget(PersNode(h, mem.node), death, PersNode(h, ln), deathRow)
      requires restored ==> AbsNode(ln) == Abs(mem) && (CleanNode(h, mem.node) ==> CleanNode(h, ln))
      modifies storage, this`deathRow
      ensures EditedTree(h, db.data, start, storage.nodes, storage.freeIndices, mem, after, keep, death, deathRow)
      ensures HandleOf(h, after) == InMemory(slot) && Abs(after) == AbsNode(ln)
      ensures restored && Clean(h, mem) ==> Clean(h, after)
    {
      if restored {
        slot, after := RestoreAt(stored, node, mem, ln, keep, death, start);
      } else {
        slot, after := ReplaceAt(stored, node, mem, ln, keep, death, start);
      }
    }

    /** A node that is what it was goes back under its hash. */
    method RestoreAt(stored: Stored, node: Node, ghost mem: LTree, ghost ln: LNode, ghost keep: set<nat>,
                     ghost death: set<H256>, ghost start: seq<Stored>)
      returns (slot: nat, ghost after: LTree)
      requires mem.Mem? && stored == StoredOf(h, mem.cached, mem.node) && Good(h, db.data, mem)
      requires node == NodeOf(h, ln) && AbsNode(ln) != Empty
      requires NodeOk(h, db.data, storage.nodes, storage.freeIndices, ln, keep) && Kept(start, storage.nodes, keep)
      requires Budget(PersNode(h, mem.node), death, PersNode(h, ln), deathRow)
      requires AbsNode(ln) == Abs(mem) && (CleanNode(h, mem.node) ==> CleanNode(h, ln))
      modifies storage
      ensures EditedTree(h, db.data, start, storage.nodes, storage.freeIndices, mem, after, keep, death, deathRow)
      ensures HandleOf(h, after) == InMemory(slot) && Abs(after) == AbsNode(ln) && (Clean(h, mem) ==> Clean(h, after))
    {
      ghost var before := storage.nodes;
      slot := storage.Alloc(if stored.New? then New(node) else Cached(node, stored.hash), SlotsNode(ln) + keep);
      after := Mem(slot, mem.cached, ln);
      RestoredTree(h, db.data, before, storage.nodes, storage.freeIndices, mem, slot, ln, keep, death, deathRow);
      KeptTwice(start, before, storage.nodes, keep);
    }

    /** A changed node becomes new, and the hash it had is mourned. */
    method ReplaceAt(stored: Stored, node: Node, ghost mem: LTree, ghost ln: LNode, ghost keep: set<nat>,
                     ghost death: set<H256>, ghost start: seq<Stored>)
      returns (slot: nat, ghost after: LTree)
      requires mem.Mem? && stored == StoredOf(h, mem.cached, mem.node) && Good(h, db.data, mem)
      requires node == NodeOf(h, ln) && AbsNode(ln) != Empty
      requires NodeOk(h, db.data, storage.nodes, storage.freeIndices, ln, keep) && Kept(start, storage.nodes, keep)
      requires Budget(PersNode(h, mem.node), death, PersNode(h, ln), deathRow)
      modifies storage, this`deathRow
      ensures EditedTree(h, db.data, start, storage.nodes, storage.freeIndices, mem, after, keep, death, deathRow)
      ensures HandleOf(h, after) == InMemory(slot) && Abs(after) == AbsNode(ln)
    {
      ghost var before, deathMid := storage.nodes, deathRow;
      if stored.Cached? {
        deathRow := deathRow + {stored.hash};
      }
      slot := storage.Alloc(New(node), SlotsNode(ln) + keep);
      after := Mem(slot, None, ln);
      ReplacedTree(h, db.data, before, storage.nodes, storage.freeIndices, mem, slot, ln, keep, death, deathMid);
      KeptTwice(start, before, storage.nodes, keep);
    }

    method InsertInspector(node: Node, partial: nibbles, value: bytes, ghost ln: LNode, ghost keep: set<nat>)
      returns (action: InsertAction, oldVal: Option<bytes>, ghost after: LNode)
      requires db.h == h && node == NodeOf(h, ln)
      requires NodeOk(h, db.data, storage.nodes, storage.freeIndices, ln, keep) && WellFormed(AbsNode(ln))
      modifies storage, this`deathRow
      ensures EditedNode(h, db.data, old(storage.nodes), storage.nodes, storage.freeIndices, ln, after, keep,
                         old(deathRow), deathRow)
      ensures action.node == NodeOf(h, after)
      ensures AbsNode(after) == Trie.Insert(AbsNode(ln), partial, value)
      ensures oldVal == Lookup(AbsNode(ln), partial)
      ensures action.Restore? == (oldVal == Some(value))
      ensures action.Restore? && CleanNode(h, ln) ==> CleanNode(h, after)
      decreases |partial|, if ln.LBranch? then 1 else 5
    {
      match node {
        case EmptyNode =>
          LeafOk(h, db.data, storage.nodes, storage.freeIndices, partial, value, keep);
          oldVal, after := None, LLeaf(partial, value);
          action := Replace(LeafNode(HexPrefix(partial, true), value));
        case BranchNode(handles, storedValue) =>
          action, oldVal, after := InsertIntoBranch(handles, storedValue, partial, value, ln.children, keep);
        case LeafNode(encoded, storedValue) =>
          action, oldVal, after := InsertIntoLeaf(encoded, storedValue, partial, value, ln.key, keep);
        case ExtensionNode(encoded, child) =>
          action, oldVal, after := InsertIntoExtension(encoded, child, partial, value, ln.key, ln.child, keep);
      }
    }

    method InsertIntoLeaf(encoded: bytes, storedValue: bytes, partial: nibbles, value: bytes, ghost key: nibbles,
                          ghost keep: set<nat>)
      returns (action: InsertAction, oldVal: Option<bytes>, ghost after: LNode)
      requires db.h == h && encoded == HexPrefix(key, true)
      requires NodeOk(h, db.data, storage.nodes, storage.freeIndices, LLeaf(key, storedValue), keep)
      modifies storage, this`deathRow
      ensures EditedNode(h, db.data, old(storage.nodes), storage.nodes, storage.freeIndices, LLeaf(key, storedValue),
                         after, keep, old(deathRow), deathRow)
      ensures action.node == NodeOf(h, after)
      ensures AbsNode(after) == Trie.Insert(Leaf(key, storedValue), partial, value)
      ensures oldVal == Lookup(Leaf(key, storedValue), partial)
      ensures action.Restore? == (oldVal == Some(value))
      ensures action.Restore? ==> CleanNode(h, after)
      decreases |partial|, 4
    {
      HexPrefixRoundTrip(key, true);
      var existing := FromHexPrefix(encoded).0;
      var cp := CommonPrefix(partial, existing);
      LeafLookupByPrefix(key, storedValue, partial);
      TidySame(storage.nodes, storage.freeIndices, SlotsNode(LLeaf(key, storedValue)) + keep, keep);
      if cp == |existing| && cp == |partial| {
        LeafOk(h, db.data, storage.nodes, storage.freeIndices, key, value, keep);
        oldVal, after := Some(storedValue), LLeaf(key, value);
        action := if storedValue == value then Restore(LeafNode(encoded, value)) else Replace(LeafNode(encoded, value));
      } else {
        oldVal := None;
        if cp == 0 {
          action, after := TransmuteLeaf(existing, storedValue, partial, value, keep);
        } else {
          action, after := SplitLeaf(existing, storedValue, partial, value, cp, keep);
        }
      }
    }

    /** No common start: the leaf becomes a branch, into which the insertion goes on. */
    method TransmuteLeaf(existing: nibbles, storedValue: bytes, partial: nibbles, value: bytes, ghost keep: set<nat>)
      returns (action: InsertAction, ghost after: LNode)
      requires db.h == h && Tidy(storage.nodes, storage.freeIndices, keep)
      requires CommonPrefix(partial, existing) == 0 && !(partial == [] && existing == [])
      modifies storage, this`deathRow
      ensures EditedNode(h, db.data, old(storage.nodes), storage.nodes, storage.freeIndices,
                         LLeaf(existing, storedValue), after, keep, old(deathRow), deathRow)
      ensures action == Replace(NodeOf(h, after))
      ensures AbsNode(after) == Trie.Insert(Leaf(existing, storedValue), partial, value)
      decreases |partial|, 3
    {
      if existing == [] {
        StubOk(h, db.data, storage.nodes, storage.freeIndices, Some(storedValue), keep);
        StubMeaning(h, Some(storedValue));
        var inner, ov;
        inner, ov, after := InsertInspector(BranchNode(NoHandles(), Some(storedValue)), partial, value,
                                            LBranch(NoLTrees(), Some(storedValue)), keep);
        action := Replace(inner.node);
      } else {
        ghost var start := storage.nodes;
        LeafOk(h, db.data, storage.nodes, storage.freeIndices, existing[1..], storedValue, keep);
        var slot := AllocNew(LeafNode(HexPrefix(existing[1..], true), storedValue),
                             LLeaf(existing[1..], storedValue), keep);
        ghost var mid := storage.nodes;
        action, after := InsertBeside(existing[0], InMemory(slot), partial, value,
                                      Mem(slot, None, LLeaf(existing[1..], storedValue)), keep);
        KeptTwice(start, mid, storage.nodes, keep);
      }
    }

    /** Goes on inserting into a branch whose only entry so far is one child. */
    method InsertBeside(idx: nibble, child: NodeHandle, partial: nibbles, value: bytes, ghost lt: LTree,
                        ghost keep: set<nat>)
      returns (action: InsertAction, ghost after: LNode)
      requires db.h == h && child == HandleOf(h, lt) && WellFormed(Branch(NO_CHILDREN[idx as int := Abs(lt)], None))
      requires TreeOk(h, db.data, storage.nodes, storage.freeIndices, lt, keep) && GoodChild(h, db.data, lt)
      modifies storage, this`deathRow
      ensures NodeOk(h, db.data, storage.nodes, storage.freeIndices, after, keep) &&
        Kept(old(storage.nodes), storage.nodes, keep)
      ensures Budget(Pers(h, lt), old(deathRow), PersNode(h, after), deathRow)
      ensures action == Replace(NodeOf(h, after))
      ensures AbsNode(after) == Trie.Insert(Branch(NO_CHILDREN[idx as int := Abs(lt)], None), partial, value)
      decreases |partial|, 2, 0
    {
      SingleChildOk(h, db.data, storage.nodes, storage.freeIndices, idx, lt, keep);
      SingleChildMeaning(h, idx, lt);
      var inner, ov;
      inner, ov, after := InsertInspector(BranchNode(NoHandles()[idx as int := Some(child)], None), partial, value,
                                          LBranch(NoLTrees()[idx as int := Some(lt)], None), keep);
      action := Replace(inner.node);
    }

    /** A common start: an extension over the branch of what differs. */
    method SplitLeaf(existing: nibbles, storedValue: bytes, partial: nibbles, value: bytes, cp: nat,
                     ghost keep: set<nat>)
      returns (action: InsertAction, ghost after: LNode)
      requires db.h == h && Tidy(storage.nodes, storage.freeIndices, keep)
      requires cp == CommonPrefix(partial, existing) > 0 && !(cp == |existing| && cp == |partial|)
      modifies storage, this`deathRow
      ensures EditedNode(h, db.data, old(storage.nodes), storage.nodes, storage.freeIndices,
                         LLeaf(existing, storedValue), after, keep, old(deathRow), deathRow)
      ensures action == Replace(NodeOf(h, after))
      ensures AbsNode(after) == Trie.Insert(Leaf(existing, storedValue), partial, value)
      decreases |partial|, 3
    {
      ghost var start := storage.nodes;
      var low;
      ghost var ln;
      if cp == |existing| {
        StubOk(h, db.data, storage.nodes, storage.freeIndices, Some(storedValue), keep);
        StubMeaning(h, Some(storedValue));
        low, ln := BranchNode(NoHandles(), Some(storedValue)), LBranch(NoLTrees(), Some(storedValue));
        TakeAll(existing);
      } else {
        LeafOk(h, db.data, storage.nodes, storage.freeIndices, existing[cp..], storedValue, keep);
        low, ln := LeafNode(HexPrefix(existing[cp..], true), storedValue), LLeaf(existing[cp..], storedValue);
      }
      InsertNotEmpty(AbsNode(ln), partial[cp..], value);
      var inner, ov, lower := InsertInspector(low, partial[cp..], value, ln, keep);
      ghost var mid := storage.nodes;
      action, after := ExtendOver(existing[..cp], inner.node, lower, keep);
      KeptTwice(start, mid, storage.nodes, keep);
    }

    method ExtendOver(key: nibbles, node: Node, ghost ln: LNode, ghost keep: set<nat>)
      returns (action: InsertAction, ghost after: LNode)
      requires node == NodeOf(h, ln) && NodeOk(h, db.data, storage.nodes, storage.freeIndices, ln, keep)
      requires AbsNode(ln) != Empty
      modifies storage
      ensures NodeOk(h, db.data, storage.nodes, storage.freeIndices, after, keep) &&
        Kept(old(storage.nodes), storage.nodes, keep)
      ensures action == Replace(NodeOf(h, after)) && AbsNode(after) == Extension(key, AbsNode(ln))
      ensures PersNode(h, after) == PersNode(h, ln)
    {
      var slot := AllocNew(node, ln, keep);
      ghost var lt := Mem(slot, None, ln);
      ExtensionOk(h, db.data, storage.nodes, storage.freeIndices, key, lt, keep);
      after := LExtension(key, lt);
      action := Replace(ExtensionNode(HexPrefix(key, false), InMemory(slot)));
    }

    method InsertIntoExtension(encoded: bytes, child: NodeHandle, partial: nibbles, value: bytes,
                               ghost key: nibbles, ghost lt: LTree, ghost keep: set<nat>)
      returns (action: InsertAction, oldVal: Option<bytes>, ghost after: LNode)
      requires db.h == h && encoded == HexPrefix(key, false) && child == HandleOf(h, lt)
      requires NodeOk(h, db.data, storage.nodes, storage.freeIndices, LExtension(key, lt), keep)
      requires WellFormed(Extension(key, Abs(lt)))
      modifies storage, this`deathRow
      ensures EditedNode(h, db.data, old(storage.nodes), storage.nodes, storage.freeIndices, LExtension(key, lt), after,
                         keep, old(deathRow), deathRow)
      ensures action.node == NodeOf(h, after)
      ensures AbsNode(after) == Trie.Insert(Extension(key, Abs(lt)), partial, value)
      ensures oldVal == Lookup(Extension(key, Abs(lt)), partial)
      ensures action.Restore? == (oldVal == Some(value))
      ensures action.Restore? && Clean(h, lt) ==> CleanNode(h, after)
      decreases |partial|, 4
    {
      HexPrefixRoundTrip(key, false);
      var existing := FromHexPrefix(encoded).0;
      var cp := CommonPrefix(partial, existing);
      ExtensionLookupByPrefix(key, Abs(lt), partial);
      ExtensionParts(h, db.data, storage.nodes, storage.freeIndices, key, lt, keep);
      if cp == |existing| {
        action, oldVal, after := InsertBelow(encoded, child, partial[cp..], value, key, lt, keep);
      } else {
        oldVal := None;
        if cp == 0 {
          action, after := TransmuteExtension(existing, child, partial, value, lt, keep);
        } else {
          action, after := SplitExtension(existing, child, partial, value, cp, lt, keep);
        }
      }
    }

    /** The whole extension key matches: go on in the child. */
    method InsertBelow(encoded: bytes, child: NodeHandle, rest: nibbles, value: bytes,
                       ghost key: nibbles, ghost lt: LTree, ghost keep: set<nat>)
      returns (action: InsertAction, oldVal: Option<bytes>, ghost after: LNode)
      requires db.h == h && encoded == HexPrefix(key, false) && child == HandleOf(h, lt)
      requires TreeOk(h, db.data, storage.nodes, storage.freeIndices, lt, keep) && GoodChild(h, db.data, lt)
      requires WellFormed(Abs(lt))
      modifies storage, this`deathRow
      ensures EditedNode(h, db.data, old(storage.nodes), storage.nodes, storage.freeIndices, LExtension(key, lt), after,
                         keep, old(deathRow), deathRow)
      ensures action.node == NodeOf(h, after)
      ensures AbsNode(after) == Extension(key, Trie.Insert(Abs(lt), rest, value))
      ensures oldVal == Lookup(Abs(lt), rest)
      ensures action.Restore? == (oldVal == Some(value))
      ensures action.Restore? && Clean(h, lt) ==> CleanNode(h, after)
      decreases |rest|, 7
    {
      var slot, changed, ov, below := InsertAt(child, rest, value, lt, keep);
      ReplacedIsGoodChild(h, db.data, lt, below);
      ExtensionOk(h, db.data, storage.nodes, storage.freeIndices, key, below, keep);
      oldVal, after := ov, LExtension(key, below);
      var node := ExtensionNode(encoded, InMemory(slot));
      action := if changed then Replace(node) else Restore(node);
    }

    method TransmuteExtension(existing: nibbles, child: NodeHandle, partial: nibbles, value: bytes, ghost lt: LTree,
                              ghost keep: set<nat>)
      returns (action: InsertAction, ghost after: LNode)
      requires db.h == h && child == HandleOf(h, lt)
      requires TreeOk(h, db.data, storage.nodes, storage.freeIndices, lt, keep) && GoodChild(h, db.data, lt)
      requires existing != [] && WellFormed(Abs(lt)) && CommonPrefix(partial, existing) == 0
      modifies storage, this`deathRow
      ensures EditedNode(h, db.data, old(storage.nodes), storage.nodes, storage.freeIndices,
                         LExtension(existing, lt), after, keep, old(deathRow), deathRow)
      ensures action == Replace(NodeOf(h, after))
      ensures AbsNode(after) == Trie.Insert(Extension(existing, Abs(lt)), partial, value)
      decreases |partial|, 3
    {
      TransmutedExtension(existing, Abs(lt), partial, value);
      if |existing| == 1 {
        action, after := InsertBeside(existing[0], child, partial, value, lt, keep);
      } else {
        action, after := InsertBesideRest(existing, child, partial, value, lt, keep);
      }
    }

    /** What follows the first nibble of the key becomes an extension of its own. */
    method InsertBesideRest(existing: nibbles, child: NodeHandle, partial: nibbles, value: bytes, ghost lt: LTree,
                            ghost keep: set<nat>)
      returns (action: InsertAction, ghost after: LNode)
      requires db.h == h && child == HandleOf(h, lt) && |existing| > 1
      requires TreeOk(h, db.data, storage.nodes, storage.freeIndices, lt, keep) && GoodChild(h, db.data, lt)
      requires WellFormed(Branch(NO_CHILDREN[existing[0] as int := Shortened(existing, Abs(lt))], None))
      modifies storage, this`deathRow
      ensures EditedNode(h, db.data, old(storage.nodes), storage.nodes, storage.freeIndices,
                         LExtension(existing, lt), after, keep, old(deathRow), deathRow)
      ensures action == Replace(NodeOf(h, after))
      ensures AbsNode(after) ==
        Trie.Insert(Branch(NO_CHILDREN[existing[0] as int := Shortened(existing, Abs(lt))], None), partial, value)
      decreases |partial|, 2, 1
    {
      ghost var start, ln := storage.nodes, LExtension(existing[1..], lt);
      ExtensionOk(h, db.data, storage.nodes, storage.freeIndices, existing[1..], lt, keep);
      var slot := AllocNew(ExtensionNode(HexPrefix(existing[1..], false), child), ln, keep);
      ghost var mid := storage.nodes;
      action, after := InsertBeside(existing[0], InMemory(slot), partial, value, Mem(slot, None, ln), keep);
      KeptTwice(start, mid, storage.nodes, keep);
    }

    method SplitExtension(existing: nibbles, child: NodeHandle, partial: nibbles, value: bytes, cp: nat,
                          ghost lt: LTree, ghost keep: set<nat>)
      returns (action: InsertAction, ghost after: LNode)
      requires db.h == h && child == HandleOf(h, lt)
      requires TreeOk(h, db.data, storage.nodes, storage.freeIndices, lt, keep) && GoodChild(h, db.data, lt)
      requires WellFormed(Abs(lt)) && 0 < cp == CommonPrefix(partial, existing) < |existing|
      modifies storage, this`deathRow
      ensures EditedNode(h, db.data, old(storage.nodes), storage.nodes, storage.freeIndices,
                         LExtension(existing, lt), after, keep, old(deathRow), deathRow)
      ensures action == Replace(NodeOf(h, after))
      ensures AbsNode(after) == Trie.Insert(Extension(existing, Abs(lt)), partial, value)
      decreases |partial|, 3
    {
      ghost var start := storage.nodes;
      ghost var ln := LExtension(existing[cp..], lt);
      ExtensionOk(h, db.data, storage.nodes, storage.freeIndices, existing[cp..], lt, keep);
      InsertNotEmpty(AbsNode(ln), partial[cp..], value);
      var inner, ov, lower := InsertInspector(ExtensionNode(HexPrefix(existing[cp..], false), child), partial[cp..],
                                              value, ln, keep);
      ghost var mid := storage.nodes;
      action, after := ExtendOver(existing[..cp], inner.node, lower, keep);
      KeptTwice(start, mid, storage.nodes, keep);
    }

    // ---- removal ----

    /** Brings a branch that lost an entry, or an extension over a changed child, into shape. */
    method FixBranchNode(handles: seq<Option<NodeHandle>>, value: Option<bytes>, ghost children: seq<Option<LTree>>,
                         ghost keep: set<nat>)
      returns (fixed: Node, ghost after: LNode)
      requires db.h == h && handles == HandlesOf(h, children)
      requires NodeOk(h, db.data, storage.nodes, storage.freeIndices, LBranch(children, value), keep)
      requires forall i :: 0 <= i < 16 ==> Canonical(AbsOption(children[i]))
      requires value.Some? || OneChild(AbsChildren(children))
      modifies storage, this`deathRow
      ensures EditedNode(h, db.data, old(storage.nodes), storage.nodes, storage.freeIndices,
                         LBranch(children, value), after, keep, old(deathRow), deathRow)
      ensures fixed == NodeOf(h, after) && AbsNode(after) == FixBranch(AbsChildren(children), value)
    {
      var usedIndex := ScanUsed(handles, children);
      UsedBound(AbsChildren(children), 16);
      if usedIndex.One? && value.None? {
        var a := usedIndex.index;
        TakeChild(h, db.data, storage.nodes, storage.freeIndices, children, value, a, keep);
        ghost var lt := children[a].value;
        TreeOkLess(h, db.data, storage.nodes, storage.freeIndices, lt, Others(children, a, keep), keep);
        ExtensionOk(h, db.data, storage.nodes, storage.freeIndices, [a], lt, keep);
        OnlyChildLeft(h, db.data, children, value, a);
        fixed, after := FixExtensionNode(HexPrefix([a], false), handles[a].value, [a], lt, keep);
      } else if usedIndex.NoneUsed? && value.Some? {
        TidySame(storage.nodes, storage.freeIndices, SlotsNode(LBranch(children, value)) + keep, keep);
        LeafOk(h, db.data, storage.nodes, storage.freeIndices, [], value.value, keep);
        NoChildLeft(h, db.data, children, value);
        fixed, after := LeafNode(HexPrefix([], true), value.value), LLeaf([], value.value);
      } else {
        fixed, after := BranchNode(handles, value), LBranch(children, value);
      }
    }

    /** Whether none, one or more of the children are there. */
    method ScanUsed(handles: seq<Option<NodeHandle>>, ghost children: seq<Option<LTree>>) returns (usedIndex: UsedIndex)
      requires handles == HandlesOf(h, children) && |children| == 16 && GoodNode(h, db.data, LBranch(children, None))
      ensures usedIndex == Used(AbsChildren(children), 16)
    {
      usedIndex := NoneUsed;
      var i := 0;
      while i < 16
        invariant 0 <= i <= 16 && usedIndex == Used(AbsChildren(children), i)
      {
        assert children[i].Some? ==> GoodChild(h, db.data, children[i].value);
        if handles[i].Some? {
          if usedIndex.NoneUsed? {
            usedIndex := One(i);
          } else {
            usedIndex := Many;
            UsedManyStays(AbsChildren(children), i + 1, 16);
            break;
          }
        }
        i := i + 1;
      }
    }

    method FixExtensionNode(encoded: bytes, child: NodeHandle, ghost key: nibbles, ghost lt: LTree,
                            ghost keep: set<nat>)
      returns (fixed: Node, ghost after: LNode)
      requires db.h == h && encoded == HexPrefix(key, false) && child == HandleOf(h, lt)
      requires NodeOk(h, db.data, storage.nodes, storage.freeIndices, LExtension(key, lt), keep) && Canonical(Abs(lt))
      modifies storage, this`deathRow
      ensures EditedNode(h, db.data, old(storage.nodes), storage.nodes, storage.freeIndices, LExtension(key, lt), after,
                         keep, old(deathRow), deathRow)
      ensures fixed == NodeOf(h, after) && AbsNode(after) == FixExtension(key, Abs(lt))
      decreases Abs(lt), 0
    {
      ghost var start := storage.nodes;
      ghost var death := deathRow;
      ExtensionParts(h, db.data, storage.nodes, storage.freeIndices, key, lt, keep);
      var stored, mem := TakeOut(child, lt, keep);
      ghost var taken := storage.nodes;
      var node := stored.node;
      KindOfNode(h, mem);
      if node.ExtensionNode? {
        Mourn(stored);
        ghost var deathMid, mid := deathRow, storage.nodes;
        fixed, after := FixThrough(encoded, node.key, node.child, key, mem.node.key, mem.node.child, keep);
        FixedBelow(h, db.data, start, mid, storage.nodes, storage.freeIndices, key, lt, mem, after, keep, death,
                   deathMid, deathRow);
      } else if node.LeafNode? {
        Mourn(stored);
        fixed, after := FixOntoLeaf(encoded, node.key, node.leafValue, key, mem.node.key, keep);
        LeafBudget(h, mem.node, after, deathRow);
        FixedBelow(h, db.data, start, storage.nodes, storage.nodes, storage.freeIndices, key, lt, mem, after, keep,
                   death, deathRow, deathRow);
      } else {
        fixed, after := PutUnder(encoded, stored, key, lt, mem, keep, start);
      }
    }

    /** A stored node's hash goes to the death row. */
    method Mourn(stored: Stored)
      modifies this`deathRow
      ensures deathRow == old(deathRow) + if stored.Cached? then {stored.hash} else {}
    {
      if stored.Cached? {
        deathRow := deathRow + {stored.hash};
      }
    }

    /** An extension over a leaf becomes a longer leaf. */
    method FixOntoLeaf(encoded: bytes, subEncoded: bytes, value: bytes, ghost key: nibbles, ghost subKey: nibbles,
                       ghost keep: set<nat>)
      returns (fixed: Node, ghost after: LNode)
      requires encoded == HexPrefix(key, false) && subEncoded == HexPrefix(subKey, true)
      requires NodeOk(h, db.data, storage.nodes, storage.freeIndices, LLeaf(subKey, value), keep)
      ensures after == LLeaf(key + subKey, value) && fixed == LeafNode(HexPrefix(key + subKey, true), value)
      ensures NodeOk(h, db.data, storage.nodes, storage.freeIndices, after, keep)
    {
      HexPrefixRoundTrip(key, false);
      HexPrefixRoundTrip(subKey, true);
      var whole := FromHexPrefix(encoded).0 + FromHexPrefix(subEncoded).0;
      TidySame(storage.nodes, storage.freeIndices, SlotsNode(LLeaf(subKey, value)) + keep, keep);
      LeafOk(h, db.data, storage.nodes, storage.freeIndices, whole, value, keep);
      fixed, after := LeafNode(HexPrefix(whole, true), value), LLeaf(whole, value);
    }

    /** Two extensions in a row become one, which is fixed in turn. */
    method FixThrough(encoded: bytes, subEncoded: bytes, subChild: NodeHandle, ghost key: nibbles,
                      ghost subKey: nibbles, ghost sub: LTree, ghost keep: set<nat>)
      returns (fixed: Node, ghost after: LNode)
      requires db.h == h && encoded == HexPrefix(key, false) && subEncoded == HexPrefix(subKey, false)
      requires subChild == HandleOf(h, sub) && Canonical(Abs(sub))
      requires NodeOk(h, db.data, storage.nodes, storage.freeIndices, LExtension(subKey, sub), keep)
      modifies storage, this`deathRow
      ensures EditedNode(h, db.data, old(storage.nodes), storage.nodes, storage.freeIndices, LExtension(subKey, sub),
                         after, keep, old(deathRow), deathRow)
      ensures fixed == NodeOf(h, after) && AbsNode(after) == FixExtension(key + subKey, Abs(sub))
      decreases Abs(sub), 1
    {
      HexPrefixRoundTrip(key, false);
      HexPrefixRoundTrip(subKey, false);
      var whole := FromHexPrefix(encoded).0 + FromHexPrefix(subEncoded).0;
      ExtensionParts(h, db.data, storage.nodes, storage.freeIndices, subKey, sub, keep);
      ExtensionOk(h, db.data, storage.nodes, storage.freeIndices, whole, sub, keep);
      fixed, after := FixExtensionNode(HexPrefix(whole, false), subChild, whole, sub, keep);
    }

    /** Puts the child node back as it was and the extension over it. */
    method PutUnder(encoded: bytes, stored: Stored, ghost key: nibbles, ghost lt: LTree, ghost mem: LTree,
                    ghost keep: set<nat>, ghost start: seq<Stored>)
      returns (fixed: Node, ghost after: LNode)
      requires encoded == HexPrefix(key, false) && mem.Mem? && stored == StoredOf(h, mem.cached, mem.node)
      requires NodeOk(h, db.data, storage.nodes, storage.freeIndices, mem.node, keep) &&
        Kept(start, storage.nodes, keep)
      requires Good(h, db.data, mem) && GoodChild(h, db.data, lt)
      requires Abs(mem) == Abs(lt) && Pers(h, mem) == Pers(h, lt) && Persisted(mem) == Persisted(lt)
      modifies storage
      ensures EditedNode(h, db.data, start, storage.nodes, storage.freeIndices, LExtension(key, lt), after, keep,
                         deathRow, deathRow)
      ensures fixed == NodeOf(h, after) && AbsNode(after) == Extension(key, Abs(lt))
    {
      var slot, back := Reslot(stored, mem, keep, start);
      PutBackUnder(h, db.data, start, storage.nodes, storage.freeIndices, key, lt, mem, back, keep, deathRow);
      fixed, after := ExtensionNode(encoded, InMemory(slot)), LExtension(key, back);
    }

    /** A node that was only looked at goes into a slot as it is. */
    method Reslot(stored: Stored, ghost mem: LTree, ghost keep: set<nat>, ghost start: seq<Stored>)
      returns (slot: nat, ghost back: LTree)
      requires mem.Mem? && stored == StoredOf(h, mem.cached, mem.node) && Good(h, db.data, mem) && Abs(mem) != Empty
      requires NodeOk(h, db.data, storage.nodes, storage.freeIndices, mem.node, keep) &&
        Kept(start, storage.nodes, keep)
      modifies storage
      ensures TreeOk(h, db.data, storage.nodes, storage.freeIndices, back, keep) && Kept(start, storage.nodes, keep)
      ensures Budget(Pers(h, mem), deathRow, Pers(h, back), deathRow) && Replaces(mem, back)
      ensures Abs(back) == Abs(mem) && HandleOf(h, back) == InMemory(slot)
    {
      ghost var before := storage.nodes;
      slot := storage.Alloc(stored, SlotsNode(mem.node) + keep);
      back := Mem(slot, mem.cached, mem.node);
      RestoredTree(h, db.data, before, storage.nodes, storage.freeIndices, mem, slot, mem.node, keep, deathRow,
                   deathRow);
      KeptTwice(start, before, storage.nodes, keep);
    }

    method RemoveAt(handle: NodeHandle, partial: nibbles, ghost lt: LTree, ghost keep: set<nat>)
      returns (left: Option<(nat, bool)>, oldVal: Option<bytes>, ghost after: LTree)
      requires db.h == h && handle == HandleOf(h, lt)
      requires TreeOk(h, db.data, storage.nodes, storage.freeIndices, lt, keep)
      requires Canonical(Abs(lt)) && WellFormed(Abs(lt))
      modifies storage, this`deathRow
      ensures left.None? <==> Trie.Remove(Abs(lt), partial) == Empty
      ensures left.None? ==> RemovedTree(h, old(storage.nodes), storage.nodes, storage.freeIndices, lt, keep,
                                         old(deathRow), deathRow)
      ensures left.Some? ==>
        EditedTree(h, db.data, old(storage.nodes), storage.nodes, storage.freeIndices, lt, after, keep,
                   old(deathRow), deathRow)
      ensures left.Some? ==> HandleOf(h, after) == InMemory(left.value.0) && Abs(after) == Trie.Remove(Abs(lt), partial)
      ensures left.Some? ==> left.value.1 == oldVal.Some? && (oldVal.None? && Clean(h, lt) ==> Clean(h, after))
      ensures oldVal == Lookup(Abs(lt), partial)
      decreases |partial|, 3
    {
      ghost var death := deathRow;
      ghost var start := storage.nodes;
      var stored, mem := TakeOut(handle, lt, keep);
      ghost var taken := storage.nodes;
      var action, ov, ln := RemoveInspector(stored.node, partial, mem.node, keep);
      KeptTwice(start, taken, storage.nodes, keep);
      oldVal := ov;
      if action.Delete? {
        Bury(stored, mem, keep, death, start);
        left, after := None, lt;
      } else {
        left, after := KeepLeft(stored, action, partial, oldVal, lt, mem, ln, keep, death, start);
      }
    }

    /** What is left goes back into a slot. */
    method KeepLeft(stored: Stored, action: Action, ghost partial: nibbles, ghost oldVal: Option<bytes>,
                    ghost lt: LTree, ghost mem: LTree, ghost ln: LNode, ghost keep: set<nat>, ghost death: set<H256>,
                    ghost start: seq<Stored>)
      returns (left: Option<(nat, bool)>, ghost after: LTree)
      requires mem.Mem? && stored == StoredOf(h, mem.cached, mem.node) && Good(h, db.data, mem)
      requires Abs(mem) == Abs(lt) && Pers(h, mem) == Pers(h, lt)
      requires Persisted(mem) == Persisted(lt) && (Clean(h, lt) ==> Clean(h, mem))
      requires !action.Delete? && action.node == NodeOf(h, ln)
      requires NodeOk(h, db.data, storage.nodes, storage.freeIndices, ln, keep) && Kept(start, storage.nodes, keep)
      requires Budget(PersNode(h, mem.node), death, PersNode(h, ln), deathRow)
      requires Canonical(Abs(lt)) && WellFormed(Abs(lt)) && oldVal == Lookup(Abs(lt), partial)
      requires AbsNode(ln) == Trie.Remove(Abs(lt), partial) && AbsNode(ln) != Empty
      requires action.Keep? == oldVal.None? && (action.Keep? && CleanNode(h, mem.node) ==> CleanNode(h, ln))
      modifies storage, this`deathRow
      ensures left.Some? && left.value.1 == oldVal.Some?
      ensures EditedTree(h, db.data, start, storage.nodes, storage.freeIndices, lt, after, keep, death, deathRow)
      ensures HandleOf(h, after) == InMemory(left.value.0) && Abs(after) == AbsNode(ln)
      ensures oldVal.None? && Clean(h, lt) ==> Clean(h, after)
    {
      RemoveChanged(Abs(lt), partial);
      var slot;
      slot, after := PutBack(stored, action.node, action.Keep?, mem, ln, keep, death, start);
      left := Some((slot, action.ReplaceBy?));
      EditedFor(h, db.data, start, storage.nodes, storage.freeIndices, lt, mem, after, keep, death, deathRow);
    }

    /** A deleted node's hash, if it had one, goes to the death row. */
    method Bury(stored: Stored, ghost mem: LTree, ghost keep: set<nat>, ghost death: set<H256>,
                ghost start: seq<Stored>)
      requires mem.Mem? && stored == StoredOf(h, mem.cached, mem.node)
      requires RemovedNode(h, start, storage.nodes, storage.freeIndices, mem.node, keep, death, deathRow)
      modifies this`deathRow
      ensures RemovedTree(h, start, storage.nodes, storage.freeIndices, mem, keep, death, deathRow)
    {
      RemovedBudget(h, mem, death, deathRow);
      if stored.Cached? {
        deathRow := deathRow + {stored.hash};
      } else {
        assert deathRow + {} == deathRow;
      }
    }

    method RemoveInspector(node: Node, partial: nibbles, ghost ln: LNode, ghost keep: set<nat>)
      returns (action: Action, oldVal: Option<bytes>, ghost after: LNode)
      requires db.h == h && node == NodeOf(h, ln)
      requires NodeOk(h, db.data, storage.nodes, storage.freeIndices, ln, keep)
      requires Canonical(AbsNode(ln)) && WellFormed(AbsNode(ln))
      modifies storage, this`deathRow
      ensures action.Delete? <==> Trie.Remove(AbsNode(ln), partial) == Empty
      ensures action.Delete? ==>
        RemovedNode(h, old(storage.nodes), storage.nodes, storage.freeIndices, ln, keep, old(deathRow), deathRow)
      ensures !action.Delete? ==>
        EditedNode(h, db.data, old(storage.nodes), storage.nodes, storage.freeIndices, ln, after, keep,
                   old(deathRow), deathRow)
      ensures !action.Delete? ==> action.node == NodeOf(h, after) && AbsNode(after) == Trie.Remove(AbsNode(ln), partial)
      ensures !action.Delete? ==>
        action.Keep? == oldVal.None? && (action.Keep? && CleanNode(h, ln) ==> CleanNode(h, after))
      ensures oldVal == Lookup(AbsNode(ln), partial)
      decreases |partial|, 2
    {
      match node {
        case EmptyNode =>
          action, oldVal, after := Delete, None, ln;
          NodeGone(h, storage.nodes, storage.freeIndices, ln, keep, deathRow);
        case LeafNode(encoded, value) =>
          HexPrefixRoundTrip(ln.key, true);
          if FromHexPrefix(encoded).0 == partial {
            action, oldVal, after := Delete, Some(value), ln;
            NodeGone(h, storage.nodes, storage.freeIndices, ln, keep, deathRow);
          } else {
            action, oldVal, after := Keep(node), None, ln;
          }
        case BranchNode(handles, value) =>
          RemoveCanonical(AbsNode(ln), partial);
          action, oldVal, after := RemoveFromBranch(handles, value, partial, ln.children, keep);
        case ExtensionNode(encoded, child) =>
          action, oldVal, after := RemoveFromExtension(encoded, child, partial, ln.key, ln.child, keep);
      }
    }

    method RemoveFromBranch(handles: seq<Option<NodeHandle>>, value: Option<bytes>, partial: nibbles,
                            ghost children: seq<Option<LTree>>, ghost keep: set<nat>)
      returns (action: Action, oldVal: Option<bytes>, ghost after: LNode)
      requires db.h == h && handles == HandlesOf(h, children)
      requires NodeOk(h, db.data, storage.nodes, storage.freeIndices, LBranch(children, value), keep)
      requires Canonical(AbsNode(LBranch(children, value))) && WellFormed(AbsNode(LBranch(children, value)))
      modifies storage, this`deathRow
      ensures !action.Delete?
      ensures EditedNode(h, db.data, old(storage.nodes), storage.nodes, storage.freeIndices,
                         LBranch(children, value), after, keep, old(deathRow), deathRow)
      ensures action.node == NodeOf(h, after)
      ensures AbsNode(after) == Trie.Remove(AbsNode(LBranch(children, value)), partial)
      ensures action.Keep? == oldVal.None?
      ensures action.Keep? && CleanNode(h, LBranch(children, value)) ==> CleanNode(h, after)
      ensures oldVal == Lookup(AbsNode(LBranch(children, value)), partial)
      decreases |partial|, 1
    {
      ghost var t := AbsNode(LBranch(children, value));
      if partial == [] {
        oldVal := value;
        if value.None? {
          action, after := Keep(BranchNode(handles, None)), LBranch(children, None);
        } else {
          EntryLeft(t, 0);
          var fixed;
          fixed, after := FixBranchNode(handles, None, children, keep);
          action := ReplaceBy(fixed);
        }
        return;
      }
      var idx := partial[0];
      assert children[idx].Some? ==> GoodChild(h, db.data, children[idx].value);
      if handles[idx].None? {
        action, oldVal, after := Keep(BranchNode(handles, value)), None, LBranch(children, value);
      } else {
        action, oldVal, after := RemoveBehind(handles, value, idx, partial[1..], children, keep);
      }
    }

    method RemoveBehind(handles: seq<Option<NodeHandle>>, value: Option<bytes>, idx: nibble, rest: nibbles,
                        ghost children: seq<Option<LTree>>, ghost keep: set<nat>)
      returns (action: Action, oldVal: Option<bytes>, ghost after: LNode)
      requires db.h == h && handles == HandlesOf(h, children)
      requires NodeOk(h, db.data, storage.nodes, storage.freeIndices, LBranch(children, value), keep)
      requires Canonical(AbsNode(LBranch(children, value))) && WellFormed(AbsNode(LBranch(children, value)))
      requires children[idx].Some?
      modifies storage, this`deathRow
      ensures !action.Delete?
      ensures EditedNode(h, db.data, old(storage.nodes), storage.nodes, storage.freeIndices,
                         LBranch(children, value), after, keep, old(deathRow), deathRow)
      ensures action.node == NodeOf(h, after)
      ensures var r := Trie.Remove(Abs(children[idx].value), rest);
        AbsNode(after) == if r == Empty then FixBranch(AbsChildren(children)[idx as int := Empty], value)
                          else Branch(AbsChildren(children)[idx as int := r], value)
      ensures action.Keep? == oldVal.None?
      ensures action.Keep? && CleanNode(h, LBranch(children, value)) ==> CleanNode(h, after)
      ensures oldVal == Lookup(Abs(children[idx].value), rest)
      decreases |rest|, 4
    {
      ghost var start := storage.nodes;
      ghost var death := deathRow;
      TakeChild(h, db.data, storage.nodes, storage.freeIndices, children, value, idx, keep);
      assert AbsChildren(children)[idx] == Abs(children[idx].value);
      ghost var lt;
      var left;
      left, oldVal, lt := RemoveAt(handles[idx].value, rest, children[idx].value, Others(children, idx, keep));
      if left.Some? {
        ChildReplaced(h, db.data, start, storage.nodes, storage.freeIndices, children, value, idx, lt, keep, death,
                      deathRow);
        AbsUpdate(children, idx, lt);
        HandlesUpdate(h, children, idx, lt);
        after := LBranch(children[idx as int := Some(lt)], value);
        var node := BranchNode(handles[idx as int := Some(InMemory(left.value.0))], value);
        action := if left.value.1 then ReplaceBy(node) else Keep(node);
      } else {
        RemoveChanged(Abs(children[idx].value), rest);
        action, after := FixWithout(handles, value, idx, children, keep, start, death);
      }
    }

    /** The child was deleted: the branch may need fixing. */
    method FixWithout(handles: seq<Option<NodeHandle>>, value: Option<bytes>, idx: nibble,
                      ghost children: seq<Option<LTree>>, ghost keep: set<nat>, ghost start: seq<Stored>,
                      ghost death: set<H256>)
      returns (action: Action, ghost after: LNode)
      requires db.h == h && handles == HandlesOf(h, children) && Canonical(AbsNode(LBranch(children, value)))
      requires NodeOkButFree(h, db.data, start, LBranch(children, value), keep) && children[idx].Some?
      requires RemovedTree(h, start, storage.nodes, storage.freeIndices, children[idx].value,
                           Others(children, idx, keep), death, deathRow)
      modifies storage, this`deathRow
      ensures EditedNode(h, db.data, start, storage.nodes, storage.freeIndices, LBranch(children, value), after,
                         keep, death, deathRow)
      ensures action == ReplaceBy(NodeOf(h, after))
      ensures AbsNode(after) == FixBranch(AbsChildren(children)[idx as int := Empty], value)
    {
      ghost var rest := children[idx as int := None];
      ChildRemoved(h, db.data, start, storage.nodes, storage.freeIndices, children, value, idx, keep, death, deathRow);
      DroppedMeaning(h, children, idx);
      EntryLeft(AbsNode(LBranch(children, value)), idx);
      forall i | 0 <= i < 16 ensures Canonical(AbsOption(rest[i])) {
        assert Canonical(AbsChildren(children)[i]);
      }
      ghost var mid, deathMid := storage.nodes, deathRow;
      var fixed;
      fixed, after := FixBranchNode(handles[idx as int := None], value, rest, keep);
      BudgetSteps(PersAll(h, children), death, PersAll(h, rest), deathMid, PersNode(h, after), deathRow);
      KeptTwice(start, mid, storage.nodes, keep);
      action := ReplaceBy(fixed);
    }

    method RemoveFromExtension(encoded: bytes, child: NodeHandle, partial: nibbles, ghost key: nibbles,
                               ghost lt: LTree, ghost keep: set<nat>)
      returns (action: Action, oldVal: Option<bytes>, ghost after: LNode)
      requires db.h == h && encoded == HexPrefix(key, false) && child == HandleOf(h, lt)
      requires NodeOk(h, db.data, storage.nodes, storage.freeIndices, LExtension(key, lt), keep)
      requires Canonical(Extension(key, Abs(lt))) && WellFormed(Extension(key, Abs(lt)))
      modifies storage, this`deathRow
      ensures action.Delete? <==> Trie.Remove(Extension(key, Abs(lt)), partial) == Empty
      ensures action.Delete? ==>
        RemovedNode(h, old(storage.nodes), storage.nodes, storage.freeIndices, LExtension(key, lt), keep,
                    old(deathRow), deathRow)
      ensures !action.Delete? ==>
        EditedNode(h, db.data, old(storage.nodes), storage.nodes, storage.freeIndices, LExtension(key, lt), after,
                   keep, old(deathRow), deathRow)
      ensures !action.Delete? ==>
        action.node == NodeOf(h, after) && AbsNode(after) == Trie.Remove(Extension(key, Abs(lt)), partial)
      ensures !action.Delete? ==> action.Keep? == oldVal.None? && (action.Keep? && Clean(h, lt) ==> CleanNode(h, after))
      ensures oldVal == Lookup(Extension(key, Abs(lt)), partial)
      decreases |partial|, 1
    {
      HexPrefixRoundTrip(key, false);
      var existing := FromHexPrefix(encoded).0;
      var cp := CommonPrefix(existing, partial);
      RemoveThroughExtension(key, Abs(lt), partial);
      if cp == |existing| {
        action, oldVal, after := RemoveBelow(encoded, child, partial[cp..], key, lt, keep);
      } else {
        action, oldVal, after := Keep(ExtensionNode(encoded, child)), None, LExtension(key, lt);
      }
    }

    /** The whole extension key matches: remove from the child and join with what it becomes. */
    method RemoveBelow(encoded: bytes, child: NodeHandle, rest: nibbles, ghost key: nibbles, ghost lt: LTree,
                       ghost keep: set<nat>)
      returns (action: Action, oldVal: Option<bytes>, ghost after: LNode)
      requires db.h == h && encoded == HexPrefix(key, false) && child == HandleOf(h, lt)
      requires NodeOk(h, db.data, storage.nodes, storage.freeIndices, LExtension(key, lt), keep)
      requires Canonical(Abs(lt)) && WellFormed(Abs(lt))
      modifies storage, this`deathRow
      ensures action.Delete? <==> Trie.Remove(Abs(lt), rest) == Empty
      ensures action.Delete? ==>
        RemovedNode(h, old(storage.nodes), storage.nodes, storage.freeIndices, LExtension(key, lt), keep,
                    old(deathRow), deathRow)
      ensures !action.Delete? ==>
        EditedNode(h, db.data, old(storage.nodes), storage.nodes, storage.freeIndices, LExtension(key, lt), after,
                   keep, old(deathRow), deathRow)
      ensures !action.Delete? ==> action.node == NodeOf(h, after)
      ensures !action.Delete? ==>
        AbsNode(after) ==
          if oldVal.None? then Extension(key, Abs(lt)) else FixExtension(key, Trie.Remove(Abs(lt), rest))
      ensures !action.Delete? ==> action.Keep? == oldVal.None? && (action.Keep? && Clean(h, lt) ==> CleanNode(h, after))
      ensures oldVal == Lookup(Abs(lt), rest)
      decreases |rest|, 4
    {
      ghost var start, death := storage.nodes, deathRow;
      ExtensionParts(h, db.data, storage.nodes, storage.freeIndices, key, lt, keep);
      ghost var below;
      var left;
      left, oldVal, below := RemoveAt(child, rest, lt, keep);
      if left.None? {
        action, after := Delete, LEmpty;
      } else {
        RemoveChanged(Abs(lt), rest);
        RemoveCanonical(Abs(lt), rest);
        ReplacedIsGoodChild(h, db.data, lt, below);
        ExtensionOk(h, db.data, storage.nodes, storage.freeIndices, key, below, keep);
        if left.value.1 {
          ghost var mid, deathMid := storage.nodes, deathRow;
          var fixed;
          fixed, after := FixExtensionNode(encoded, InMemory(left.value.0), key, below, keep);
          BudgetSteps(Pers(h, lt), death, Pers(h, below), deathMid, PersNode(h, after), deathRow);
          KeptTwice(start, mid, storage.nodes, keep);
          action := ReplaceBy(fixed);
        } else {
          action, after := Keep(ExtensionNode(encoded, InMemory(left.value.0))), LExtension(key, below);
        }
      }
    }
  }

  /** Opens a trie under a root, and refuses a root the store does not hold. What the root stands for is
      t, meaning m, and all of it is stored with its references. */
  method FromExisting(h: HashFn, db: MemoryDB, root: H256, ghost t: Tree, ghost m: Contents, ghost used: iset<bytes>)
    returns (trie: Option<TrieDBMut>)
    requires db.h == h && Ready(h, db.data, used)
    requires DbGet(h, db.data, root).Some? ==>
      root == RootHash(h, t) && Means(t, m) && Good(h, db.data, Disk(t)) && Enough(h, db.data, Pers(h, Disk(t)))
    ensures trie.None? <==> DbGet(h, db.data, root).None?
    ensures trie.Some? ==>
      fresh(trie.value) && fresh(trie.value.storage) && trie.value.Valid() && trie.value.contents == m &&
      trie.value.root == root && trie.value.db == db && trie.value.used == used
    ensures trie.Some? ==> trie.value.shape == Disk(t) && trie.value.deathRow == {}
  {
    var found := db.Get(root);
    if found.None? {
      return None;
    }
    var existing := new TrieDBMut.Existing(h, db, root, t, m, used);
    trie := Some(existing);
  }

  // ---- the top level ----

  function ChildOn(node: Node, partial: nibbles): (turn: Turn)
    requires node.LeafNode? || node.ExtensionNode? ==> node.key != []
    requires node.BranchNode? ==> |node.children| == 16
    ensures turn.Below? ==> turn.skip <= |partial|
  {
    match node
    case EmptyNode => Here(None)
    case LeafNode(key, v) => Here(if FromHexPrefix(key).0 == partial then Some(v) else None)
    case ExtensionNode(key, child) =>
      var slice := FromHexPrefix(key).0;
      if slice <= partial then Below(child, |slice|) else Here(None)
    case BranchNode(children, v) =>
      if partial == [] then Here(v)
      else if children[partial[0]].Some? then Below(children[partial[0]].value, 1)
      else Here(None)
  }

  ghost function BelowOf(ln: LNode, partial: nibbles): LTree
    requires ln.LExtension? || (ln.LBranch? && |ln.children| == 16 && partial != [] && ln.children[partial[0]].Some?)
  {
    if ln.LExtension? then ln.child else ln.children[partial[0]].value
  }

  /** A lookup turns at a node as it does in the trie the node stands for. */
  ghost predicate Turns(h: HashFn, d: Data, nodes: seq<Stored>, ln: LNode, partial: nibbles, turn: Turn) {
    match turn
    case Here(v) => v == Lookup(AbsNode(ln), partial)
    case Below(next, skip) =>
      (ln.LExtension? || (ln.LBranch? && |ln.children| == 16 && partial != [] && ln.children[partial[0]].Some?)) &&
      var at := BelowOf(ln, partial);
      next == HandleOf(h, at) && Holds(h, nodes, at) && Good(h, d, at) &&
      skip <= |partial| && Lookup(AbsNode(ln), partial) == Lookup(Abs(at), partial[skip..]) &&
      Height(Abs(at)) <= Height(AbsNode(ln))
  }

  ghost predicate Decodable(node: Node) {
    (node.LeafNode? || node.ExtensionNode? ==> node.key != []) && (node.BranchNode? ==> |node.children| == 16)
  }

  lemma TurnsRight(h: HashFn, d: Data, nodes: seq<Stored>, ln: LNode, partial: nibbles)
    requires HoldsNode(h, nodes, ln) && GoodNode(h, d, ln)
    ensures Decodable(NodeOf(h, ln)) && Turns(h, d, nodes, ln, partial, ChildOn(NodeOf(h, ln), partial))
  {
    match ln {
      case LLeaf(key, _) => HexPrefixRoundTrip(key, true);
      case LExtension(key, _) => HexPrefixRoundTrip(key, false);
      case LBranch(children, value) => TurnsAtBranch(h, d, nodes, children, value, partial);
      case LEmpty =>
    }
  }

  lemma TurnsAtBranch(h: HashFn, d: Data, nodes: seq<Stored>, children: seq<Option<LTree>>, value: Option<bytes>,
                      partial: nibbles)
    requires HoldsNode(h, nodes, LBranch(children, value)) && GoodNode(h, d, LBranch(children, value))
    ensures Turns(h, d, nodes, LBranch(children, value), partial, ChildOn(NodeOf(h, LBranch(children, value)), partial))
  {
    if partial != [] {
      var c := children[partial[0]];
      assert AbsChildren(children)[partial[0]] == AbsOption(c);
      ChildIsLower(AbsNode(LBranch(children, value)), partial[0]);
      if c.Some? { assert GoodChild(h, d, c.value); }
    }
  }

  lemma NewSound(h: HashFn, d: Data, used: iset<bytes>)
    requires Ready(h, d, used)
    ensures Sound(h, d, [], [], Disk(Empty), map[], {}, used)
    ensures RootHash(h, Empty) == h(NULL_RLP)
  {
    EmptyGood(h, d);
    MeansEmpty();
    forall x | x != h(NULL_RLP) ensures Rc(d, x) >= (Pers(h, Disk(Empty)) + multiset{})[x] {
    }
  }

  lemma ExistingSound(h: HashFn, d: Data, t: Tree, m: Contents, used: iset<bytes>)
    requires Ready(h, d, used) && Means(t, m) && Good(h, d, Disk(t)) && Enough(h, d, Pers(h, Disk(t)))
    ensures Sound(h, d, [], [], Disk(t), m, {}, used)
  {
    PlusNothing(Pers(h, Disk(t)));
  }

  /** All of the death row but the rest is done. */
  ghost predicate DrainedBut(h: HashFn, d: Data, e: Data, death: set<H256>, rest: set<H256>) {
    Drained(h, d, e, death - rest)
  }

  lemma DrainedNone(h: HashFn, d: Data, death: set<H256>)
    ensures DrainedBut(h, d, d, death, death)
  {
  }

  lemma DrainedOne(h: HashFn, d: Data, e: Data, death: set<H256>, rest: set<H256>, x: H256)
    requires rest <= death && x in rest && DrainedBut(h, d, e, death, rest)
    ensures DrainedBut(h, d, DbRemove(h, e, x), death, rest - {x})
  {
    DrainedStep(h, d, e, death - rest, x);
    assert death - rest + {x} == death - (rest - {x});
  }

  lemma DrainedAll(h: HashFn, d: Data, e: Data, death: set<H256>)
    requires DrainedBut(h, d, e, death, {})
    ensures Drained(h, d, e, death)
  {
    assert death - {} == death;
  }

  lemma RestoredSound(h: HashFn, d: Data, nodes: seq<Stored>, free: seq<nat>, shape: LTree, after: LTree, m: Contents,
                      used: iset<bytes>)
    requires shape.Mem? && after.Mem? && after.node == shape.node && after.cached == shape.cached
    requires TreeOk(h, d, nodes, free, after, {}) && Means(Abs(shape), m) && Enough(h, d, Pers(h, shape))
    requires Addressed(h, d, used) && CollisionFree(h, used)
    ensures Sound(h, d, nodes, free, after, m, {}, used) && Abs(after) == Abs(shape) && Pers(h, after) == Pers(h, shape)
  {
    PlusNothing(Pers(h, shape));
  }

  /** A stored node's kind is its tree's kind. */
  lemma KindOfNode(h: HashFn, mem: LTree)
    requires mem.Mem?
    ensures NodeOf(h, mem.node).ExtensionNode? ==>
      mem.node.LExtension? && Abs(mem) == Extension(mem.node.key, Abs(mem.node.child)) &&
      NodeOf(h, mem.node) == ExtensionNode(HexPrefix(mem.node.key, false), HandleOf(h, mem.node.child))
    ensures NodeOf(h, mem.node).LeafNode? ==>
      mem.node == LLeaf(mem.node.key, NodeOf(h, mem.node).leafValue) &&
      Abs(mem) == Leaf(mem.node.key, mem.node.leafValue) &&
      NodeOf(h, mem.node).key == HexPrefix(mem.node.key, true)
    ensures !NodeOf(h, mem.node).ExtensionNode? && !NodeOf(h, mem.node).LeafNode? ==>
      Abs(mem).Empty? || Abs(mem).Branch?
  {
  }

  lemma LeafBudget(h: HashFn, ln: LNode, after: LNode, death: set<H256>)
    requires ln.LLeaf? && after.LLeaf?
    ensures Budget(PersNode(h, ln), death, PersNode(h, after), death)
  {
  }

  /** An extension over a child that went out of its slot and back into one. */
  lemma PutBackUnder(h: HashFn, d: Data, start: seq<Stored>, nodes: seq<Stored>, free: seq<nat>, key: nibbles,
                     lt: LTree, mem: LTree, back: LTree, keep: set<nat>, death: set<H256>)
    requires TreeOk(h, d, nodes, free, back, keep) && Kept(start, nodes, keep) && GoodChild(h, d, lt)
    requires Abs(mem) == Abs(lt) && Pers(h, mem) == Pers(h, lt) && Persisted(mem) == Persisted(lt)
    requires Abs(back) == Abs(mem) && Budget(Pers(h, mem), death, Pers(h, back), death) && Replaces(mem, back)
    ensures EditedNode(h, d, start, nodes, free, LExtension(key, lt), LExtension(key, back), keep, death, death)
  {
    ReplacedIsGoodChild(h, d, lt, back);
    ExtensionOk(h, d, nodes, free, key, back, keep);
  }

  /** An extension fixed over a child that was taken out and given up. */
  lemma FixedBelow(h: HashFn, d: Data, start: seq<Stored>, mid: seq<Stored>, nodes: seq<Stored>, free: seq<nat>,
                   key: nibbles, lt: LTree, mem: LTree, after: LNode, keep: set<nat>, death: set<H256>,
                   deathMid: set<H256>, deathAfter: set<H256>)
    requires mem.Mem? && Pers(h, mem) == Pers(h, lt) &&
      deathMid == death + (if mem.cached.Some? then {mem.cached.value} else {})
    requires NodeOk(h, d, nodes, free, after, keep) && Kept(start, mid, keep) && Kept(mid, nodes, keep)
    requires Budget(PersNode(h, mem.node), deathMid, PersNode(h, after), deathAfter)
    ensures EditedNode(h, d, start, nodes, free, LExtension(key, lt), after, keep, death, deathAfter)
  {
    BudgetTaken(h, mem, death);
    BudgetSteps(Pers(h, mem), death, PersNode(h, mem.node), deathMid, PersNode(h, after), deathAfter);
    KeptTwice(start, mid, nodes, keep);
  }

  /** A cached root is on disk as it is. */
  lemma RootCached(h: HashFn, d: Data, lt: LTree)
    requires lt.Mem? && lt.cached.Some? && Good(h, d, lt) && Canonical(Abs(lt)) && AllSmall(Abs(lt))
    ensures Good(h, d, Disk(Abs(lt))) && Pers(h, lt) == Pers(h, Disk(Abs(lt))) &&
      lt.cached.value == RootHash(h, Abs(lt))
  {
    CleanPers(h, d, lt.node);
  }

  lemma CommonPrefixSwap(a: nibbles, b: nibbles)
    ensures CommonPrefix(a, b) == CommonPrefix(b, a)
  {
    CommonPrefixUnique(a, b, CommonPrefix(b, a));
  }

  lemma RemoveThroughExtension(key: nibbles, child: Tree, partial: nibbles)
    requires WellFormed(Extension(key, child))
    ensures var cp := CommonPrefix(key, partial); var t := Extension(key, child);
      if cp == |key| then
        var rest := partial[cp..];
        Lookup(t, partial) == Lookup(child, rest) &&
        Trie.Remove(t, partial) == if Trie.Remove(child, rest) == Empty then Empty
                              else if Lookup(child, rest).None? then t else FixExtension(key, Trie.Remove(child, rest))
      else Lookup(t, partial) == None && Trie.Remove(t, partial) == t
  {
    CommonPrefixSwap(key, partial);
    ExtensionLookupByPrefix(key, child, partial);
    ExtensionPrefix(key, partial);
    if key <= partial { RemoveChanged(child, partial[|key|..]); }
  }

  lemma ExtensionPrefix(key: nibbles, partial: nibbles)
    ensures CommonPrefix(partial, key) == |key| <==> key <= partial
  {
    if CommonPrefix(partial, key) == |key| { assert key[..|key|] == key; }
    if key <= partial { CommonPrefixUnique(partial, key, |key|); }
  }

  /** A branch without children holds no references. */
  lemma NoChildLeft(h: HashFn, d: Data, children: seq<Option<LTree>>, value: Option<bytes>)
    requires GoodNode(h, d, LBranch(children, value)) && forall i :: 0 <= i < 16 ==> AbsChildren(children)[i] == Empty
    ensures PersAll(h, children) == multiset{}
  {
    forall i | 0 <= i < 16 ensures children[i] == None {
      assert AbsChildren(children)[i] == AbsOption(children[i]);
      assert children[i].Some? ==> GoodChild(h, d, children[i].value);
    }
    PersNone(h, children);
  }

  /** The only child's references are all the branch's references. */
  lemma OnlyChildLeft(h: HashFn, d: Data, children: seq<Option<LTree>>, value: Option<bytes>, a: nat)
    requires GoodNode(h, d, LBranch(children, value)) && a < 16
    requires forall i :: 0 <= i < 16 && i != a ==> AbsChildren(children)[i] == Empty
    ensures PersAll(h, children) == PersOption(h, children[a])
  {
    forall i | 0 <= i < 16 && i != a ensures children[i] == None {
      assert AbsChildren(children)[i] == AbsOption(children[i]);
      assert children[i].Some? ==> GoodChild(h, d, children[i].value);
    }
    PersOnly(h, children, a);
  }

  lemma ExtensionLookupByPrefix(key: nibbles, child: Tree, partial: nibbles)
    ensures Lookup(Extension(key, child), partial) ==
      if CommonPrefix(partial, key) == |key| then Lookup(child, partial[|key|..]) else None
  {
    var cp := CommonPrefix(partial, key);
    if cp == |key| { assert key[..cp] == key; }
    if key <= partial { CommonPrefixUnique(partial, key, |key|); }
  }

  lemma KeptTaken(before: seq<Stored>, nodes: seq<Stored>, mem: LTree, keep: set<nat>)
    requires mem.Mem? && Slots(mem) !! keep && Kept(before, nodes, Slots(mem) + keep - {mem.slot})
    ensures Kept(before, nodes, keep)
  {
    forall i | i in keep && i < |before| ensures i < |nodes| && nodes[i] == before[i] {
      assert mem.slot in Slots(mem);
      assert i in Slots(mem) + keep - {mem.slot};
    }
  }

  lemma LeafLookupByPrefix(key: nibbles, v: bytes, partial: nibbles)
    ensures Lookup(Leaf(key, v), partial) ==
      if CommonPrefix(partial, key) == |key| && CommonPrefix(partial, key) == |partial| then Some(v) else None
  {
    var cp := CommonPrefix(partial, key);
    if cp == |key| && cp == |partial| { assert partial[..cp] == partial && key[..cp] == key; }
    if key == partial { CommonPrefixUnique(partial, key, |key|); }
  }
}
