/** What a mutable trie takes from its store and gives back: how counts move with an edit and with a
    commit, and the one way in which a reference is lost. */
module TrieCounts {
  import opened Bytes
  import opened Trie
  import opened TrieNode
  import opened HashStore
  import opened Arena
  import opened TrieSteps
  import opened TrieCommit

  /** No two of the nodes have the same hash. */
  ghost predicate NoTwins(h: HashFn, m: multiset<H256>) {
    forall x :: x != h(NULL_RLP) ==> m[x] <= 1
  }

  ghost predicate CountsAt(base: Data, d: Data, held: multiset<H256>, death: set<H256>, stored: multiset<H256>,
                           exact: bool, x: H256) {
    var row := if x in death then 1 else 0;
    Rc(d, x) >= Rc(base, x) + stored[x] && held[x] + row <= stored[x] &&
    (exact ==> Rc(d, x) == Rc(base, x) + stored[x] && held[x] + row == stored[x])
  }

  /** Beyond what it started with, the store has the nodes of the trie it stores, and they are what the
      trie in memory still holds or has on its row. */
  ghost predicate Counts(h: HashFn, base: Data, d: Data, held: multiset<H256>, death: set<H256>,
                         stored: multiset<H256>, exact: bool) {
    forall x :: x != h(NULL_RLP) ==> CountsAt(base, d, held, death, stored, exact, x)
  }

  /** An edit does not touch the store, and without twins it accounts for every node. */
  lemma CountsEdited(h: HashFn, base: Data, d: Data, held: multiset<H256>, death: set<H256>, stored: multiset<H256>,
                     exact: bool, after: multiset<H256>, deathAfter: set<H256>, exactAfter: bool)
    requires Counts(h, base, d, held, death, stored, exact) && Budget(held, death, after, deathAfter)
    requires exactAfter ==> exact && NoTwins(h, stored)
    ensures Counts(h, base, d, after, deathAfter, stored, exactAfter)
  {
    forall x | x != h(NULL_RLP) ensures CountsAt(base, d, after, deathAfter, stored, exactAfter, x) {
      assert CountsAt(base, d, held, death, stored, exact, x) && Accounted(held, death, after, deathAfter, x);
    }
  }

  /** A commit makes the trie in memory the stored one. */
  lemma CountsCommitted(h: HashFn, base: Data, d: Data, e: Data, held: multiset<H256>, death: set<H256>,
                        stored: multiset<H256>, exact: bool, needed: multiset<H256>)
    requires Counts(h, base, d, held, death, stored, exact) && Settled(h, d, e, death, held, needed)
    ensures Counts(h, base, e, needed, {}, needed, exact)
  {
    forall x | x != h(NULL_RLP) ensures CountsAt(base, e, needed, {}, needed, exact, x) {
      assert CountsAt(base, d, held, death, stored, exact, x);
    }
  }

  lemma CountsStart(h: HashFn, d: Data)
    ensures Counts(h, d, d, Pers(h, Disk(Empty)), {}, Pers(h, Disk(Empty)), true)
  {
    EmptyHolds(h, d, Disk(Empty));
    forall x | x != h(NULL_RLP)
      ensures CountsAt(d, d, Pers(h, Disk(Empty)), {}, Pers(h, Disk(Empty)), true, x)
    {
    }
  }

  /** A subtree that stands for the empty trie holds no reference that counts. */
  lemma EmptyHolds(h: HashFn, d: Data, lt: LTree)
    requires lt == Disk(Empty) || (Good(h, d, lt) && Abs(lt) == Empty)
    ensures forall x :: x != h(NULL_RLP) ==> Pers(h, lt)[x] == 0
  {
    assert Rlp(h, Empty) == NULL_RLP;
  }

  // ---- what a reference in memory stands for ----

  /** The references still held are nodes of the trie. */
  lemma {:induction false} HeldWithin(h: HashFn, d: Data, lt: LTree)
    requires Good(h, d, lt)
    ensures Pers(h, lt) <= Pers(h, Disk(Abs(lt)))
    decreases lt, 0
  {
    if lt.Mem? { HeldWithinNode(h, d, lt.node); }
  }

  lemma {:induction false} HeldWithinNode(h: HashFn, d: Data, ln: LNode)
    requires GoodNode(h, d, ln)
    ensures PersNode(h, ln) <= HashesBelow(h, AbsNode(ln))
    decreases ln, 0
  {
    match ln {
      case LExtension(_, child) => HeldWithinChild(h, d, child);
      case LBranch(children, _) =>
        forall i | 0 <= i < |children| ensures WithinOption(h, children[i]) {
          if children[i].Some? {
            assert GoodChild(h, d, children[i].value);
            HeldWithinChild(h, d, children[i].value);
          }
        }
        HeldWithinAll(h, children);
      case _ =>
    }
  }

  lemma {:induction false} HeldWithinChild(h: HashFn, d: Data, lt: LTree)
    requires GoodChild(h, d, lt)
    ensures Pers(h, lt) <= HashesOf(h, Abs(lt))
    decreases lt, 1
  {
    if lt.Mem? { HeldWithinNode(h, d, lt.node); }
  }

  ghost predicate WithinOption(h: HashFn, c: Option<LTree>) {
    PersOption(h, c) <= HashesOf(h, AbsOption(c))
  }

  lemma {:induction false} HeldWithinAll(h: HashFn, children: seq<Option<LTree>>)
    requires forall i :: 0 <= i < |children| ==> WithinOption(h, children[i])
    ensures PersAll(h, children) <= HashesAll(h, AbsChildren(children))
  {
    if children != [] {
      assert WithinOption(h, children[0]);
      HeldWithinAll(h, children[1..]);
      assert AbsChildren(children)[1..] == AbsChildren(children[1..]);
    }
  }

  /** A commit takes exactly one reference from a hash on the row that the trie does not contain, and takes
      from no other hash. */
  lemma SettledTakes(h: HashFn, d: Data, e: Data, death: set<H256>, lt: LTree, x: H256)
    requires Good(h, d, lt) && x != h(NULL_RLP)
    requires Settled(h, d, e, death, Pers(h, lt), Pers(h, Disk(Abs(lt))))
    ensures x in death && x !in Pers(h, Disk(Abs(lt))) ==> Rc(e, x) == Rc(d, x) - 1
    ensures x !in death ==> Rc(e, x) >= Rc(d, x)
    ensures x !in death && x !in Pers(h, Disk(Abs(lt))) ==> Rc(e, x) == Rc(d, x)
  {
    HeldWithin(h, d, lt);
  }

  // ---- the lost reference ----

  /** An edit accounts for a hash, references held and row together, exactly when it gives up no reference
      more than the row can note: one, or none if the hash is there already. */
  lemma LostExactly(held: multiset<H256>, death: set<H256>, after: multiset<H256>, deathAfter: set<H256>, x: H256)
    requires Budget(held, death, after, deathAfter)
    ensures after[x] + (if x in deathAfter then 1 else 0) == held[x] + (if x in death then 1 else 0) <==>
      held[x] <= after[x] + if x in death then 0 else 1
  {
    assert Accounted(held, death, after, deathAfter, x);
  }
}
