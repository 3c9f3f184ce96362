/** What writing a trie back does to the store: references gained, nothing readable lost, and
    every node of the trie readable afterwards. */
module TrieCommit {
  import opened Bytes
  import opened Trie
  import opened TrieNode
  import opened HashStore
  import opened Arena
  import opened TrieSteps

  /** Every hash is referenced at least as often as m says. */
  ghost predicate Enough(h: HashFn, d: Data, m: multiset<H256>) {
    forall x :: x != h(NULL_RLP) ==> Rc(d, x) >= m[x]
  }

  /** From d to e, exactly the needed references were gained, counting the held ones as there already. */
  ghost predicate Gained(h: HashFn, d: Data, e: Data, held: multiset<H256>, needed: multiset<H256>) {
    forall x :: x != h(NULL_RLP) ==> Rc(e, x) + held[x] == Rc(d, x) + needed[x]
  }

  /** One reference less for each hash on the row, those not held any more given up, and one more for each
      node that is needed now. */
  ghost predicate Settled(h: HashFn, d: Data, e: Data, death: set<H256>, held: multiset<H256>, needed: multiset<H256>) {
    forall x :: x != h(NULL_RLP) ==> Rc(e, x) + held[x] == Rc(d, x) - (if x in death then 1 else 0) + needed[x]
  }

  lemma DrainedThenGained(h: HashFn, d: Data, mid: Data, e: Data, death: set<H256>, held: multiset<H256>,
                          needed: multiset<H256>)
    requires Drained(h, d, mid, death) && Gained(h, mid, e, held, needed)
    ensures Settled(h, d, e, death, held, needed)
  {
  }

  lemma EnoughAfter(h: HashFn, d: Data, e: Data, held: multiset<H256>, needed: multiset<H256>)
    requires Enough(h, d, held) && Gained(h, d, e, held, needed)
    ensures Enough(h, e, needed)
  {
  }

  /** An edit within its budget leaves enough references. */
  lemma EnoughBudget(h: HashFn, d: Data, held: multiset<H256>, death: set<H256>, after: multiset<H256>,
                     deathAfter: set<H256>)
    requires Enough(h, d, held + multiset(death)) && Budget(held, death, after, deathAfter)
    ensures Enough(h, d, after + multiset(deathAfter))
  {
    forall x | x != h(NULL_RLP)
      ensures Rc(d, x) >= (after + multiset(deathAfter))[x]
    {
      assert Accounted(held, death, after, deathAfter, x);
    }
  }

  lemma GainedNothing(h: HashFn, d: Data, m: multiset<H256>)
    ensures Gained(h, d, d, m, m)
  {
  }

  lemma GainedSteps(h: HashFn, d: Data, e: Data, f: Data, a: multiset<H256>, b: multiset<H256>, a': multiset<H256>,
                    b': multiset<H256>)
    requires Gained(h, d, e, a, b) && Gained(h, e, f, a', b')
    ensures Gained(h, d, f, a + a', b + b')
  {
  }

  lemma GainedInsert(h: HashFn, d: Data, v: bytes, used: iset<bytes>)
    requires Addressed(h, d, used) && CollisionFree(h, used) && v in used && NonNegative(h, d)
    ensures Gained(h, d, DbInsert(h, d, v), multiset{}, multiset{h(v)})
    ensures NonNegative(h, DbInsert(h, d, v))
  {
    if h(v) != h(NULL_RLP) { InsertReadable(h, d, v, used); }
  }

  ghost predicate NonNegative(h: HashFn, d: Data) {
    forall x :: x != h(NULL_RLP) ==> Rc(d, x) >= 0
  }

  // ---- what can be read survives an extension of the store ----

  lemma {:induction false} KidsStoredExtends(h: HashFn, d: Data, e: Data, t: Tree)
    requires KidsStored(h, d, t) && Extends(h, d, e)
    ensures KidsStored(h, e, t)
    decreases t, 0
  {
    match t {
      case Extension(_, child) => ChildStoredExtends(h, d, e, child);
      case Branch(children, _) =>
        forall i | 0 <= i < |children| ensures ChildStored(h, e, children[i]) {
          assert ChildStored(h, d, children[i]);
          ChildStoredExtends(h, d, e, children[i]);
        }
      case _ =>
    }
  }

  lemma {:induction false} ChildStoredExtends(h: HashFn, d: Data, e: Data, t: Tree)
    requires ChildStored(h, d, t) && Extends(h, d, e)
    ensures ChildStored(h, e, t)
    decreases t, 1
  {
    KidsStoredExtends(h, d, e, t);
  }

  lemma {:induction false} GoodExtends(h: HashFn, d: Data, e: Data, lt: LTree)
    requires Good(h, d, lt) && Extends(h, d, e)
    ensures Good(h, e, lt)
    decreases lt, 0
  {
    KidsStoredIfPersisted(h, d, e, lt);
    if lt.Mem? { GoodNodeExtends(h, d, e, lt.node); }
  }

  lemma KidsStoredIfPersisted(h: HashFn, d: Data, e: Data, lt: LTree)
    requires Good(h, d, lt) && Extends(h, d, e)
    ensures Persisted(lt) ==> RootStored(h, e, Abs(lt))
  {
    if Persisted(lt) { KidsStoredExtends(h, d, e, Abs(lt)); }
  }

  lemma {:induction false} GoodNodeExtends(h: HashFn, d: Data, e: Data, ln: LNode)
    requires GoodNode(h, d, ln) && Extends(h, d, e)
    ensures GoodNode(h, e, ln)
    decreases ln, 0
  {
    match ln {
      case LExtension(_, child) => GoodExtends(h, d, e, child);
      case LBranch(children, _) =>
        forall i | 0 <= i < 16 && children[i].Some? ensures GoodChild(h, e, children[i].value) {
          assert GoodChild(h, d, children[i].value);
          GoodExtends(h, d, e, children[i].value);
        }
      case _ =>
    }
  }

  // ---- ... and the removal of hashes nothing here relies on ----

  /** The hashes in m read the same. */
  ghost predicate ReadsSame(h: HashFn, d: Data, e: Data, m: multiset<H256>) {
    forall x :: x in m ==> DbGet(h, e, x) == DbGet(h, d, x)
  }

  lemma {:induction false} KidsStoredSame(h: HashFn, d: Data, e: Data, t: Tree)
    requires KidsStored(h, d, t) && ReadsSame(h, d, e, HashesBelow(h, t))
    ensures KidsStored(h, e, t)
    decreases t, 0
  {
    match t {
      case Extension(_, child) => ChildStoredSame(h, d, e, child);
      case Branch(children, _) =>
        forall i | 0 <= i < |children| ensures ChildStored(h, e, children[i]) {
          assert ChildStored(h, d, children[i]);
          HashesAllContains(h, children, i);
          ChildStoredSame(h, d, e, children[i]);
        }
      case _ =>
    }
  }

  lemma {:induction false} ChildStoredSame(h: HashFn, d: Data, e: Data, t: Tree)
    requires ChildStored(h, d, t) && ReadsSame(h, d, e, HashesOf(h, t))
    ensures ChildStored(h, e, t)
    decreases t, 1
  {
    KidsStoredSame(h, d, e, t);
  }

  lemma {:induction false} HashesAllContains(h: HashFn, children: seq<Tree>, i: nat)
    requires i < |children|
    ensures HashesOf(h, children[i]) <= HashesAll(h, children)
  {
    if i > 0 { HashesAllContains(h, children[1..], i - 1); }
  }

  lemma {:induction false} PersAllContains(h: HashFn, children: seq<Option<LTree>>, i: nat)
    requires i < |children|
    ensures PersOption(h, children[i]) <= PersAll(h, children)
  {
    if i > 0 { PersAllContains(h, children[1..], i - 1); }
  }

  lemma {:induction false} GoodSame(h: HashFn, d: Data, e: Data, lt: LTree)
    requires Good(h, d, lt) && ReadsSame(h, d, e, Pers(h, lt))
    ensures Good(h, e, lt)
    decreases lt, 0
  {
    match lt {
      case Disk(t) => KidsStoredSame(h, d, e, t);
      case Mem(_, cached, node) =>
        GoodNodeSame(h, d, e, node);
        if cached.Some? {
          CleanPers(h, d, node);
          KidsStoredSame(h, d, e, AbsNode(node));
        }
    }
  }

  lemma {:induction false} GoodNodeSame(h: HashFn, d: Data, e: Data, ln: LNode)
    requires GoodNode(h, d, ln) && ReadsSame(h, d, e, PersNode(h, ln))
    ensures GoodNode(h, e, ln)
    decreases ln, 0
  {
    match ln {
      case LExtension(_, child) => GoodSame(h, d, e, child);
      case LBranch(children, _) =>
        forall i | 0 <= i < 16 && children[i].Some? ensures GoodChild(h, e, children[i].value) {
          assert GoodChild(h, d, children[i].value);
          PersAllContains(h, children, i);
          GoodSame(h, d, e, children[i].value);
        }
      case _ =>
    }
  }

  // ---- draining the death row ----

  /** Each hash in death lost one reference, and nothing else happened. */
  ghost predicate Drained(h: HashFn, d: Data, e: Data, death: set<H256>) {
    forall x ::
      Rc(e, x) == Rc(d, x) - (if x in death && x != h(NULL_RLP) then 1 else 0) &&
      (x in d ==> x in e && e[x].value == d[x].value)
  }

  lemma DrainedStep(h: HashFn, d: Data, e: Data, death: set<H256>, x: H256)
    requires Drained(h, d, e, death) && x !in death
    ensures Drained(h, d, DbRemove(h, e, x), death + {x})
  {
  }

  /** Hashes still relied on stay readable, and all values stay where they belong. */
  lemma DrainedKeeps(h: HashFn, d: Data, e: Data, death: set<H256>, m: multiset<H256>, used: iset<bytes>)
    requires Drained(h, d, e, death) && Enough(h, d, m + multiset(death)) && Addressed(h, d, used)
    ensures Enough(h, e, m) && ReadsSame(h, d, e, m) && Addressed(h, e, used)
  {
    forall x | x != h(NULL_RLP)
      ensures Rc(e, x) >= m[x]
    {
      assert (m + multiset(death))[x] == m[x] + multiset(death)[x];
    }
    forall x | x in e && e[x].rc > 0
      ensures e[x].value in used && h(e[x].value) == x
    {
      DrainedValue(h, d, e, death, x, used);
    }
  }

  lemma DrainedValue(h: HashFn, d: Data, e: Data, death: set<H256>, x: H256, used: iset<bytes>)
    requires Drained(h, d, e, death) && Addressed(h, d, used) && x in e && e[x].rc > 0
    ensures e[x].value in used && h(e[x].value) == x
  {
    assert Rc(d, x) > 0;
  }

  // ---- the nodes written ----

  /** The encodings of all nodes of t are among the strings used. */
  ghost predicate Within(h: HashFn, t: Tree, used: iset<bytes>)
    decreases t
  {
    Rlp(h, t) in used &&
    match t
    case Extension(_, child) => Within(h, child, used)
    case Branch(children, _) => forall i :: 0 <= i < |children| ==> Within(h, children[i], used)
    case _ => true
  }

  function Cleared(children: seq<Option<LTree>>, n: nat): (r: seq<Option<LTree>>)
    requires n <= |children|
    ensures |r| == |children|
    ensures forall i :: 0 <= i < |children| ==> r[i] == if i < n then None else children[i]
  {
    seq(|children|, i requires 0 <= i < |children| => if i < n then None else children[i])
  }

  lemma ClearedStep(children: seq<Option<LTree>>, n: nat)
    requires n < |children|
    ensures Cleared(children, n)[n := None] == Cleared(children, n + 1)
    ensures Cleared(children, 0) == children
  {
  }

  lemma {:induction false} PersAllSnoc(h: HashFn, children: seq<Option<LTree>>, n: nat)
    requires n < |children|
    ensures PersAll(h, children[..n + 1]) == PersAll(h, children[..n]) + PersOption(h, children[n])
  {
    TailOfTake(children, n + 1);
    if n == 0 {
      PlusNothing(PersOption(h, children[0]));
    } else {
      TailOfTake(children, n);
      PersAllSnoc(h, children[1..], n - 1);
      Regroup(PersOption(h, children[0]), PersAll(h, children[1..][..n - 1]), PersOption(h, children[n]));
    }
  }

  lemma {:induction false} HashesAllSnoc(h: HashFn, children: seq<Tree>, n: nat)
    requires n < |children|
    ensures HashesAll(h, children[..n + 1]) == HashesAll(h, children[..n]) + HashesOf(h, children[n])
  {
    TailOfTake(children, n + 1);
    if n == 0 {
      PlusNothing(HashesOf(h, children[0]));
    } else {
      TailOfTake(children, n);
      HashesAllSnoc(h, children[1..], n - 1);
      Regroup(HashesOf(h, children[0]), HashesAll(h, children[1..][..n - 1]), HashesOf(h, children[n]));
    }
  }
}
