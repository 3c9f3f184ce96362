/** A run of a mutable trie as a list of steps, and what the trie and its store should be after them. */
module TrieScripts {
  import opened Bytes
  import opened Trie
  import opened TrieNode
  import opened TrieRoot
  import opened HashStore
  import opened Arena
  import opened TrieCommit
  import opened TrieStates
  import opened TrieDBMuts
  import opened TrieCounts

  datatype Step = Change(edit: Edit) | Commit | Reopen

  /** What a run's steps alone tell:
      - edits: all of them;
      - saved: those that the root stands for, up to the last commit, or up to the last edit that left
        nothing, which needs no commit;
      - committed: those up to the last commit, whose trie the store holds;
      - twinFree: no stored trie with two equal nodes was edited any further. */
  datatype Account = Account(edits: seq<Edit>, saved: seq<Edit>, committed: seq<Edit>, twinFree: bool)

  const OPENING := Account([], [], [], true)

  /** The nodes of the stored trie, each as often as it occurs. */
  ghost function StoredNodes(h: HashFn, a: Account): multiset<H256> {
    Pers(h, Disk(RunTree(a.committed)))
  }

  ghost function Entered(h: HashFn, a: Account, step: Step): Account {
    match step
    case Change(edit) =>
      var edits := a.edits + [edit];
      Account(edits, if RunMap(edits) == map[] then edits else a.saved, a.committed,
              a.twinFree && NoTwins(h, StoredNodes(h, a)))
    case _ => Account(a.edits, a.edits, a.edits, a.twinFree)
  }

  ghost function AccountOf(h: HashFn, steps: seq<Step>): Account {
    if steps == [] then OPENING else Entered(h, AccountOf(h, steps[..|steps| - 1]), steps[|steps| - 1])
  }

  lemma AccountNext(h: HashFn, steps: seq<Step>, i: nat)
    requires i < |steps|
    ensures AccountOf(h, steps[..i + 1]) == Entered(h, AccountOf(h, steps[..i]), steps[i])
  {
    assert steps[..i + 1][..i] == steps[..i];
  }

  /** Edits of encodable size; the nodes of committed tries are among the strings the digest is taken to
      be injective on. */
  ghost predicate Legal(h: HashFn, used: iset<bytes>, a: Account, step: Step) {
    match step
    case Change(edit) => ShortEdit(edit)
    case _ => Within(h, RunTree(a.edits), used)
  }

  ghost predicate LegalSteps(h: HashFn, used: iset<bytes>, steps: seq<Step>) {
    forall i :: 0 <= i < |steps| ==> LegalAt(h, used, steps, i)
  }

  ghost predicate LegalAt(h: HashFn, used: iset<bytes>, steps: seq<Step>, i: nat)
    requires i < |steps|
  {
    Legal(h, used, AccountOf(h, steps[..i]), steps[i])
  }

  /** The trie is the map of all edits; its root and the store are the trie of the saved ones. */
  ghost predicate AfterSteps(trie: TrieDBMut, a: Account)
    reads trie, trie.db, trie.storage
  {
    trie.Valid() && trie.contents == RunMap(a.edits) && SavedAs(trie.h, trie.db.data, trie.root, a.saved)
  }

  /** The store's counts, set against those in base, the store the run started with. */
  ghost predicate CountsAfter(trie: TrieDBMut, base: Data, a: Account)
    reads trie, trie.db, trie.storage
  {
    Counts(trie.h, base, trie.db.data, Pers(trie.h, trie.shape), trie.deathRow, StoredNodes(trie.h, a), a.twinFree)
  }

  ghost predicate SavedAs(h: HashFn, d: Data, root: H256, edits: seq<Edit>) {
    root == RootHash(h, RunTree(edits)) && Good(h, d, Disk(RunTree(edits))) && Means(RunTree(edits), RunMap(edits))
  }

  lemma NothingSaved(h: HashFn, d: Data)
    ensures SavedAs(h, d, h(NULL_RLP), [])
  {
    EmptyGood(h, d);
    MeansEmpty();
  }

  /** What an edit leaves of the saved trie: all of it, or the empty trie. */
  lemma ChangeSaved(h: HashFn, d: Data, root: H256, after: H256, a: Account, edit: Edit)
    requires SavedAs(h, d, root, a.saved)
    requires after == if RunMap(a.edits + [edit]) == map[] then h(NULL_RLP) else root
    ensures SavedAs(h, d, after, Entered(h, a, Change(edit)).saved)
  {
    var edits := a.edits + [edit];
    if RunMap(edits) == map[] {
      MeansEmpty();
      EmptyGood(h, d);
      RepresentsUnique(Empty, RunTree(edits), map[]);
    }
  }
}
