/** What a pruning journal owes its user between any two steps: what is on disk and will be, which
    nodes can be read, and how each step changes that. */
module JournalPromises {
  import opened Bytes
  import opened TrieNode
  import opened HashStore
  import opened JournalRecords
  import opened JournalCounts
  import opened JournalStates
  import opened JournalRecovery

  /** What cannot be told from the fields:
      - live: the fold of all canonical blocks, their insertions without their deletions;
      - stranded: what discarded blocks, and blocks lost at a restart, inserted;
      - lost: the records still on disk of eras that a restart did not find;
      - dropped: canonical deletions since the pending overlay was last forgotten with all written;
      - hidden: nodes on their way to the disk that the pending overlay has forgotten. */
  datatype Ledger = Ledger(live: set<H256>, stranded: set<H256>, lost: Journal, dropped: set<H256>, hidden: set<H256>)

  /** The journal in memory together with the records on disk that it does not know. */
  function Both(j: Journal, lost: Journal): Journal {
    j + lost
  }

  /** A disk with nothing outstanding, as a database leaves it that holds the given insertions. */
  ghost predicate Written(u: Universe, d: Disk, all: Journal, held: multiset<H256>, latest: Option<nat>,
                          live: set<H256>, stranded: set<H256>) {
    JournalOnDisk(u, d, all, latest) && NodesOnDisk(u, d, held, live, stranded)
  }

  /** The disk as it will be, and what is not there yet. */
  ghost predicate Stored(u: Universe, disk: Disk, target: Disk, pending: map<H256, bytes>, j: Journal,
                         latest: Option<nat>, g: Ledger) {
    j.Keys !! g.lost.Keys && JournalOnDisk(u, target, Both(j, g.lost), latest) &&
    NodesOnDisk(u, target, Held(j), g.live, g.stranded) &&
    Covered(u, disk, target, pending, g.hidden) && Leaving(u, disk, target, pending, g.dropped)
  }

  lemma OwnJournalOk(u: Universe, j: Journal, lost: Journal)
    requires JournalOk(u, Both(j, lost)) && j.Keys !! lost.Keys
    ensures JournalOk(u, j)
  {
    forall era | era in j ensures EraOk(u, j, era) { assert EraOk(u, Both(j, lost), era); }
  }

  // ---- reading ----

  /** What a read finds: the transaction's own insertions, the overlays, the disk. */
  function ReadFrom(h: HashFn, tx: Data, overlay: Data, pending: map<H256, bytes>, disk: Disk, k: H256): Option<bytes> {
    if DbRaw(h, tx, k).Some? && DbRaw(h, tx, k).value.rc > 0 then Some(DbRaw(h, tx, k).value.value)
    else if DbGet(h, overlay, Short(k)).Some? then DbGet(h, overlay, Short(k))
    else if Short(k) in pending then Some(pending[Short(k)])
    else if k in disk then Some(disk[k])
    else None
  }

  /** Everything a read looks at, and the journal whose insertions the overlay counts. */
  datatype View = View(tx: Data, overlay: Data, counted: Journal, pending: map<H256, bytes>, disk: Disk)

  function Sees(h: HashFn, v: View, k: H256): Option<bytes> {
    ReadFrom(h, v.tx, v.overlay, v.pending, v.disk, k)
  }

  /** Every part holds the right values. */
  ghost predicate Clear(u: Universe, h: HashFn, v: View) {
    Proper(u, h) && TxOk(u, v.tx) && Reflects(u, v.overlay, Held(v.counted)) && PendingRight(u, v.pending) &&
    DiskRight(u, v.disk)
  }

  /** All is well: the overlay counts the journal, and the disk and what is outstanding match. */
  ghost predicate Sound(u: Universe, h: HashFn, v: View, size: int, target: Disk, latest: Option<nat>, g: Ledger) {
    Proper(u, h) && TxOk(u, v.tx) && Counting(u, v.overlay, size, v.counted) &&
    Stored(u, v.disk, target, v.pending, v.counted, latest, g)
  }

  predicate Inserting(tx: Data, k: H256) {
    k in tx && tx[k].rc > 0
  }

  ghost predicate Somewhere(v: View, k: H256) {
    Inserting(v.tx, k) || k in Held(v.counted) || Short(k) in v.pending || k in v.disk
  }

  /** Reads never answer wrongly, and find a node exactly when some part has it, whether the overlay
      counts the disk's whole journal or only a part that was recovered. */
  lemma ReadsRight(u: Universe, h: HashFn, v: View, k: H256)
    requires Clear(u, h, v) && k in u.keys
    ensures Sees(h, v, k) == if Somewhere(v, k) then Some(u.content(k)) else None
  {
    ReflectsAnswer(u, h, v.overlay, Held(v.counted), k);
    assert PendingFor(u, v.pending, Short(k)) && RightNode(u, v.disk, k);
  }

  /** What was read is still read, and is the same. */
  ghost predicate StillRead(h: HashFn, before: View, after: View, k: H256) {
    Sees(h, before, k).Some? ==> Sees(h, after, k) == Sees(h, before, k)
  }

  ghost predicate AllStillRead(u: Universe, h: HashFn, before: View, after: View) {
    forall k: H256 :: k in u.keys ==> StillRead(h, before, after, k)
  }

  lemma ReadOn(u: Universe, h: HashFn, before: View, after: View, k: H256)
    requires Clear(u, h, before) && Clear(u, h, after) && k in u.keys
    requires Somewhere(before, k) ==> Somewhere(after, k)
    ensures StillRead(h, before, after, k)
  {
    ReadsRight(u, h, before, k);
    ReadsRight(u, h, after, k);
  }

  /** In a sound state every live and every counted node is read, unless it is hidden. */
  lemma PromisedRead(u: Universe, h: HashFn, v: View, target: Disk, latest: Option<nat>, g: Ledger, k: H256)
    requires Clear(u, h, v) && Stored(u, v.disk, target, v.pending, v.counted, latest, g)
    ensures k in g.live || k in Held(v.counted) ==> k in u.keys
    ensures k in u.keys && Sees(h, v, k).Some? ==> Sees(h, v, k) == Some(u.content(k))
    ensures (k in g.live && k !in g.hidden) || k in Held(v.counted) ==> Sees(h, v, k) == Some(u.content(k))
  {
    assert LiveOnDisk(u, target, g.live, k) && CountedIn(u, v.overlay, Held(v.counted), k);
    assert CoveredNode(u, v.disk, target, v.pending, g.hidden, k);
    if k in u.keys { ReadsRight(u, h, v, k); }
  }

  // ---- writing and forgetting ----

  /** All outstanding is written: nothing is hidden any more. */
  lemma WrittenStored(u: Universe, disk: Disk, target: Disk, pending: map<H256, bytes>, j: Journal,
                      latest: Option<nat>, g: Ledger)
    requires Stored(u, disk, target, pending, j, latest, g)
    ensures Stored(u, target, target, pending, j, latest, g.(hidden := {}))
  {
    forall k
      ensures CoveredNode(u, target, target, pending, {}, k) && RightNode(u, target, k)
      ensures LeavingNode(u, target, target, pending, g.dropped, k)
    {
      assert NodeOnDisk(u, target, Held(j), g.live, g.stranded, k);
      assert LeavingNode(u, disk, target, pending, g.dropped, k);
    }
  }

  /** A write takes away only what was dropped. */
  lemma WriteReads(u: Universe, h: HashFn, v: View, target: Disk, latest: Option<nat>, g: Ledger, k: H256)
    requires Clear(u, h, v) && Stored(u, v.disk, target, v.pending, v.counted, latest, g) && k in u.keys
    ensures StillRead(h, v, v.(disk := target), k) || k in g.dropped
  {
    WrittenStored(u, v.disk, target, v.pending, v.counted, latest, g);
    assert LeavingNode(u, v.disk, target, v.pending, g.dropped, k);
    if k !in g.dropped { ReadOn(u, h, v, v.(disk := target), k); }
  }

  ghost function PendingKeys(u: Universe, pending: map<H256, bytes>): set<H256> {
    set s | s in pending :: u.full(s)
  }

  lemma PendingMore(u: Universe, h: HashFn, before: map<H256, bytes>, after: map<H256, bytes>, keys: seq<H256>)
    requires PendingWith(u, before, after, keys) && Proper(u, h) && forall k :: k in keys ==> k in u.keys
    ensures PendingKeys(u, after) == PendingKeys(u, before) + KeySet(keys)
  {
    forall k ensures k in PendingKeys(u, after) <==> k in PendingKeys(u, before) || k in keys {
      if s :| s in after && k == u.full(s) { assert NewPending(u, before, after, keys, s); }
      if s :| s in before && k == u.full(s) { assert KeptPending(before, after, s); }
      assert PutPending(after, keys, k);
    }
  }

  /** Forgetting the pending overlay with all written forgets no node that is to stay. */
  ghost function Forgot(u: Universe, g: Ledger, pending: map<H256, bytes>, written: bool): Ledger {
    if written then g.(dropped := {}, hidden := {}) else g.(hidden := g.hidden + PendingKeys(u, pending))
  }

  lemma ForgotStored(u: Universe, h: HashFn, disk: Disk, target: Disk, pending: map<H256, bytes>, j: Journal,
                     latest: Option<nat>, g: Ledger, written: bool)
    requires Stored(u, disk, target, pending, j, latest, g) && (written ==> disk == target) && Proper(u, h)
    ensures Stored(u, disk, target, map[], j, latest, Forgot(u, g, pending, written))
  {
    var f := Forgot(u, g, pending, written);
    forall k
      ensures CoveredNode(u, disk, target, map[], f.hidden, k) && LeavingNode(u, disk, target, map[], f.dropped, k)
    {
      assert CoveredNode(u, disk, target, pending, g.hidden, k) && LeavingNode(u, disk, target, pending, g.dropped, k);
      assert PendingFor(u, pending, Short(k));
    }
    forall s ensures PendingFor(u, map[], s) { }
  }

  /** What forgetting can make unreadable: pending nodes, and only dropped ones when all is written. */
  ghost predicate Forgettable(g: Ledger, pending: map<H256, bytes>, written: bool, k: H256) {
    Short(k) in pending && (written ==> k in g.dropped)
  }

  lemma ForgetReads(u: Universe, h: HashFn, v: View, target: Disk, latest: Option<nat>, g: Ledger, written: bool,
                    after: View, k: H256)
    requires Clear(u, h, v) && Clear(u, h, after) && k in u.keys && (written ==> v.disk == target)
    requires Stored(u, v.disk, target, v.pending, v.counted, latest, g)
    requires after.disk == v.disk && (Inserting(v.tx, k) || k in Held(v.counted) ==> Somewhere(after, k))
    ensures StillRead(h, v, after, k) || Forgettable(g, v.pending, written, k)
  {
    assert LeavingNode(u, v.disk, target, v.pending, g.dropped, k);
    if !Forgettable(g, v.pending, written, k) { ReadOn(u, h, v, after, k); }
  }

  /** What was read is still read, but for what can be forgotten. */
  ghost predicate ForgetsOnly(u: Universe, h: HashFn, before: View, after: View, g: Ledger, written: bool) {
    forall k: H256 :: k in u.keys ==> StillRead(h, before, after, k) || Forgettable(g, before.pending, written, k)
  }

  /** Forgetting the pending overlay loses exactly the nodes that are nowhere else. */
  lemma ForgetExactly(u: Universe, h: HashFn, v: View, k: H256)
    requires Clear(u, h, v) && k in u.keys
    ensures StillRead(h, v, v.(pending := map[]), k) <==>
      (Short(k) in v.pending ==> Inserting(v.tx, k) || k in Held(v.counted) || k in v.disk)
  {
    forall s ensures PendingFor(u, map[], s) { }
    ReadsRight(u, h, v, k);
    ReadsRight(u, h, v.(pending := map[]), k);
  }

  lemma ForgetThenRead(u: Universe, h: HashFn, v: View, between: View, after: View, g: Ledger, written: bool)
    requires ForgetsOnly(u, h, v, between, g, written) && AllStillRead(u, h, between, after)
    ensures ForgetsOnly(u, h, v, after, g, written)
  {
    forall k: H256 | k in u.keys ensures StillRead(h, v, after, k) || Forgettable(g, v.pending, written, k) {
      assert StillRead(h, v, between, k) || Forgettable(g, v.pending, written, k);
    }
  }

  /** Forgetting, as one step. */
  lemma Forgotten(u: Universe, h: HashFn, v: View, size: int, target: Disk, latest: Option<nat>, g: Ledger,
                  written: bool)
    requires Sound(u, h, v, size, target, latest, g) && (written ==> v.disk == target)
    ensures Sound(u, h, v.(pending := map[]), size, target, latest, Forgot(u, g, v.pending, written))
    ensures ForgetsOnly(u, h, v, v.(pending := map[]), g, written)
  {
    ForgotStored(u, h, v.disk, target, v.pending, v.counted, latest, g, written);
    forall k: H256 | k in u.keys
      ensures StillRead(h, v, v.(pending := map[]), k) || Forgettable(g, v.pending, written, k)
    {
      ForgetReads(u, h, v, target, latest, g, written, v.(pending := map[]), k);
    }
  }

  // ---- journalling ----

  /** A journalled block, in an era whose records are all known. */
  lemma StoredAdded(u: Universe, disk: Disk, d: Disk, j: Journal, latest: Option<nat>, g: Ledger, now: nat,
                    e: JournalEntry, after: Journal, latestAfter: Option<nat>)
    requires after == j[now := EntriesOf(j, now) + [e]] && latestAfter == LatestWith(latest, now) && now !in g.lost
    requires Stored(u, disk, d, map[], j, latest, g) && now < U64_RANGE && |EntriesOf(j, now)| + 1 < U64_RANGE
    requires EntryOk(u, e) && |Record(u.content, e)| < RLP_LIMIT
    requires forall i :: 0 <= i < |EntriesOf(j, now)| ==> EntriesOf(j, now)[i].id != e.id
    ensures Stored(u, disk, DiskWithEntry(u, d, j, latest, now, e), map[], after, latestAfter, g)
  {
    AddedAll(u, d, j, latest, now, e, g.lost, after);
    AddedNodes(u, d, j, latest, now, e, Held(j), g.live, g.stranded);
    HeldAdd(j, now, e);
    AddedCovered(u, disk, d, j, latest, g, now, e);
  }

  lemma AddedAll(u: Universe, d: Disk, j: Journal, latest: Option<nat>, now: nat, e: JournalEntry, lost: Journal,
                 after: Journal)
    requires after == j[now := EntriesOf(j, now) + [e]] && now !in lost && j.Keys !! lost.Keys
    requires JournalOnDisk(u, d, Both(j, lost), latest) && now < U64_RANGE && |EntriesOf(j, now)| + 1 < U64_RANGE
    requires EntryOk(u, e) && |Record(u.content, e)| < RLP_LIMIT
    requires forall i :: 0 <= i < |EntriesOf(j, now)| ==> EntriesOf(j, now)[i].id != e.id
    ensures JournalOnDisk(u, DiskWithEntry(u, d, j, latest, now, e), Both(after, lost), LatestWith(latest, now))
    ensures after.Keys !! lost.Keys
  {
    BothAdded(j, lost, now, e);
    AddedOnDisk(u, d, Both(j, lost), latest, now, e);
  }

  lemma BothAdded(j: Journal, lost: Journal, now: nat, e: JournalEntry)
    requires now !in lost
    ensures EntriesOf(Both(j, lost), now) == EntriesOf(j, now)
    ensures var after := EntriesOf(j, now) + [e];
      Both(j[now := after], lost) == Both(j, lost)[now := after] &&
      (j.Keys !! lost.Keys ==> j[now := after].Keys !! lost.Keys)
  {
  }

  lemma AddedCovered(u: Universe, disk: Disk, d: Disk, j: Journal, latest: Option<nat>, g: Ledger, now: nat,
                     e: JournalEntry)
    requires Covered(u, disk, d, map[], g.hidden) && Leaving(u, disk, d, map[], g.dropped)
    requires now < U64_RANGE && |EntriesOf(j, now)| < U64_RANGE
    ensures Covered(u, disk, DiskWithEntry(u, d, j, latest, now, e), map[], g.hidden)
    ensures Leaving(u, disk, DiskWithEntry(u, d, j, latest, now, e), map[], g.dropped)
  {
    var f := DiskWithEntry(u, d, j, latest, now, e);
    forall k: H256
      ensures CoveredNode(u, disk, f, map[], g.hidden, k) && LeavingNode(u, disk, f, map[], g.dropped, k)
    {
      NodeKeyApart(k, now, |EntriesOf(j, now)|);
      assert CoveredNode(u, disk, d, map[], g.hidden, k) && LeavingNode(u, disk, d, map[], g.dropped, k);
    }
  }

  /** Journalling with nothing pending keeps all that was read: the transaction's insertions are
      counted in the overlay from then on. */
  lemma BlockReads(u: Universe, h: HashFn, v: View, after: View, now: nat, e: JournalEntry)
    requires Clear(u, h, v) && Clear(u, h, after) && v.pending == map[] && after.disk == v.disk
    requires after.counted == v.counted[now := EntriesOf(v.counted, now) + [e]]
    requires forall k: H256 :: Inserting(v.tx, k) ==> k in e.insertions
    ensures AllStillRead(u, h, v, after)
  {
    HeldAdd(v.counted, now, e);
    forall k: H256 | k in u.keys ensures StillRead(h, v, after, k) {
      if Inserting(v.tx, k) { assert k in multiset(e.insertions); }
      ReadOn(u, h, v, after, k);
    }
  }

  // ---- marking ----

  ghost function MarkedLedger(g: Ledger, c: JournalEntry, siblings: set<H256>): Ledger {
    Ledger(LiveAfter(g.live, c), g.stranded + siblings, g.lost,
           g.dropped - KeySet(c.insertions) + KeySet(c.deletions), g.hidden - KeySet(c.insertions))
  }

  /** What marking a block of an era makes of the ledger. */
  ghost function LedgerMarked(g: Ledger, entries: seq<JournalEntry>, id: H256): Ledger {
    MarkedLedger(g, CanonOf(entries, id), SiblingKeys(entries, id))
  }

  /** Marking an era without entries changes nothing. */
  lemma NothingMarked(g: Ledger, j: Journal, era: nat, id: H256)
    requires era !in j
    ensures j - {era} == j && LedgerMarked(g, EntriesOf(j, era), id) == g
  {
    assert KeySet([]) == {};
  }

  /** The three changes together. */
  lemma MarkedStored(u: Universe, h: HashFn, disk: Disk, d: Disk, d1: Disk, d2: Disk, d3: Disk, j: Journal,
                     latest: Option<nat>, era: nat, id: H256, g: Ledger, pending: map<H256, bytes>,
                     after: map<H256, bytes>)
    requires era in j && Stored(u, disk, d, pending, j, latest, g) && Proper(u, h)
    requires MarkedDisk(u, d, d1, d2, d3, era, j[era], id, Held(j - {era}))
    requires PendingWith(u, pending, after, CanonOf(j[era], id).insertions)
    ensures Stored(u, disk, d3, after, j - {era}, latest, LedgerMarked(g, j[era], id))
  {
    OwnJournalOk(u, j, g.lost);
    assert EraOk(u, j, era);
    var held := Held(j - {era});
    MarkedNodes(u, d, d1, d2, d3, j, era, id, g.live, g.stranded);
    MarkedAll(u, d, d1, d2, d3, j, latest, era, id, g.lost, held);
    MarkedCovered(u, disk, d, d1, d2, d3, era, j[era], id, held, pending, after, g.hidden);
    MarkedLeaving(u, h, disk, d, d1, d2, d3, era, j[era], id, held, pending, after, g.dropped);
  }

  lemma MarkedAll(u: Universe, d: Disk, d1: Disk, d2: Disk, d3: Disk, j: Journal, latest: Option<nat>, era: nat,
                  id: H256, lost: Journal, held: multiset<H256>)
    requires era in j && j.Keys !! lost.Keys && JournalOnDisk(u, d, Both(j, lost), latest)
    requires MarkedDisk(u, d, d1, d2, d3, era, j[era], id, held)
    ensures JournalOnDisk(u, d3, Both(j - {era}, lost), latest)
  {
    assert Both(j, lost)[era] == j[era] && Both(j - {era}, lost) == Both(j, lost) - {era};
    MarkedRecords(u, d, d1, d2, d3, Both(j, lost), latest, era, id, held);
  }

  /** What only the other blocks of an era insert. */
  ghost predicate OnlySiblings(entries: seq<JournalEntry>, id: H256, k: H256) {
    k in SiblingKeys(entries, id) && k !in CanonOf(entries, id).insertions
  }

  /** A mark makes nothing unreadable but what only discarded blocks of the era inserted. */
  lemma MarkReads(u: Universe, h: HashFn, v: View, after: View, era: nat, id: H256, k: H256)
    requires Clear(u, h, v) && Clear(u, h, after) && k in u.keys && JournalOk(u, v.counted)
    requires after.tx == v.tx && after.disk == v.disk && after.counted == v.counted - {era}
    requires PendingWith(u, v.pending, after.pending, CanonOf(EntriesOf(v.counted, era), id).insertions)
    ensures StillRead(h, v, after, k) || OnlySiblings(EntriesOf(v.counted, era), id, k)
  {
    var entries := EntriesOf(v.counted, era);
    HeldWithout(v.counted, era);
    assert era in v.counted ==> EraOk(u, v.counted, era);
    if k in InsertedBy(entries) { InsertedSplit(entries, id, k); }
    assert KeptPending(v.pending, after.pending, Short(k));
    assert PutPending(after.pending, CanonOf(entries, id).insertions, k);
    if !OnlySiblings(entries, id, k) { ReadOn(u, h, v, after, k); }
  }

  /** A mark takes the promise to be readable only from deleted nodes and from those which only
      discarded blocks inserted. */
  lemma MarkKeeps(u: Universe, j: Journal, era: nat, id: H256, live: set<H256>, k: H256)
    requires JournalOk(u, j) && (k in live || k in Held(j))
    ensures var c := CanonOf(EntriesOf(j, era), id);
      k in LiveAfter(live, c) || k in Held(j - {era}) || k in c.deletions || OnlySiblings(EntriesOf(j, era), id, k)
  {
    HeldWithout(j, era);
    if era in j { assert EraOk(u, j, era); }
    if k in InsertedBy(EntriesOf(j, era)) { InsertedSplit(EntriesOf(j, era), id, k); }
  }

  /** In runs with one block per era nothing is ever stranded. */
  lemma OnlyBlockStrandsNothing(entries: seq<JournalEntry>, id: H256)
    requires |entries| <= 1 && (entries != [] ==> entries[0].id == id)
    ensures SiblingKeys(entries, id) == {}
  {
    if entries != [] { assert SiblingKeys(entries[..0], id) == {}; }
  }

  // ---- opening ----

  /** An empty disk is that of a database that has not seen any block. */
  lemma EmptyDisk(u: Universe)
    ensures Written(u, map[], map[], multiset{}, None, {}, {})
  {
    var d: Disk, j: Journal := map[], map[];
    forall era: nat, index: nat ensures KeyOnDisk(d, j, era, index) && RecordAt(u, d, j, era, index) { }
    forall era ensures EraUpTo(j, None, era) { }
    forall k ensures LiveOnDisk(u, d, {}, k) && NodeOnDisk(u, d, multiset{}, {}, {}, k) { }
  }

  /** The ledger of a database that recovered only part of the journal on its disk. */
  ghost function Opened(all: Journal, found: Journal, held: multiset<H256>, live: set<H256>,
                        stranded: set<H256>): Ledger {
    Ledger(live, stranded + (set k | k in held && k !in Held(found)), all - found.Keys, {}, {})
  }

  lemma OpenedStored(u: Universe, d: Disk, all: Journal, held: multiset<H256>, latest: Option<nat>, live: set<H256>,
                     stranded: set<H256>)
    requires Written(u, d, all, held, latest, live, stranded)
    ensures var found := RecoveredJournal(all, latest);
      Stored(u, d, d, map[], found, latest, Opened(all, found, held, live, stranded))
  {
    var found := RecoveredJournal(all, latest);
    var g := Opened(all, found, held, live, stranded);
    assert Both(found, g.lost) == all;
    OpenedNodes(u, d, held, Held(found), live, stranded);
    forall k
      ensures CoveredNode(u, d, d, map[], {}, k) && RightNode(u, d, k) && LeavingNode(u, d, d, map[], {}, k)
    {
      assert NodeOnDisk(u, d, held, live, stranded, k);
    }
    forall s ensures PendingFor(u, map[], s) { }
  }

  /** What is held no longer is stranded. */
  lemma OpenedNodes(u: Universe, d: Disk, held: multiset<H256>, after: multiset<H256>, live: set<H256>,
                    stranded: set<H256>)
    requires NodesOnDisk(u, d, held, live, stranded)
    ensures NodesOnDisk(u, d, after, live, stranded + set k | k in held && k !in after)
  {
    var more := stranded + set k | k in held && k !in after;
    forall k ensures NodeOnDisk(u, d, after, live, more, k) { assert NodeOnDisk(u, d, held, live, stranded, k); }
  }

  /** What a database with all written leaves behind. */
  lemma LeftWritten(u: Universe, d: Disk, pending: map<H256, bytes>, j: Journal, latest: Option<nat>, g: Ledger)
    requires Stored(u, d, d, pending, j, latest, g)
    ensures Written(u, d, Both(j, g.lost), Held(j), latest, g.live, g.stranded)
  {
  }

  /** What a written disk does not have, or not in a way that opening finds. */
  ghost predicate OnlyInMemory(v: View, found: Journal, g: Ledger, k: H256) {
    Inserting(v.tx, k) || Forgettable(g, v.pending, true, k) || (k in Held(v.counted) && k !in Held(found))
  }

  /** What was read is still read, but for that. */
  ghost predicate ReopensOnly(u: Universe, h: HashFn, before: View, after: View, g: Ledger) {
    forall k: H256 :: k in u.keys ==>
      StillRead(h, before, after, k) || OnlyInMemory(before, after.counted, g, k)
  }

  /** Opening again makes unreadable only what was not journalled, dropped nodes that were still
      pending, and what only the journal's lost part inserted. */
  lemma ReopenReads(u: Universe, h: HashFn, v: View, after: View, latest: Option<nat>, g: Ledger)
    requires Clear(u, h, v) && Clear(u, h, after) && after.disk == v.disk
    requires Stored(u, v.disk, v.disk, v.pending, v.counted, latest, g)
    ensures ReopensOnly(u, h, v, after, g)
  {
    forall k: H256 | k in u.keys ensures StillRead(h, v, after, k) || OnlyInMemory(v, after.counted, g, k) {
      assert LeavingNode(u, v.disk, v.disk, v.pending, g.dropped, k);
      if Somewhere(v, k) ==> Somewhere(after, k) { ReadOn(u, h, v, after, k); }
    }
  }
}
