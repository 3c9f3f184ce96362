/** What holds of a pruning journal between its steps: the overlay counts the journal, the disk
    with all outstanding writes holds the records and every live node, and the pending overlay
    covers what is not written yet. */
module JournalStates {
  import opened Bytes
  import opened TrieNode
  import opened HashStore
  import opened JournalRecords
  import opened JournalCounts

  type Disk = map<bytes, bytes>

  datatype Op = Put(key: bytes, value: bytes) | Delete(key: bytes)

  function ApplyOp(d: Disk, op: Op): Disk {
    match op
    case Put(k, v) => d[k := v]
    case Delete(k) => d - {k}
  }

  /** The disk once a batch is written, in order. */
  function Applied(d: Disk, ops: seq<Op>): Disk {
    if ops == [] then d else ApplyOp(Applied(d, ops[..|ops| - 1]), ops[|ops| - 1])
  }

  lemma AppliedSnoc(d: Disk, ops: seq<Op>, op: Op)
    ensures Applied(d, ops + [op]) == ApplyOp(Applied(d, ops), op)
  {
    assert (ops + [op])[..|ops|] == ops;
  }

  // ---- the entries of an era ----

  ghost predicate EntryOk(u: Universe, e: JournalEntry) {
    (forall k :: k in e.insertions ==> k in u.keys && k !in e.deletions) &&
      (forall k :: k in e.deletions ==> k in u.keys)
  }

  ghost predicate UniqueIds(entries: seq<JournalEntry>) {
    forall a, b :: 0 <= a < b < |entries| ==> entries[a].id != entries[b].id
  }

  ghost predicate JournalOk(u: Universe, j: Journal) {
    forall era :: era in j ==> EraOk(u, j, era)
  }

  ghost predicate EraOk(u: Universe, j: Journal, era: nat)
    requires era in j
  {
    era < U64_RANGE && 0 < |j[era]| < U64_RANGE && UniqueIds(j[era]) &&
    forall i :: 0 <= i < |j[era]| ==> EntryOk(u, j[era][i])
  }

  /** The entry of the canonical block, empty when there is none. */
  function CanonOf(entries: seq<JournalEntry>, id: H256): (c: JournalEntry)
    ensures c.id == id
  {
    if entries == [] then JournalEntry(id, [], [])
    else
      var last := entries[|entries| - 1];
      if last.id == id then last else CanonOf(entries[..|entries| - 1], id)
  }

  /** What only the other blocks of the era insert. */
  ghost function SiblingKeys(entries: seq<JournalEntry>, id: H256): set<H256> {
    if entries == [] then {}
    else
      var last := entries[|entries| - 1];
      SiblingKeys(entries[..|entries| - 1], id) + if last.id == id then {} else set k | k in last.insertions
  }

  lemma {:induction false} CanonIsEntry(u: Universe, entries: seq<JournalEntry>, id: H256)
    requires forall i :: 0 <= i < |entries| ==> EntryOk(u, entries[i])
    ensures EntryOk(u, CanonOf(entries, id))
  {
    if entries != [] && entries[|entries| - 1].id != id { CanonIsEntry(u, entries[..|entries| - 1], id); }
  }

  lemma {:induction false} NoCanon(entries: seq<JournalEntry>, id: H256)
    requires forall i :: 0 <= i < |entries| ==> entries[i].id != id
    ensures CanonOf(entries, id) == JournalEntry(id, [], [])
  {
    if entries != [] { NoCanon(entries[..|entries| - 1], id); }
  }

  /** An era's insertions are the canonical block's or some other block's. */
  lemma {:induction false} InsertedSplit(entries: seq<JournalEntry>, id: H256, k: H256)
    requires k in InsertedBy(entries) && UniqueIds(entries)
    ensures k in CanonOf(entries, id).insertions || k in SiblingKeys(entries, id)
  {
    var front, last := entries[..|entries| - 1], entries[|entries| - 1];
    if k in multiset(last.insertions) {
      assert k in last.insertions;
    } else {
      InsertedSplit(front, id, k);
      if last.id == id { NoCanon(front, id); }
    }
  }

  lemma {:induction false} InsertedFrom(entries: seq<JournalEntry>, i: nat)
    requires i < |entries|
    ensures multiset(entries[i].insertions) <= InsertedBy(entries)
  {
    if i < |entries| - 1 { InsertedFrom(entries[..|entries| - 1], i); }
  }

  // ---- the disk ----

  ghost predicate KeyOnDisk(d: Disk, j: Journal, era: nat, index: nat) {
    era < U64_RANGE && index < U64_RANGE ==> (RecordKey(era, index) in d <==> index < |EntriesOf(j, era)|)
  }

  /** A record is under a key exactly when the journal has such an entry. */
  ghost predicate RecordKeysOnDisk(d: Disk, j: Journal) {
    forall era: nat, index: nat :: KeyOnDisk(d, j, era, index)
  }

  ghost predicate RecordAt(u: Universe, d: Disk, j: Journal, era: nat, index: nat) {
    era < U64_RANGE && index < |EntriesOf(j, era)| ==>
      RecordKey(era, index) in d && d[RecordKey(era, index)] == Record(u.content, EntriesOf(j, era)[index]) &&
      |Record(u.content, EntriesOf(j, era)[index])| < RLP_LIMIT
  }

  ghost predicate RecordsOnDisk(u: Universe, d: Disk, j: Journal) {
    forall era: nat, index: nat :: RecordAt(u, d, j, era, index)
  }

  ghost predicate EraUpTo(j: Journal, latest: Option<nat>, era: nat) {
    era in j ==> latest.Some? && era <= latest.value
  }

  ghost predicate LatestOnDisk(d: Disk, j: Journal, latest: Option<nat>) {
    (LATEST_ERA_KEY in d <==> latest.Some?) &&
    (latest.Some? ==> latest.value < U64_RANGE && d[LATEST_ERA_KEY] == EraValue(latest.value)) &&
    (forall era :: EraUpTo(j, latest, era))
  }

  /** The disk holds the journal. */
  ghost predicate JournalOnDisk(u: Universe, d: Disk, j: Journal, latest: Option<nat>) {
    JournalOk(u, j) && RecordKeysOnDisk(d, j) && RecordsOnDisk(u, d, j) && LatestOnDisk(d, j, latest)
  }

  ghost predicate LiveOnDisk(u: Universe, d: Disk, live: set<H256>, k: H256) {
    k in live ==> k in u.keys && k in d
  }

  ghost predicate NodeOnDisk(u: Universe, d: Disk, held: multiset<H256>, live: set<H256>, stranded: set<H256>,
                             k: H256) {
    k in u.keys && k in d ==> d[k] == u.content(k) && (k in live || k in held || k in stranded)
  }

  /** Every live node is on disk; a node on disk is live, or inserted again by a journalled block,
      or was inserted by a block that was discarded. */
  ghost predicate NodesOnDisk(u: Universe, d: Disk, held: multiset<H256>, live: set<H256>, stranded: set<H256>) {
    (forall k :: LiveOnDisk(u, d, live, k)) && (forall k :: NodeOnDisk(u, d, held, live, stranded, k))
  }

  ghost predicate CoveredNode(u: Universe, disk: Disk, target: Disk, pending: map<H256, bytes>, hidden: set<H256>,
                              k: H256) {
    k in u.keys && k in target && k !in disk ==> Short(k) in pending || k in hidden
  }

  ghost predicate RightNode(u: Universe, disk: Disk, k: H256) {
    k in u.keys && k in disk ==> disk[k] == u.content(k)
  }

  ghost predicate DiskRight(u: Universe, disk: Disk) {
    forall k :: RightNode(u, disk, k)
  }

  ghost predicate PendingFor(u: Universe, pending: map<H256, bytes>, s: H256) {
    s in pending ==> u.full(s) in u.keys && Short(u.full(s)) == s && pending[s] == u.content(u.full(s))
  }

  /** Nodes on their way to the disk can be read from the pending overlay, unless they are hidden. */
  ghost predicate Covered(u: Universe, disk: Disk, target: Disk, pending: map<H256, bytes>, hidden: set<H256>) {
    (forall k :: CoveredNode(u, disk, target, pending, hidden, k)) && PendingRight(u, pending) && DiskRight(u, disk)
  }

  ghost predicate LeavingNode(u: Universe, disk: Disk, target: Disk, pending: map<H256, bytes>, dropped: set<H256>,
                              k: H256) {
    k in u.keys && (k in disk || Short(k) in pending) && k !in target ==> k in dropped
  }

  /** Nodes that are still there or pending, but will not be once all is written, were dropped. */
  ghost predicate Leaving(u: Universe, disk: Disk, target: Disk, pending: map<H256, bytes>, dropped: set<H256>) {
    forall k :: LeavingNode(u, disk, target, pending, dropped, k)
  }

  ghost predicate PendingRight(u: Universe, pending: map<H256, bytes>) {
    forall s :: PendingFor(u, pending, s)
  }

  /** Only what was not yet journalled; counts from zero on come with the right value. */
  ghost predicate TxOk(u: Universe, tx: Data) {
    forall k :: k in tx ==> k in u.keys && (tx[k].rc >= 0 ==> tx[k].value == u.content(k))
  }

  // ---- node keys are not journal keys ----

  lemma NodeKeyApart(k: H256, era: nat, index: nat)
    requires era < U64_RANGE && index < U64_RANGE
    ensures k != RecordKey(era, index) && k != LATEST_ERA_KEY && RecordKey(era, index) != LATEST_ERA_KEY
  {
    RecordKeyLength(era, index);
  }

  // ---- journalling a block ----

  /** The disk with one more record and the marker moved up. */
  function DiskWithEntry(u: Universe, d: Disk, j: Journal, latest: Option<nat>, now: nat, e: JournalEntry): Disk {
    var d' := d[RecordKey(now, |EntriesOf(j, now)|) := Record(u.content, e)];
    if latest.None? || now > latest.value then d'[LATEST_ERA_KEY := EraValue(now)] else d'
  }

  function LatestWith(latest: Option<nat>, now: nat): Option<nat> {
    if latest.None? || now > latest.value then Some(now) else latest
  }

  lemma AddedOnDisk(u: Universe, d: Disk, j: Journal, latest: Option<nat>, now: nat, e: JournalEntry)
    requires JournalOnDisk(u, d, j, latest) && now < U64_RANGE && |EntriesOf(j, now)| + 1 < U64_RANGE
    requires EntryOk(u, e) && |Record(u.content, e)| < RLP_LIMIT
    requires forall i :: 0 <= i < |EntriesOf(j, now)| ==> EntriesOf(j, now)[i].id != e.id
    ensures JournalOnDisk(u, DiskWithEntry(u, d, j, latest, now, e), j[now := EntriesOf(j, now) + [e]],
                          LatestWith(latest, now))
  {
    var k := j[now := EntriesOf(j, now) + [e]];
    var f := DiskWithEntry(u, d, j, latest, now, e);
    AddedJournalOk(u, j, now, e);
    forall era: nat, index: nat ensures KeyOnDisk(f, k, era, index) {
      if era < U64_RANGE && index < U64_RANGE { AddedKey(u, d, j, latest, now, e, era, index); }
    }
    forall era: nat, index: nat ensures RecordAt(u, f, k, era, index) {
      assert era in k ==> EraOk(u, k, era);
      if era < U64_RANGE && index < |EntriesOf(k, era)| { AddedKey(u, d, j, latest, now, e, era, index); }
      assert RecordAt(u, d, j, era, index);
    }
    forall era ensures EraUpTo(k, LatestWith(latest, now), era) { assert EraUpTo(j, latest, era); }
    NodeKeyApart(seq(32, _ => 0), now, |EntriesOf(j, now)|);
  }

  lemma AddedJournalOk(u: Universe, j: Journal, now: nat, e: JournalEntry)
    requires JournalOk(u, j) && now < U64_RANGE && |EntriesOf(j, now)| + 1 < U64_RANGE && EntryOk(u, e)
    requires forall i :: 0 <= i < |EntriesOf(j, now)| ==> EntriesOf(j, now)[i].id != e.id
    ensures JournalOk(u, j[now := EntriesOf(j, now) + [e]])
  {
    var k := j[now := EntriesOf(j, now) + [e]];
    forall era | era in k ensures EraOk(u, k, era) {
      if era != now { assert EraOk(u, j, era); } else if now in j { assert EraOk(u, j, now); }
    }
  }

  /** Which of the two disks' contents is found under a record's key. */
  lemma AddedKey(u: Universe, d: Disk, j: Journal, latest: Option<nat>, now: nat, e: JournalEntry, era: nat, index: nat)
    requires RecordKeysOnDisk(d, j) && now < U64_RANGE && |EntriesOf(j, now)| < U64_RANGE && era < U64_RANGE &&
      index < U64_RANGE
    ensures var f, key := DiskWithEntry(u, d, j, latest, now, e), RecordKey(era, index);
      if era == now && index == |EntriesOf(j, now)| then key in f && f[key] == Record(u.content, e)
      else (key in f <==> index < |EntriesOf(j, era)|) && (key in f ==> key in d && f[key] == d[key])
  {
    NodeKeyApart(seq(32, _ => 0), era, index);
    if RecordKey(era, index) == RecordKey(now, |EntriesOf(j, now)|) {
      RecordKeyInjective(era, index, now, |EntriesOf(j, now)|);
    }
    assert KeyOnDisk(d, j, era, index);
  }

  lemma AddedNodes(u: Universe, d: Disk, j: Journal, latest: Option<nat>, now: nat, e: JournalEntry,
                   held: multiset<H256>, live: set<H256>, stranded: set<H256>)
    requires NodesOnDisk(u, d, held, live, stranded) && now < U64_RANGE && |EntriesOf(j, now)| < U64_RANGE
    ensures NodesOnDisk(u, DiskWithEntry(u, d, j, latest, now, e), held + multiset(e.insertions), live, stranded)
  {
    var f := DiskWithEntry(u, d, j, latest, now, e);
    forall k: H256 ensures LiveOnDisk(u, f, live, k) {
      NodeKeyApart(k, now, |EntriesOf(j, now)|);
      assert LiveOnDisk(u, d, live, k);
    }
    forall k: H256 ensures NodeOnDisk(u, f, held + multiset(e.insertions), live, stranded, k) {
      NodeKeyApart(k, now, |EntriesOf(j, now)|);
      assert NodeOnDisk(u, d, held, live, stranded, k);
    }
  }

  // ---- marking an era ----

  /** The first n records of an era deleted. */
  ghost predicate RecordsDropped(d: Disk, f: Disk, era: nat, n: nat) {
    (forall i :: 0 <= i < n ==> RecordKey(era, i) !in f) &&
    (forall key: bytes :: key in f ==> key in d && f[key] == d[key]) &&
    (forall key: bytes :: key in d && key !in f ==> IsRecordOf(key, era, n))
  }

  ghost predicate IsRecordOf(key: bytes, era: nat, n: nat) {
    exists i :: 0 <= i < n && key == RecordKey(era, i)
  }

  lemma RecordsDroppedStep(d: Disk, f: Disk, era: nat, n: nat)
    requires RecordsDropped(d, f, era, n)
    ensures RecordsDropped(d, f - {RecordKey(era, n)}, era, n + 1)
  {
    var g := f - {RecordKey(era, n)};
    forall key | key in d && key !in g ensures IsRecordOf(key, era, n + 1) {
      if key in f {
        assert key == RecordKey(era, n);
      } else {
        var i :| 0 <= i < n && key == RecordKey(era, i);
      }
    }
  }

  /** The listed nodes put, each with its value. */
  ghost predicate NodesPut(u: Universe, d: Disk, f: Disk, keys: seq<H256>) {
    forall key: bytes ::
      (key in f <==> key in d || key in keys) &&
      (key in keys ==> f[key] == u.content(key)) && (key in d && key !in keys ==> f[key] == d[key])
  }

  /** The listed nodes deleted, but not those held. */
  ghost predicate NodesDropped(d: Disk, f: Disk, keys: seq<H256>, held: multiset<H256>) {
    forall key: bytes ::
      (key in f <==> key in d && !(key in keys && key !in held)) && (key in f ==> f[key] == d[key])
  }

  function KeySet(keys: seq<H256>): set<H256> {
    set k | k in keys
  }

  function LiveAfter(live: set<H256>, c: JournalEntry): set<H256> {
    live + KeySet(c.insertions) - KeySet(c.deletions)
  }

  /** The three changes a marked era makes to the disk. */
  ghost predicate MarkedDisk(u: Universe, d: Disk, d1: Disk, d2: Disk, d3: Disk, era: nat, entries: seq<JournalEntry>,
                             id: H256, held: multiset<H256>) {
    RecordsDropped(d, d1, era, |entries|) && NodesPut(u, d1, d2, CanonOf(entries, id).insertions) &&
    NodesDropped(d2, d3, CanonOf(entries, id).deletions, held)
  }

  lemma NodeSurvives(k: H256, d: Disk, f: Disk, era: nat, n: nat)
    requires RecordsDropped(d, f, era, n) && era < U64_RANGE && n <= U64_RANGE && k in d
    ensures k in f && f[k] == d[k]
  {
    if k !in f {
      var i :| 0 <= i < n && k == RecordKey(era, i);
      NodeKeyApart(k, era, i);
    }
  }

  /** Live nodes stay on disk, and no other node does without a reason. */
  lemma MarkedNodes(u: Universe, d: Disk, d1: Disk, d2: Disk, d3: Disk, j: Journal, era: nat, id: H256,
                    live: set<H256>, stranded: set<H256>)
    requires JournalOk(u, j) && era in j
    requires MarkedDisk(u, d, d1, d2, d3, era, j[era], id, Held(j - {era}))
    requires NodesOnDisk(u, d, Held(j), live, stranded)
    ensures NodesOnDisk(u, d3, Held(j - {era}), LiveAfter(live, CanonOf(j[era], id)),
                        stranded + SiblingKeys(j[era], id))
  {
    assert EraOk(u, j, era);
    var c := CanonOf(j[era], id);
    CanonIsEntry(u, j[era], id);
    forall k ensures LiveOnDisk(u, d3, LiveAfter(live, c), k) {
      assert LiveOnDisk(u, d, live, k);
      if k in live { NodeSurvives(k, d, d1, era, |j[era]|); }
    }
    forall k ensures NodeOnDisk(u, d3, Held(j - {era}), LiveAfter(live, c), stranded + SiblingKeys(j[era], id), k) {
      if k in u.keys && k in d3 { MarkedNode(u, d, d1, d2, d3, j, era, id, live, stranded, k); }
    }
  }

  lemma MarkedNode(u: Universe, d: Disk, d1: Disk, d2: Disk, d3: Disk, j: Journal, era: nat, id: H256,
                   live: set<H256>, stranded: set<H256>, k: H256)
    requires JournalOk(u, j) && era in j && k in u.keys && k in d3
    requires MarkedDisk(u, d, d1, d2, d3, era, j[era], id, Held(j - {era}))
    requires NodesOnDisk(u, d, Held(j), live, stranded)
    ensures d3[k] == u.content(k)
    ensures k in LiveAfter(live, CanonOf(j[era], id)) || k in Held(j - {era}) || k in stranded + SiblingKeys(j[era], id)
  {
    assert EraOk(u, j, era);
    var c := CanonOf(j[era], id);
    CanonIsEntry(u, j[era], id);
    if k !in c.insertions {
      assert k in d1 && k in d && NodeOnDisk(u, d, Held(j), live, stranded, k);
      if k in Held(j) && k !in Held(j - {era}) {
        HeldTake(j, era);
        InsertedSplit(j[era], id, k);
      }
    }
  }

  /** The other eras' records and the marker stay. */
  lemma MarkedRecords(u: Universe, d: Disk, d1: Disk, d2: Disk, d3: Disk, j: Journal, latest: Option<nat>, era: nat,
                      id: H256, held: multiset<H256>)
    requires JournalOnDisk(u, d, j, latest) && era in j
    requires MarkedDisk(u, d, d1, d2, d3, era, j[era], id, held)
    ensures JournalOnDisk(u, d3, j - {era}, latest)
  {
    assert EraOk(u, j, era);
    var k := j - {era};
    forall e | e in k ensures EraOk(u, k, e) { assert EraOk(u, j, e); }
    forall e: nat, index: nat ensures KeyOnDisk(d3, k, e, index) {
      if e < U64_RANGE && index < U64_RANGE { MarkedKey(u, d, d1, d2, d3, j, era, id, held, e, index); }
    }
    forall e: nat, index: nat ensures RecordAt(u, d3, k, e, index) {
      assert e in j ==> EraOk(u, j, e);
      if e < U64_RANGE && index < |EntriesOf(k, e)| { MarkedKey(u, d, d1, d2, d3, j, era, id, held, e, index); }
      assert RecordAt(u, d, j, e, index);
    }
    forall e ensures EraUpTo(k, latest, e) { assert EraUpTo(j, latest, e); }
    MarkerStays(u, d, d1, d2, d3, era, j[era], id, held);
  }

  lemma MarkerStays(u: Universe, d: Disk, d1: Disk, d2: Disk, d3: Disk, era: nat, entries: seq<JournalEntry>, id: H256,
                    held: multiset<H256>)
    requires MarkedDisk(u, d, d1, d2, d3, era, entries, id, held) && era < U64_RANGE && |entries| < U64_RANGE
    ensures LATEST_ERA_KEY in d3 <==> LATEST_ERA_KEY in d
    ensures LATEST_ERA_KEY in d ==> d3[LATEST_ERA_KEY] == d[LATEST_ERA_KEY]
  {
    var key := LATEST_ERA_KEY;
    assert |key| == 12;
    assert key !in CanonOf(entries, id).insertions && key !in CanonOf(entries, id).deletions;
    if key in d && key !in d1 {
      var i :| 0 <= i < |entries| && key == RecordKey(era, i);
      NodeKeyApart(seq(32, _ => 0), era, i);
    }
  }

  lemma MarkedKey(u: Universe, d: Disk, d1: Disk, d2: Disk, d3: Disk, j: Journal, era: nat, id: H256,
                  held: multiset<H256>, e: nat, index: nat)
    requires JournalOk(u, j) && RecordKeysOnDisk(d, j) && era in j && e < U64_RANGE && index < U64_RANGE
    requires MarkedDisk(u, d, d1, d2, d3, era, j[era], id, held)
    ensures RecordKey(e, index) in d3 <==> index < |EntriesOf(j - {era}, e)|
    ensures RecordKey(e, index) in d3 ==> RecordKey(e, index) in d && d3[RecordKey(e, index)] == d[RecordKey(e, index)]
  {
    var key := RecordKey(e, index);
    var c := CanonOf(j[era], id);
    RecordKeyLength(e, index);
    assert key !in c.insertions && key !in c.deletions;
    assert EraOk(u, j, era);
    assert KeyOnDisk(d, j, e, index);
    if key in d && key !in d1 {
      var i :| 0 <= i < |j[era]| && key == RecordKey(era, i);
      RecordKeyInjective(e, index, era, i);
    }
  }

  /** What is put is pending until it is written. */
  lemma MarkedCovered(u: Universe, disk: Disk, d: Disk, d1: Disk, d2: Disk, d3: Disk, era: nat,
                      entries: seq<JournalEntry>, id: H256, held: multiset<H256>, pending: map<H256, bytes>,
                      after: map<H256, bytes>, hidden: set<H256>)
    requires Covered(u, disk, d, pending, hidden) && MarkedDisk(u, d, d1, d2, d3, era, entries, id, held)
    requires PendingWith(u, pending, after, CanonOf(entries, id).insertions)
    ensures Covered(u, disk, d3, after, hidden - KeySet(CanonOf(entries, id).insertions))
  {
    var c := CanonOf(entries, id);
    forall k: H256 ensures CoveredNode(u, disk, d3, after, hidden - KeySet(c.insertions), k) {
      assert CoveredNode(u, disk, d, pending, hidden, k);
      if k in d3 && k !in c.insertions { assert k in d1 && k in d; }
      assert PutPending(after, c.insertions, k) && KeptPending(pending, after, Short(k));
    }
  }

  /** Only canonical deletions leave. */
  lemma MarkedLeaving(u: Universe, h: HashFn, disk: Disk, d: Disk, d1: Disk, d2: Disk, d3: Disk, era: nat,
                      entries: seq<JournalEntry>, id: H256, held: multiset<H256>, pending: map<H256, bytes>,
                      after: map<H256, bytes>, dropped: set<H256>)
    requires Leaving(u, disk, d, pending, dropped) && MarkedDisk(u, d, d1, d2, d3, era, entries, id, held)
    requires PendingWith(u, pending, after, CanonOf(entries, id).insertions) && Proper(u, h)
    requires era < U64_RANGE && |entries| <= U64_RANGE
    ensures var c := CanonOf(entries, id);
      Leaving(u, disk, d3, after, dropped - KeySet(c.insertions) + KeySet(c.deletions))
  {
    var c := CanonOf(entries, id);
    forall k: H256
      ensures LeavingNode(u, disk, d3, after, dropped - KeySet(c.insertions) + KeySet(c.deletions), k)
    {
      assert LeavingNode(u, disk, d, pending, dropped, k) && NewPending(u, pending, after, c.insertions, Short(k));
      if k in d { NodeSurvives(k, d, d1, era, |entries|); }
    }
  }

  ghost predicate KeptPending(before: map<H256, bytes>, after: map<H256, bytes>, s: H256) {
    s in before ==> s in after && after[s] == before[s]
  }

  ghost predicate PutPending(after: map<H256, bytes>, keys: seq<H256>, k: H256) {
    k in keys ==> Short(k) in after
  }

  ghost predicate NewPending(u: Universe, before: map<H256, bytes>, after: map<H256, bytes>, keys: seq<H256>, s: H256) {
    s in after ==> s in before || u.full(s) in keys
  }

  /** Pending as before, and the keys put since. */
  ghost predicate PendingWith(u: Universe, before: map<H256, bytes>, after: map<H256, bytes>, keys: seq<H256>) {
    (forall s :: KeptPending(before, after, s)) && (forall k :: PutPending(after, keys, k)) &&
    (forall s :: NewPending(u, before, after, keys, s)) && PendingRight(u, after)
  }
}
