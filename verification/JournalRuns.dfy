/** Whole runs of the pruning journal from an empty disk: blocks journalled, eras marked, batches
    written and flushed, and at any time the database stopped and opened again. */
module JournalRuns {
  import opened Bytes
  import opened TrieNode
  import opened HashStore
  import opened JournalRecords
  import opened JournalCounts
  import opened JournalStates
  import opened JournalRecovery
  import opened JournalPromises
  import opened Journals

  datatype TxOp = Put(key: H256, value: bytes) | Drop(key: H256)

  datatype Step =
    | Block(now: nat, id: H256, ops: seq<TxOp>)
    | Mark(era: nat, canonId: H256)
    | Write
    | Flush
    | Restart

  /** The transaction a block's operations leave. */
  function TxOf(h: HashFn, ops: seq<TxOp>): Data {
    if ops == [] then map[] else TxWith(h, TxOf(h, ops[..|ops| - 1]), ops[|ops| - 1])
  }

  function TxWith(h: HashFn, tx: Data, op: TxOp): Data {
    match op
    case Put(k, v) => DbEmplace(tx, k, v)
    case Drop(k) => DbRemove(h, tx, k)
  }

  lemma TxNext(h: HashFn, ops: seq<TxOp>, i: nat)
    requires i < |ops|
    ensures TxOf(h, ops[..i + 1]) == TxWith(h, TxOf(h, ops[..i]), ops[i])
  {
    assert ops[..i + 1][..i] == ops[..i];
  }

  // ---- what a run should do ----

  /** A block by what it inserted and deleted on balance. */
  datatype Brief = Brief(id: H256, inserted: set<H256>, deleted: set<H256>)

  type Briefs = map<nat, seq<Brief>>

  /** What the disk holds since the last write: the eras with records, what the blocks then in memory
      inserted, the latest era, and the live and stranded nodes. */
  datatype Kept = Kept(journal: Briefs, inserted: set<H256>, latest: Option<nat>, live: set<H256>, stranded: set<H256>)

  /** The state a run is in, as far as its steps alone tell:
      - journal: the eras in memory; lost: those a restart left on disk without finding them;
      - live: the fold of the canonical blocks; stranded: what discarded and lost blocks inserted;
      - pending: canonical insertions since the pending nodes were last forgotten;
      - dropped: canonical deletions since they were last forgotten with all written;
      - hidden: nodes forgotten before they were written, and not written since;
      - kept: the state at the last write. */
  datatype Sketch = Sketch(journal: Briefs, lost: Briefs, latest: Option<nat>, live: set<H256>, stranded: set<H256>,
                           pending: set<H256>, dropped: set<H256>, hidden: set<H256>, written: bool, kept: Kept)

  const START := Sketch(map[], map[], None, {}, {}, {}, {}, {}, true, Kept(map[], {}, None, {}, {}))

  function BriefOf(tx: Data, id: H256): Brief {
    Brief(id, set k | k in tx && tx[k].rc > 0, set k | k in tx && tx[k].rc < 0)
  }

  function BriefsOf(j: Briefs, era: nat): seq<Brief> {
    if era in j then j[era] else []
  }

  function CanonBrief(briefs: seq<Brief>, id: H256): Brief {
    if briefs == [] then Brief(id, {}, {})
    else if briefs[|briefs| - 1].id == id then briefs[|briefs| - 1]
    else CanonBrief(briefs[..|briefs| - 1], id)
  }

  /** What only the blocks beside the canonical one inserted. */
  function SiblingBriefs(briefs: seq<Brief>, id: H256): set<H256> {
    if briefs == [] then {}
    else
      SiblingBriefs(briefs[..|briefs| - 1], id) +
      if briefs[|briefs| - 1].id == id then {} else briefs[|briefs| - 1].inserted
  }

  /** What the blocks of a journal inserted. */
  ghost function InsertedIn(j: Briefs): set<H256> {
    set era, i, k | era in j && 0 <= i < |j[era]| && k in j[era][i].inserted :: k
  }

  function Forgetting(s: Sketch): Sketch {
    if s.written then s.(pending := {}, dropped := {}, hidden := {})
    else s.(pending := {}, hidden := s.hidden + s.pending)
  }

  function Marking(s: Sketch, era: nat, c: Brief, siblings: set<H256>): Sketch {
    s.(journal := s.journal - {era}, live := s.live + c.inserted - c.deleted, stranded := s.stranded + siblings,
       pending := s.pending + c.inserted, dropped := s.dropped - c.inserted + c.deleted,
       hidden := s.hidden - c.inserted, written := s.written && era !in s.journal)
  }

  /** Only the unbroken run of eras up to the latest is found again. */
  ghost function Found(s: Sketch): Briefs {
    RecoveredJournal(s.kept.journal, s.kept.latest)
  }

  /** Inserted in a part of the journal that is not found again. */
  ghost function LostKeys(s: Sketch): set<H256> {
    InsertedIn(s.journal) - InsertedIn(Found(s))
  }

  ghost function Next(h: HashFn, s: Sketch, step: Step): Sketch {
    match step
    case Block(now, id, ops) =>
      Forgetting(s).(journal := s.journal[now := BriefsOf(s.journal, now) + [BriefOf(TxOf(h, ops), id)]],
                     latest := LatestWith(s.latest, now), written := false)
    case Mark(era, id) =>
      Marking(s, era, CanonBrief(BriefsOf(s.journal, era), id), SiblingBriefs(BriefsOf(s.journal, era), id))
    case Write =>
      s.(hidden := {}, written := true,
         kept := Kept(s.journal + s.lost, InsertedIn(s.journal), s.latest, s.live, s.stranded))
    case Flush => Forgetting(s)
    case Restart =>
      Sketch(Found(s), s.kept.journal - Found(s).Keys, s.kept.latest, s.kept.live,
             s.kept.stranded + (s.kept.inserted - InsertedIn(Found(s))), {}, {}, {}, true, s.kept)
  }

  /** What a step may make unreadable. */
  ghost function Unreadable(s: Sketch, step: Step): set<H256> {
    match step
    case Mark(era, id) =>
      SiblingBriefs(BriefsOf(s.journal, era), id) - CanonBrief(BriefsOf(s.journal, era), id).inserted
    case Write => s.dropped
    case Restart => Forgettables(s) + LostKeys(s)
    case _ => Forgettables(s)
  }

  /** Pending nodes that the disk does not have. */
  function Forgettables(s: Sketch): set<H256> {
    if s.written then s.pending * s.dropped else s.pending
  }

  /** Keys in use, each with the value it addresses. */
  ghost predicate OpsOk(u: Universe, ops: seq<TxOp>) {
    forall i :: 0 <= i < |ops| ==> ops[i].key in u.keys && (ops[i].Put? ==> ops[i].value == u.content(ops[i].key))
  }

  /** Ids are fresh in their era, and no block comes in an era that a restart has lost. Nothing else is
      asked of a run: the database may stop at any time and lose what was not written. */
  ghost predicate Allowed(u: Universe, h: HashFn, s: Sketch, step: Step) {
    match step
    case Block(now, id, ops) =>
      now < U64_RANGE && |BriefsOf(s.journal, now)| + 1 < U64_RANGE && now !in s.lost &&
      (forall i :: 0 <= i < |BriefsOf(s.journal, now)| ==> BriefsOf(s.journal, now)[i].id != id) &&
      OpsOk(u, ops) && RecordsSmall(u, TxOf(h, ops), id)
    case _ => true
  }

  ghost function RunSketch(h: HashFn, steps: seq<Step>): Sketch {
    if steps == [] then START else Next(h, RunSketch(h, steps[..|steps| - 1]), steps[|steps| - 1])
  }

  ghost predicate AllowedRun(u: Universe, h: HashFn, steps: seq<Step>) {
    forall i :: 0 <= i < |steps| ==> Allowed(u, h, RunSketch(h, steps[..i]), steps[i])
  }

  // ---- the database does it ----

  ghost predicate Briefed(e: JournalEntry, b: Brief) {
    b == Brief(e.id, set k | k in e.insertions, set k | k in e.deletions)
  }

  ghost predicate AllBriefed(entries: seq<JournalEntry>, briefs: seq<Brief>) {
    |entries| == |briefs| && forall i :: 0 <= i < |entries| ==> Briefed(entries[i], briefs[i])
  }

  ghost predicate JournalBriefed(j: Journal, s: Briefs) {
    j.Keys == s.Keys && forall era :: era in j ==> AllBriefed(j[era], s[era])
  }

  /** The ledger is at most what the sketch tells. */
  ghost predicate LedgerBriefed(u: Universe, g: Ledger, pending: map<H256, bytes>, s: Sketch) {
    JournalBriefed(g.lost, s.lost) && g.live == s.live && g.stranded == s.stranded && g.dropped <= s.dropped &&
    g.hidden <= s.hidden && PendingKeys(u, pending) == s.pending
  }

  datatype Past = Past(all: Journal, held: multiset<H256>)

  /** The disk is one that a database in the kept state has written, with this journal and insertions. */
  ghost predicate KeptAs(u: Universe, disk: Disk, kept: Kept, past: Past) {
    Written(u, disk, past.all, past.held, kept.latest, kept.live, kept.stranded) &&
    JournalBriefed(past.all, kept.journal) && forall k :: k in past.held <==> k in kept.inserted
  }

  /** A sound database in the state of the sketch, between blocks. */
  ghost predicate InState(db: OverlayRecentDB, batch: DBTransaction, s: Sketch)
    reads db, db.transactionOverlay, db.backingOverlay, db.backing, batch
  {
    Filled(db, batch, map[], s)
  }

  /** With this transaction begun. */
  ghost predicate Filled(db: OverlayRecentDB, batch: DBTransaction, tx: Data, s: Sketch)
    reads db, db.transactionOverlay, db.backingOverlay, db.backing, batch
  {
    db.Valid(batch) && db.transactionOverlay.data == tx && JournalBriefed(db.journal, s.journal) &&
    db.latestEra == s.latest && LedgerBriefed(db.u, db.ledger, db.pendingOverlay, s) &&
    (s.written ==> batch.ops == [])
  }

  lemma {:induction false} CanonBriefed(entries: seq<JournalEntry>, briefs: seq<Brief>, id: H256)
    requires AllBriefed(entries, briefs)
    ensures Briefed(CanonOf(entries, id), CanonBrief(briefs, id))
    ensures SiblingKeys(entries, id) == SiblingBriefs(briefs, id)
  {
    if entries != [] {
      var n := |entries| - 1;
      assert Briefed(entries[n], briefs[n]);
      FrontBriefed(entries, briefs);
      CanonBriefed(entries[..n], briefs[..n], id);
    }
  }

  lemma FrontBriefed(entries: seq<JournalEntry>, briefs: seq<Brief>)
    requires AllBriefed(entries, briefs) && entries != []
    ensures AllBriefed(entries[..|entries| - 1], briefs[..|entries| - 1])
  {
    var front, frontBriefs := entries[..|entries| - 1], briefs[..|entries| - 1];
    forall i | 0 <= i < |front| ensures Briefed(front[i], frontBriefs[i]) { assert Briefed(entries[i], briefs[i]); }
  }

  lemma EraBriefed(j: Journal, s: Briefs, era: nat)
    requires JournalBriefed(j, s)
    ensures AllBriefed(EntriesOf(j, era), BriefsOf(s, era))
  {
    assert era in j <==> era in s;
  }

  lemma BlockBriefed(tx: Data, id: H256, e: JournalEntry)
    requires EntryOfTx(tx, id, e)
    ensures Briefed(e, BriefOf(tx, id))
  {
  }

  lemma AddBriefed(j: Journal, s: Briefs, now: nat, e: JournalEntry, b: Brief)
    requires JournalBriefed(j, s) && Briefed(e, b)
    ensures JournalBriefed(j[now := EntriesOf(j, now) + [e]], s[now := BriefsOf(s, now) + [b]])
  {
    EraBriefed(j, s, now);
    var k, t := j[now := EntriesOf(j, now) + [e]], s[now := BriefsOf(s, now) + [b]];
    forall era | era in k ensures AllBriefed(k[era], t[era]) {
      if era != now { assert AllBriefed(j[era], s[era]); }
    }
  }

  lemma DropBriefed(j: Journal, s: Briefs, era: nat)
    requires JournalBriefed(j, s)
    ensures JournalBriefed(j - {era}, s - {era})
  {
    forall x | x in j - {era} ensures AllBriefed((j - {era})[x], (s - {era})[x]) { assert AllBriefed(j[x], s[x]); }
  }

  /** What is held is what the blocks inserted. */
  lemma {:induction false} HeldBriefed(j: Journal, s: Briefs, k: H256)
    requires JournalBriefed(j, s)
    ensures k in Held(j) <==> k in InsertedIn(s)
    decreases |j|
  {
    if era :| era in j {
      HeldTake(j, era);
      DropBriefed(j, s, era);
      HeldBriefed(j - {era}, s - {era}, k);
      EraInserted(j[era], s[era], k);
      InsertedTake(s, era, k);
    }
  }

  lemma InsertedTake(s: Briefs, era: nat, k: H256)
    requires era in s
    ensures k in InsertedIn(s) <==>
      k in InsertedIn(s - {era}) || exists i :: 0 <= i < |s[era]| && k in s[era][i].inserted
  {
    var rest := s - {era};
    if k in InsertedIn(rest) {
      var x, i :| x in rest && 0 <= i < |rest[x]| && k in rest[x][i].inserted;
      assert x in s && s[x] == rest[x];
    }
    if k in InsertedIn(s) {
      var x, i :| x in s && 0 <= i < |s[x]| && k in s[x][i].inserted;
      assert x != era ==> x in rest && rest[x] == s[x];
    }
  }

  lemma {:induction false} EraInserted(entries: seq<JournalEntry>, briefs: seq<Brief>, k: H256)
    requires AllBriefed(entries, briefs)
    ensures k in InsertedBy(entries) <==> exists i :: 0 <= i < |briefs| && k in briefs[i].inserted
  {
    if entries != [] {
      var n := |entries| - 1;
      FrontBriefed(entries, briefs);
      EraInserted(entries[..n], briefs[..n], k);
      assert Briefed(entries[n], briefs[n]) && (k in multiset(entries[n].insertions) <==> k in briefs[n].inserted);
      if i :| 0 <= i < n && k in briefs[..n][i].inserted { assert k in briefs[i].inserted; }
      if i :| 0 <= i < n && k in briefs[i].inserted { assert k in briefs[..n][i].inserted; }
    }
  }

  /** What opening again finds, and what it leaves. */
  lemma FoundBriefed(all: Journal, s: Sketch)
    requires JournalBriefed(all, s.kept.journal)
    ensures var found := RecoveredJournal(all, s.kept.latest);
      JournalBriefed(found, Found(s)) && JournalBriefed(all - found.Keys, s.kept.journal - Found(s).Keys)
  {
    var briefs, latest := s.kept.journal, s.kept.latest;
    forall era ensures era in RecoveredJournal(all, latest) <==> era in RecoveredJournal(briefs, latest) {
      assert latest.Some? ==> (Reaches(all, era, latest.value) <==> Reaches(briefs, era, latest.value));
    }
  }

  lemma BothBriefed(j: Journal, lost: Journal, s: Sketch)
    requires JournalBriefed(j, s.journal) && JournalBriefed(lost, s.lost)
    ensures JournalBriefed(Both(j, lost), s.journal + s.lost)
    ensures forall k :: k in Held(j) <==> k in InsertedIn(s.journal)
  {
    forall k ensures k in Held(j) <==> k in InsertedIn(s.journal) { HeldBriefed(j, s.journal, k); }
  }

  /** A write leaves the disk in the present state. */
  lemma WriteKeeps(u: Universe, disk: Disk, pending: map<H256, bytes>, j: Journal, g: Ledger, h: HashFn, s: Sketch)
    requires Stored(u, disk, disk, pending, j, s.latest, g) && JournalBriefed(j, s.journal)
    requires LedgerBriefed(u, g, pending, s)
    ensures KeptAs(u, disk, Next(h, s, Write).kept, Past(Both(j, g.lost), Held(j)))
  {
    LeftWritten(u, disk, pending, j, s.latest, g);
    BothBriefed(j, g.lost, s);
  }

  // ---- what is still read ----

  /** What was read is still read, but for the given keys. */
  ghost predicate StepReads(u: Universe, h: HashFn, before: View, after: View, gone: set<H256>) {
    forall k: H256 :: k in u.keys ==> StillRead(h, before, after, k) || k in gone
  }

  /** What a transaction inserts hides nothing. */
  lemma FilledReads(u: Universe, h: HashFn, v: View, tx: Data)
    requires Clear(u, h, v) && Clear(u, h, v.(tx := tx)) && v.tx == map[]
    ensures AllStillRead(u, h, v, v.(tx := tx))
  {
    forall k: H256 | k in u.keys ensures StillRead(h, v, v.(tx := tx), k) { ReadOn(u, h, v, v.(tx := tx), k); }
  }

  /** What forgetting the pending nodes loses, in terms of the sketch. */
  lemma ForgettingReads(u: Universe, h: HashFn, before: View, between: View, after: View, g: Ledger, written: bool,
                        s: Sketch)
    requires Proper(u, h) && LedgerBriefed(u, g, between.pending, s) && (s.written ==> written)
    requires AllStillRead(u, h, before, between) && ForgetsOnly(u, h, between, after, g, written)
    ensures StepReads(u, h, before, after, Unreadable(s, Flush))
  {
    forall k: H256 | k in u.keys ensures StillRead(h, before, after, k) || k in Unreadable(s, Flush) {
      assert StillRead(h, before, between, k);
      if Forgettable(g, between.pending, written, k) { assert u.full(Short(k)) in PendingKeys(u, between.pending); }
    }
  }

  lemma MarkingReads(u: Universe, h: HashFn, before: View, after: View, entries: seq<JournalEntry>, era: nat, id: H256,
                     s: Sketch)
    requires AllBriefed(entries, BriefsOf(s.journal, era))
    requires forall k: H256 :: k in u.keys ==> StillRead(h, before, after, k) || OnlySiblings(entries, id, k)
    ensures StepReads(u, h, before, after, Unreadable(s, Mark(era, id)))
  {
    CanonBriefed(entries, BriefsOf(s.journal, era), id);
  }

  /** A restart keeps the disk, and counts again what it finds. */
  lemma RestartReads(u: Universe, h: HashFn, before: View, after: View, size: int, target: Disk,
                     latest: Option<nat>, g: Ledger, s: Sketch)
    requires Sound(u, h, before, size, target, latest, g) && Clear(u, h, after)
    requires before.tx == map[] && after.disk == before.disk
    requires LedgerBriefed(u, g, before.pending, s) && (s.written ==> target == before.disk)
    requires JournalBriefed(before.counted, s.journal) && JournalBriefed(after.counted, Found(s))
    ensures StepReads(u, h, before, after, Unreadable(s, Restart))
  {
    forall k: H256 | k in u.keys ensures StillRead(h, before, after, k) || k in Unreadable(s, Restart) {
      HeldBriefed(before.counted, s.journal, k);
      HeldBriefed(after.counted, Found(s), k);
      if Short(k) in before.pending { PendingForgettable(u, h, before.disk, target, before.pending, g, s, k); }
      if k !in Unreadable(s, Restart) { ReadOn(u, h, before, after, k); }
    }
  }

  /** A pending node is on disk or can be forgotten. */
  lemma PendingForgettable(u: Universe, h: HashFn, disk: Disk, target: Disk, pending: map<H256, bytes>, g: Ledger,
                           s: Sketch, k: H256)
    requires Proper(u, h) && Leaving(u, disk, target, pending, g.dropped) && k in u.keys && Short(k) in pending
    requires LedgerBriefed(u, g, pending, s) && (s.written ==> target == disk)
    ensures k in disk || k in Forgettables(s)
  {
    assert LeavingNode(u, disk, target, pending, g.dropped, k);
    assert u.full(Short(k)) in PendingKeys(u, pending);
  }

  // ---- the steps ----

  /** A block's operations, in the transaction. */
  method Fill(db: OverlayRecentDB, batch: DBTransaction, ops: seq<TxOp>)
    requires db.Valid(batch) && db.transactionOverlay.data == map[] && OpsOk(db.u, ops)
    modifies db.transactionOverlay
    ensures db.Valid(batch) && db.transactionOverlay.data == TxOf(db.h, ops)
    ensures AllStillRead(db.u, db.h, old(db.Now()), db.Now())
  {
    ghost var v := db.Now();
    var i := 0;
    while i < |ops|
      invariant 0 <= i <= |ops| && db.Valid(batch) && db.transactionOverlay.data == TxOf(db.h, ops[..i])
    {
      TxNext(db.h, ops, i);
      FillOne(db, batch, ops[i]);
      i := i + 1;
    }
    TakeAll(ops);
    FilledReads(db.u, db.h, v, db.transactionOverlay.data);
  }

  method FillOne(db: OverlayRecentDB, batch: DBTransaction, op: TxOp)
    requires db.Valid(batch) && op.key in db.u.keys && (op.Put? ==> op.value == db.u.content(op.key))
    modifies db.transactionOverlay
    ensures db.Valid(batch) && db.transactionOverlay.data == TxWith(db.h, old(db.transactionOverlay.data), op)
  {
    match op {
      case Put(k, v) => db.Emplace(k, v, batch);
      case Drop(k) => db.Remove(k, batch);
    }
  }

  method TakeBlock(db: OverlayRecentDB, batch: DBTransaction, now: nat, id: H256, ops: seq<TxOp>, ghost s: Sketch)
    requires InState(db, batch, s) && Allowed(db.u, db.h, s, Block(now, id, ops))
    modifies db, db.transactionOverlay, db.backingOverlay, batch
    ensures InState(db, batch, Next(db.h, s, Block(now, id, ops)))
    ensures StepReads(db.u, db.h, old(db.Now()), db.Now(), Unreadable(s, Block(now, id, ops)))
  {
    ghost var v := db.Now();
    Fill(db, batch, ops);
    TakeFilled(db, batch, now, id, ops, s, v);
  }

  method TakeFilled(db: OverlayRecentDB, batch: DBTransaction, now: nat, id: H256, ghost ops: seq<TxOp>,
                    ghost s: Sketch, ghost start: View)
    requires Filled(db, batch, TxOf(db.h, ops), s) && Allowed(db.u, db.h, s, Block(now, id, ops))
    requires AllStillRead(db.u, db.h, start, db.Now())
    modifies db, db.transactionOverlay, db.backingOverlay, batch
    ensures InState(db, batch, Next(db.h, s, Block(now, id, ops)))
    ensures StepReads(db.u, db.h, start, db.Now(), Unreadable(s, Block(now, id, ops)))
  {
    EraBriefed(db.journal, s.journal, now);
    FreshInEra(EntriesOf(db.journal, now), BriefsOf(s.journal, now), id);
    ghost var v, j, tx, g, written := db.Now(), db.journal, db.transactionOverlay.data, db.ledger, batch.ops == [];
    var count, e := db.JournalUnder(batch, now, id);
    BlockBriefed(tx, id, e);
    AddBriefed(j, s.journal, now, e, BriefOf(tx, id));
    ForgettingReads(db.u, db.h, start, v, db.Now(), g, written, s);
  }

  lemma FreshInEra(entries: seq<JournalEntry>, briefs: seq<Brief>, id: H256)
    requires AllBriefed(entries, briefs) && forall i :: 0 <= i < |briefs| ==> briefs[i].id != id
    ensures FreshId(entries, id)
  {
    forall i | 0 <= i < |entries| ensures entries[i].id != id { assert Briefed(entries[i], briefs[i]); }
  }

  method TakeMark(db: OverlayRecentDB, batch: DBTransaction, era: nat, id: H256, ghost s: Sketch)
    requires InState(db, batch, s)
    modifies db, db.backingOverlay, batch
    ensures InState(db, batch, Next(db.h, s, Mark(era, id)))
    ensures StepReads(db.u, db.h, old(db.Now()), db.Now(), Unreadable(s, Mark(era, id)))
  {
    ghost var v, entries, pending := db.Now(), EntriesOf(db.journal, era), db.pendingOverlay;
    EraBriefed(db.journal, s.journal, era);
    CanonBriefed(entries, BriefsOf(s.journal, era), id);
    DropBriefed(db.journal, s.journal, era);
    CanonInUse(db, batch, era, id);
    var count := db.MarkCanonical(batch, era, id);
    PendingMore(db.u, db.h, pending, db.pendingOverlay, CanonOf(entries, id).insertions);
    MarkingReads(db.u, db.h, v, db.Now(), entries, era, id, s);
  }

  lemma CanonInUse(db: OverlayRecentDB, batch: DBTransaction, era: nat, id: H256)
    requires db.Valid(batch)
    ensures forall k :: k in CanonOf(EntriesOf(db.journal, era), id).insertions ==> k in db.u.keys
  {
    OwnJournalOk(db.u, db.journal, db.ledger.lost);
    if era in db.journal { CanonEntryOk(db.u, db.journal, era, id); }
  }

  method TakeWrite(db: OverlayRecentDB, batch: DBTransaction, ghost s: Sketch) returns (ghost past: Past)
    requires InState(db, batch, s)
    modifies db, db.backing, batch
    ensures InState(db, batch, Next(db.h, s, Write)) && KeptAs(db.u, db.backing.data, Next(db.h, s, Write).kept, past)
    ensures StepReads(db.u, db.h, old(db.Now()), db.Now(), Unreadable(s, Write))
  {
    db.WriteBatch(batch);
    past := Past(Both(db.journal, db.ledger.lost), Held(db.journal));
    WriteKeeps(db.u, db.backing.data, db.pendingOverlay, db.journal, db.ledger, db.h, s);
  }

  method TakeFlush(db: OverlayRecentDB, batch: DBTransaction, ghost s: Sketch)
    requires InState(db, batch, s)
    modifies db
    ensures InState(db, batch, Next(db.h, s, Flush))
    ensures StepReads(db.u, db.h, old(db.Now()), db.Now(), Unreadable(s, Flush))
  {
    ghost var v, g := db.Now(), db.ledger;
    db.Flush(batch);
    ForgettingReads(db.u, db.h, v, v, db.Now(), g, batch.ops == [], s);
  }

  /** The database stops, whatever is in the batch, and opens again from the disk. */
  method TakeRestart(db: OverlayRecentDB, batch: DBTransaction, ghost s: Sketch, ghost past: Past)
    returns (again: OverlayRecentDB, anew: DBTransaction)
    requires InState(db, batch, s) && KeptAs(db.u, db.backing.data, s.kept, past)
    ensures InState(again, anew, Next(db.h, s, Restart)) && again.u == db.u && again.h == db.h &&
      again.backing == db.backing
    ensures fresh(again) && fresh(again.transactionOverlay) && fresh(again.backingOverlay) && fresh(anew)
    ensures StepReads(db.u, db.h, db.Now(), again.Now(), Unreadable(s, Restart))
  {
    again, anew := OpenKept(db.h, db.backing, db.u, s, past);
    again.ClearNow(anew);
    RestartReads(db.u, db.h, db.Now(), again.Now(), db.cumulativeSize, Applied(db.backing.data, batch.ops),
                 db.latestEra, db.ledger, s);
  }

  method OpenKept(h: HashFn, backing: KeyValueDB, ghost u: Universe, ghost s: Sketch, ghost past: Past)
    returns (again: OverlayRecentDB, anew: DBTransaction)
    requires Proper(u, h) && KeptAs(u, backing.data, s.kept, past)
    ensures InState(again, anew, Next(h, s, Restart)) && again.u == u && again.h == h && again.backing == backing
    ensures fresh(again) && fresh(again.transactionOverlay) && fresh(again.backingOverlay) && fresh(anew)
    ensures JournalBriefed(again.journal, Found(s))
  {
    anew := new DBTransaction();
    again := new OverlayRecentDB(h, backing, u, past.all, past.held, s.kept.latest, s.kept.live, s.kept.stranded);
    RestartBriefed(u, h, backing.data, past, again.journal, again.ledger, s);
  }

  lemma RestartBriefed(u: Universe, h: HashFn, disk: Disk, past: Past, found: Journal, g: Ledger, s: Sketch)
    requires KeptAs(u, disk, s.kept, past) && found == RecoveredJournal(past.all, s.kept.latest)
    requires g == Opened(past.all, found, past.held, s.kept.live, s.kept.stranded)
    ensures var n := Next(h, s, Restart);
      JournalBriefed(found, Found(s)) && n.journal == Found(s) && LedgerBriefed(u, g, map[], n)
  {
    FoundBriefed(past.all, s);
    LostBriefed(past.held, found, s);
  }

  /** What the lost part of a journal inserted is stranded. */
  lemma LostBriefed(held: multiset<H256>, found: Journal, s: Sketch)
    requires (forall k :: k in held <==> k in s.kept.inserted) && JournalBriefed(found, Found(s))
    ensures (set k | k in held && k !in Held(found)) == s.kept.inserted - InsertedIn(Found(s))
  {
    forall k ensures k in held && k !in Held(found) <==> k in s.kept.inserted - InsertedIn(Found(s)) {
      HeldBriefed(found, Found(s), k);
    }
  }

  // ---- runs ----

  /** Between any two steps only what the step may make unreadable is not read as before. */
  ghost predicate ReadsAlong(u: Universe, h: HashFn, steps: seq<Step>, views: seq<View>) {
    |views| == |steps| + 1 && forall i :: 0 <= i < |steps| ==> ReadsAt(u, h, steps, views, i)
  }

  ghost predicate ReadsAt(u: Universe, h: HashFn, steps: seq<Step>, views: seq<View>, i: nat)
    requires i < |steps| < |views|
  {
    StepReads(u, h, views[i], views[i + 1], Unreadable(RunSketch(h, steps[..i]), steps[i]))
  }

  /** The run's steps, one after the other, from an empty disk. */
  method Run(h: HashFn, ghost u: Universe, steps: seq<Step>)
    returns (db: OverlayRecentDB, batch: DBTransaction, ghost views: seq<View>)
    requires Proper(u, h) && AllowedRun(u, h, steps)
    ensures db.u == u && db.h == h && InState(db, batch, RunSketch(h, steps))
    ensures ReadsAlong(u, h, steps, views) && views[|steps|] == db.Now()
  {
    var backing := new KeyValueDB();
    EmptyDisk(u);
    db := new OverlayRecentDB(h, backing, u, map[], multiset{}, None, {}, {});
    batch := new DBTransaction();
    views := [db.Now()];
    ghost var past := Past(map[], multiset{});
    StartsEmpty(u, db.journal, db.ledger);
    var i := 0;
    while i < |steps|
      invariant 0 <= i <= |steps| && db.u == u && db.h == h && InState(db, batch, RunSketch(h, steps[..i]))
      invariant ReadsAlong(u, h, steps[..i], views) && views[i] == db.Now()
      invariant KeptAs(u, db.backing.data, RunSketch(h, steps[..i]).kept, past)
      invariant fresh(db) && fresh(db.transactionOverlay) && fresh(db.backingOverlay) && fresh(db.backing) &&
        fresh(batch)
    {
      RunNext(h, steps, i);
      db, batch, past := Take(db, batch, steps[i], RunSketch(h, steps[..i]), past);
      AlongNext(u, h, steps, i, views, db.Now());
      views := views + [db.Now()];
      i := i + 1;
    }
    TakeAll(steps);
  }

  lemma StartsEmpty(u: Universe, j: Journal, g: Ledger)
    requires j == RecoveredJournal(map[], None) && g == Opened(map[], j, multiset{}, {}, {})
    ensures JournalBriefed(j, START.journal) && LedgerBriefed(u, g, map[], START)
    ensures KeptAs(u, map[], START.kept, Past(map[], multiset{}))
  {
    EmptyDisk(u);
  }

  lemma AlongNext(u: Universe, h: HashFn, steps: seq<Step>, i: nat, views: seq<View>, now: View)
    requires i < |steps| && ReadsAlong(u, h, steps[..i], views)
    requires StepReads(u, h, views[i], now, Unreadable(RunSketch(h, steps[..i]), steps[i]))
    ensures ReadsAlong(u, h, steps[..i + 1], views + [now])
  {
    var front, all := steps[..i + 1], views + [now];
    forall x | 0 <= x < |front| ensures ReadsAt(u, h, front, all, x) {
      assert front[..x] == steps[..i][..x];
      if x < i { assert ReadsAt(u, h, steps[..i], views, x); } else { assert steps[..i][..x] == steps[..i]; }
    }
  }

  lemma RunNext(h: HashFn, steps: seq<Step>, i: nat)
    requires i < |steps|
    ensures RunSketch(h, steps[..i + 1]) == Next(h, RunSketch(h, steps[..i]), steps[i])
  {
    assert steps[..i + 1][..i] == steps[..i];
  }

  method Take(db: OverlayRecentDB, batch: DBTransaction, step: Step, ghost s: Sketch, ghost past: Past)
    returns (after: OverlayRecentDB, batchAfter: DBTransaction, ghost pastAfter: Past)
    requires InState(db, batch, s) && Allowed(db.u, db.h, s, step) && KeptAs(db.u, db.backing.data, s.kept, past)
    modifies db, db.transactionOverlay, db.backingOverlay, db.backing, batch
    ensures after.u == db.u && after.h == db.h && after.backing == db.backing &&
      InState(after, batchAfter, Next(db.h, s, step))
    ensures KeptAs(after.u, after.backing.data, Next(db.h, s, step).kept, pastAfter)
    ensures StepReads(db.u, db.h, old(db.Now()), after.Now(), Unreadable(s, step))
    ensures (after == db && batchAfter == batch) ||
      (fresh(after) && fresh(after.transactionOverlay) && fresh(after.backingOverlay) && fresh(batchAfter))
  {
    after, batchAfter, pastAfter := db, batch, past;
    match step {
      case Block(now, id, ops) => TakeBlock(db, batch, now, id, ops, s);
      case Mark(era, id) => TakeMark(db, batch, era, id, s);
      case Write => pastAfter := TakeWrite(db, batch, s);
      case Flush => TakeFlush(db, batch, s);
      case Restart => after, batchAfter := TakeRestart(db, batch, s, past);
    }
  }

  // ---- what every run promises ----

  /** The disk's nodes at any time all is written: every live one is there with its value, and any
      other is still counted in the overlay or was left by a discarded or lost block. Reads find all
      journalled nodes and, even before anything is written, all live ones that are not hidden. */
  lemma RunServes(db: OverlayRecentDB, batch: DBTransaction, s: Sketch, k: H256)
    requires InState(db, batch, s)
    ensures s.written && k in s.live ==> k in db.backing.data && db.backing.data[k] == db.u.content(k)
    ensures s.written && k in db.u.keys && k in db.backing.data && k !in s.live ==>
      k in s.stranded || Rc(db.backingOverlay.data, Short(k)) > 0
    ensures (k in s.live && k !in s.hidden) || k in InsertedIn(s.journal) ==>
      Sees(db.h, db.Now(), k) == Some(db.u.content(k))
  {
    db.Promised(batch, k);
    HeldBriefed(db.journal, s.journal, k);
    ServesDisk(db.u, db.h, db.backingOverlay.data, Applied(db.backing.data, batch.ops), Held(db.journal), db.ledger, k);
  }

  lemma ServesDisk(u: Universe, h: HashFn, overlay: Data, disk: Disk, held: multiset<H256>, g: Ledger, k: H256)
    requires Proper(u, h) && Reflects(u, overlay, held) && NodesOnDisk(u, disk, held, g.live, g.stranded)
    ensures k in g.live ==> k in disk && disk[k] == u.content(k)
    ensures k in u.keys && k in disk && k !in g.live ==> k in g.stranded || Rc(overlay, Short(k)) > 0
  {
    assert LiveOnDisk(u, disk, g.live, k) && NodeOnDisk(u, disk, held, g.live, g.stranded, k);
    if k in u.keys { ReflectsAnswer(u, h, overlay, held, k); }
  }

  /** What is read at some time of a run is read at any later time, and is the same, unless a step in
      between may have made it unreadable. */
  lemma {:induction false} ReadThroughRun(u: Universe, h: HashFn, steps: seq<Step>, views: seq<View>, first: nat,
                                          last: nat, k: H256)
    requires ReadsAlong(u, h, steps, views) && first <= last <= |steps| && k in u.keys
    requires forall i :: first <= i < last ==> k !in Unreadable(RunSketch(h, steps[..i]), steps[i])
    ensures StillRead(h, views[first], views[last], k)
    decreases last
  {
    if last > first {
      ReadThroughRun(u, h, steps, views, first, last - 1, k);
      assert ReadsAt(u, h, steps, views, last - 1);
    }
  }

  /** When all is written, what is kept is the present state: a restart then loses missing eras only. */
  lemma {:induction false} WrittenIsKept(h: HashFn, steps: seq<Step>)
    ensures var s := RunSketch(h, steps);
      s.written ==> s.kept.journal == s.journal + s.lost && s.kept.latest == s.latest && s.kept.live == s.live
  {
    if steps != [] {
      var s := RunSketch(h, steps[..|steps| - 1]);
      WrittenIsKept(h, steps[..|steps| - 1]);
      match steps[|steps| - 1] {
        case Mark(era, id) => if era !in s.journal { assert s.journal - {era} == s.journal; }
        case Restart => assert Found(s) + (s.kept.journal - Found(s).Keys) == s.kept.journal;
        case _ =>
      }
    }
  }

  /** At most one block in each era, and it is the one marked; no restart with an era missing. */
  ghost predicate Single(s: Sketch, step: Step) {
    match step
    case Block(now, _, _) => BriefsOf(s.journal, now) == []
    case Mark(era, id) => forall i :: 0 <= i < |BriefsOf(s.journal, era)| ==> BriefsOf(s.journal, era)[i].id == id
    case Restart => Contiguous(s.kept.journal, s.kept.latest)
    case _ => true
  }

  ghost predicate SingleRun(h: HashFn, steps: seq<Step>) {
    forall i :: 0 <= i < |steps| ==> Single(RunSketch(h, steps[..i]), steps[i])
  }

  ghost predicate NoneLeft(s: Sketch) {
    s.stranded == {} && s.lost == map[] && OnePerEra(s.journal) &&
    s.kept.stranded == {} && OnePerEra(s.kept.journal) && s.kept.inserted == InsertedIn(s.kept.journal)
  }

  ghost predicate OnePerEra(s: Briefs) {
    forall era :: era in s ==> |s[era]| == 1
  }

  /** Without forks no node is ever left behind. */
  lemma {:induction false} SingleRunStrandsNothing(h: HashFn, steps: seq<Step>)
    requires SingleRun(h, steps)
    ensures NoneLeft(RunSketch(h, steps))
  {
    if steps != [] {
      var n := |steps| - 1;
      var front := steps[..n];
      forall i | 0 <= i < n ensures Single(RunSketch(h, front[..i]), front[i]) {
        assert front[..i] == steps[..i] && Single(RunSketch(h, steps[..i]), steps[i]);
      }
      SingleRunStrandsNothing(h, front);
      assert Single(RunSketch(h, front), steps[n]);
      SingleStep(h, RunSketch(h, front), steps[n]);
    }
  }

  lemma SingleStep(h: HashFn, s: Sketch, step: Step)
    requires Single(s, step) && NoneLeft(s)
    ensures NoneLeft(Next(h, s, step))
  {
    if step.Mark? {
      var briefs := BriefsOf(s.journal, step.era);
      if briefs != [] { assert briefs[0].id == step.canonId && SiblingBriefs(briefs[..0], step.canonId) == {}; }
    }
    if step.Write? { assert s.journal + s.lost == s.journal; }
    if step.Restart? { RecoveryIsExact(s.kept.journal, s.kept.latest); }
  }

  /** After any run without forks, whose last batch is written, the nodes on disk are the live ones and
      those the overlay still counts. */
  method RunWithoutForks(h: HashFn, ghost u: Universe, steps: seq<Step>)
    returns (db: OverlayRecentDB, batch: DBTransaction, ghost views: seq<View>)
    requires Proper(u, h) && AllowedRun(u, h, steps) && SingleRun(h, steps) && RunSketch(h, steps).written
    ensures db.u == u && db.h == h && InState(db, batch, RunSketch(h, steps))
    ensures forall k :: k in RunSketch(h, steps).live ==> k in db.backing.data && db.backing.data[k] == u.content(k)
    ensures forall k: H256 :: k in u.keys && k in db.backing.data ==>
      k in RunSketch(h, steps).live || Rc(db.backingOverlay.data, Short(k)) > 0
  {
    db, batch, views := Run(h, u, steps);
    SingleRunStrandsNothing(h, steps);
    forall k: H256
      ensures k in db.ledger.live ==> k in db.backing.data && db.backing.data[k] == u.content(k)
      ensures k in u.keys && k in db.backing.data ==> k in db.ledger.live || Rc(db.backingOverlay.data, Short(k)) > 0
    {
      RunServes(db, batch, RunSketch(h, steps), k);
    }
  }
}
