/** The pruning journal database: reference-counted overlays in memory, one record per block on
    disk, and nodes moved to disk when their block becomes canonical. */
module Journals {
  import opened Bytes
  import opened RlpSpec
  import opened RlpStreams
  import opened TrieNode
  import opened HashStore
  import opened JournalRecords
  import opened JournalCounts
  import opened JournalStates
  import opened JournalRecovery
  import opened JournalPromises

  // ---- the backing database ----

  /** Writes collected in order. */
  class DBTransaction {
    var ops: seq<Op>

    constructor ()
      ensures ops == []
    {
      ops := [];
    }

    method Put(key: bytes, value: bytes)
      modifies this
      ensures ops == old(ops) + [Op.Put(key, value)]
    {
      ops := ops + [Op.Put(key, value)];
    }

    method Delete(key: bytes)
      modifies this
      ensures ops == old(ops) + [Op.Delete(key)]
    {
      ops := ops + [Op.Delete(key)];
    }
  }

  class KeyValueDB {
    var data: Disk

    constructor ()
      ensures data == map[]
    {
      data := map[];
    }

    method Get(key: bytes) returns (value: Option<bytes>)
      ensures value == if key in data then Some(data[key]) else None
    {
      value := if key in data then Some(data[key]) else None;
    }

    /** Writes a batch in order and uses it up. */
    method Write(batch: DBTransaction)
      modifies this, batch
      ensures data == Applied(old(data), old(batch.ops)) && batch.ops == []
    {
      var i := 0;
      ghost var before := data;
      while i < |batch.ops|
        invariant 0 <= i <= |batch.ops| && batch.ops == old(batch.ops) && data == Applied(before, batch.ops[..i])
        modifies this
      {
        AppliedSnoc(before, batch.ops[..i], batch.ops[i]);
        TakeSnoc(batch.ops, i);
        match batch.ops[i] {
          case Put(k, v) => data := data[k := v];
          case Delete(k) => data := data - {k};
        }
        i := i + 1;
      }
      TakeAll(batch.ops);
      batch.ops := [];
    }
  }

  // ---- the entry of a transaction ----

  ghost predicate Distinct(s: seq<H256>) {
    forall i, j :: 0 <= i < j < |s| ==> s[i] != s[j]
  }

  /** The entry lists exactly the keys with more insertions than removals, and those with fewer. */
  ghost predicate EntryOfTx(tx: Data, id: H256, e: JournalEntry) {
    e.id == id && ListsBut(tx, {}, e.insertions, e.deletions)
  }

  ghost predicate ListsBut(tx: Data, rest: set<H256>, inserted: seq<H256>, removed: seq<H256>) {
    (forall k :: k in inserted <==> k in tx && k !in rest && tx[k].rc > 0) && Distinct(inserted) &&
    (forall k :: k in removed <==> k in tx && k !in rest && tx[k].rc < 0) && Distinct(removed)
  }

  lemma ListOne(tx: Data, rest: set<H256>, inserted: seq<H256>, removed: seq<H256>, k: H256)
    requires ListsBut(tx, rest, inserted, removed) && k in rest && k in tx
    ensures ListsBut(tx, rest - {k}, if tx[k].rc > 0 then inserted + [k] else inserted,
                     if tx[k].rc < 0 then removed + [k] else removed)
  {
  }

  /** The keys of a drained transaction, in some order. */
  method SplitKeys(tx: Data) returns (inserted: seq<H256>, removed: seq<H256>)
    ensures ListsBut(tx, {}, inserted, removed)
  {
    inserted, removed := [], [];
    var rest := tx.Keys;
    while rest != {}
      invariant rest <= tx.Keys && ListsBut(tx, rest, inserted, removed)
      decreases |rest|
    {
      var k :| k in rest;
      ListOne(tx, rest, inserted, removed, k);
      if tx[k].rc > 0 {
        inserted := inserted + [k];
      }
      if tx[k].rc < 0 {
        removed := removed + [k];
      }
      rest := rest - {k};
    }
  }

  /** A length cast to 32 bits. */
  function AsU32(n: nat): (r: nat)
    ensures r < 0x1_0000_0000 && (n < 0x1_0000_0000 ==> r == n)
  {
    n % 0x1_0000_0000
  }

  /** The keys with more insertions than removals, or fewer. */
  ghost function Changed(tx: Data): set<H256> {
    set k | k in tx && tx[k].rc != 0
  }

  /** A list without repetitions has as many places as members. */
  lemma {:induction false} SizeOfSet(s: seq<H256>)
    requires Distinct(s)
    ensures |set k | k in s| == |s|
  {
    if s != [] {
      var front, last := s[..|s| - 1], s[|s| - 1];
      assert last !in front;
      SizeOfSet(front);
      assert (set k | k in s) == (set k | k in front) + {last};
    }
  }

  /** Insertions and deletions together. */
  function OpsOf(e: JournalEntry): nat {
    AsU32(|e.insertions| + |e.deletions|)
  }

  /** The operations of a block are as many as the keys it changed. */
  lemma OpsOfBlock(tx: Data, id: H256, e: JournalEntry)
    requires EntryOfTx(tx, id, e)
    ensures OpsOf(e) == AsU32(|Changed(tx)|)
  {
    SizeOfSet(e.insertions);
    SizeOfSet(e.deletions);
    assert Changed(tx) == (set k | k in e.insertions) + (set k | k in e.deletions);
  }

  /** The least era, if nothing but blocks was seen. */
  function EarliestWith(earliest: Option<nat>, now: nat): Option<nat> {
    if earliest.None? || earliest.value > now then Some(now) else earliest
  }

  /** Journalling keeps the field the least era of the journal. */
  lemma EarliestAdded(j: Journal, earliest: Option<nat>, now: nat, e: JournalEntry)
    requires Earliest(j, earliest)
    ensures Earliest(j[now := EntriesOf(j, now) + [e]], EarliestWith(earliest, now))
  {
  }

  /** A mark does so exactly when it marks the era before the least one that is left. */
  lemma EarliestMarked(j: Journal, era: nat)
    requires j - {era} != map[]
    ensures Earliest(j - {era}, Some(era + 1)) <==> era + 1 in j && forall x :: x in j ==> x == era || x > era
  {
    if Earliest(j - {era}, Some(era + 1)) {
      forall x | x in j ensures x == era || x > era { assert x != era ==> x in j - {era}; }
    }
  }

  /** The insertions' values are in the transaction, and the record of them can be written. */
  ghost predicate Inserts(u: Universe, tx: Data, e: JournalEntry) {
    (forall k :: k in e.insertions ==> InsertsKey(u, tx, k)) &&
    Record(ValueIn(tx), e) == Record(u.content, e) && |Record(u.content, e)| < RLP_LIMIT
  }

  ghost predicate InsertsKey(u: Universe, tx: Data, k: H256) {
    k in tx && k in u.keys && tx[k].value == u.content(k)
  }

  /** The encoder's lengths suffice for the record, whatever order its keys come in. */
  ghost predicate RecordsSmall(u: Universe, tx: Data, id: H256) {
    forall e :: EntryOfTx(tx, id, e) ==> |Record(u.content, e)| < RLP_LIMIT
  }

  ghost predicate FreshId(entries: seq<JournalEntry>, id: H256) {
    forall i :: 0 <= i < |entries| ==> entries[i].id != id
  }

  lemma EntryOfTxOk(u: Universe, tx: Data, id: H256, e: JournalEntry)
    requires TxOk(u, tx) && EntryOfTx(tx, id, e)
    ensures EntryOk(u, e)
  {
  }

  lemma RecordOfTx(u: Universe, tx: Data, id: H256, e: JournalEntry)
    requires TxOk(u, tx) && EntryOfTx(tx, id, e)
    ensures Record(ValueIn(tx), e) == Record(u.content, e)
  {
    assert InsertionItems(ValueIn(tx), e.insertions) == InsertionItems(u.content, e.insertions);
  }

  function ValueIn(tx: Data): H256 -> bytes {
    (k: H256) => if k in tx then tx[k].value else []
  }

  /** An item through a fresh stream. */
  method Streamed(item: Item) returns (out: bytes)
    requires |Encode(item)| < RLP_LIMIT
    ensures out == Encode(item)
  {
    var stream := new RlpStream();
    assert Stack([], []).Put(Encode(item)).Note(1) == Stack(Encode(item), []);
    stream.Append(item);
    out := stream.Out();
  }

  class OverlayRecentDB {
    const h: HashFn
    const backing: KeyValueDB
    const transactionOverlay: MemoryDB
    const backingOverlay: MemoryDB
    var pendingOverlay: map<H256, bytes>
    var journal: Journal
    var latestEra: Option<nat>
    var earliestEra: Option<nat>
    var cumulativeSize: int
    ghost const u: Universe
    ghost var ledger: Ledger

    ghost predicate Owned()
      reads transactionOverlay, backingOverlay
    {
      transactionOverlay != backingOverlay && transactionOverlay.h == h && backingOverlay.h == h && Proper(u, h)
    }

    /** All is well for this journal, with the given writes still to come. */
    ghost predicate Holding(ops: seq<Op>, j: Journal, latest: Option<nat>, g: Ledger)
      reads `pendingOverlay, `cumulativeSize, transactionOverlay, backingOverlay, backing
    {
      Owned() &&
      Sound(u, h, View(transactionOverlay.data, backingOverlay.data, j, pendingOverlay, backing.data), cumulativeSize,
            Applied(backing.data, ops), latest, g)
    }

    ghost predicate ValidWith(ops: seq<Op>)
      reads this, transactionOverlay, backingOverlay, backing
    {
      Holding(ops, journal, latestEra, ledger)
    }

    /** With the writes in batch still to come. */
    ghost predicate Valid(batch: DBTransaction)
      reads this, transactionOverlay, backingOverlay, backing, batch
    {
      ValidWith(batch.ops)
    }

    /** What reads look at. */
    ghost function Now(): View
      reads this, transactionOverlay, backingOverlay, backing
    {
      View(transactionOverlay.data, backingOverlay.data, journal, pendingOverlay, backing.data)
    }

    /** Opens the database and recovers what the disk's records let it: the unbroken run of eras up to
        the latest, which is everything when no era in between is missing. */
    constructor (h: HashFn, backing: KeyValueDB, ghost u: Universe, ghost all: Journal, ghost held: multiset<H256>,
                 ghost latest: Option<nat>, ghost live: set<H256>, ghost stranded: set<H256>)
      requires Proper(u, h) && Written(u, backing.data, all, held, latest, live, stranded)
      ensures ValidWith([]) && journal == RecoveredJournal(all, latest) && latestEra == latest
      ensures journal == all <==> Contiguous(all, latest)
      ensures ledger == Opened(all, journal, held, live, stranded) && Earliest(journal, earliestEra)
      ensures pendingOverlay == map[] && transactionOverlay.data == map[]
      ensures this.u == u && this.h == h && this.backing == backing
      ensures fresh(transactionOverlay) && fresh(backingOverlay)
    {
      this.h, this.backing, this.u := h, backing, u;
      transactionOverlay := new MemoryDB(h);
      var overlay := new MemoryDB(h);
      backingOverlay := overlay;
      pendingOverlay := map[];
      var found, latestFound, earliest, size := ReadOverlay(h, backing.data, overlay, u, all, latest);
      RecoveryIsExact(all, latest);
      OpenedStored(u, backing.data, all, held, latest, live, stranded);
      ledger := Opened(all, found, held, live, stranded);
      journal, latestEra, earliestEra, cumulativeSize := found, latestFound, earliest, size;
    }

    method Get(key: H256, ghost batch: DBTransaction) returns (value: Option<bytes>)
      requires Owned()
      ensures value == Sees(h, Now(), key)
      ensures Valid(batch) && key in u.keys && value.Some? ==> value.value == u.content(key)
      ensures Valid(batch) && ((key in ledger.live && key !in ledger.hidden) || key in Held(journal)) ==>
        value == Some(u.content(key))
    {
      if Valid(batch) { Promised(batch, key); }
      var raw := transactionOverlay.Raw(key);
      if raw.Some? && raw.value.rc > 0 {
        return Some(raw.value.value);
      }
      var short := Short(key);
      value := backingOverlay.Get(short);
      if value.None? && short in pendingOverlay {
        value := Some(pendingOverlay[short]);
      }
      if value.None? {
        value := backing.Get(key);
      }
    }

    lemma ClearNow(batch: DBTransaction)
      requires Valid(batch)
      ensures Clear(u, h, Now())
    {
    }

    /** What a read finds in a sound state. */
    lemma Promised(batch: DBTransaction, key: H256)
      requires Valid(batch)
      ensures Clear(u, h, Now())
      ensures key in ledger.live || key in Held(journal) ==> key in u.keys
      ensures key in u.keys && Sees(h, Now(), key).Some? ==> Sees(h, Now(), key) == Some(u.content(key))
      ensures (key in ledger.live && key !in ledger.hidden) || key in Held(journal) ==>
        Sees(h, Now(), key) == Some(u.content(key))
    {
      PromisedRead(u, h, Now(), Applied(backing.data, batch.ops), latestEra, ledger, key);
    }

    /** A value goes to the transaction under its hash. */
    method Insert(value: bytes, ghost batch: DBTransaction) returns (key: H256)
      requires Valid(batch)
      requires value != NULL_RLP ==> h(value) in u.keys && u.content(h(value)) == value
      modifies transactionOverlay
      ensures Valid(batch) && key == h(value)
      ensures transactionOverlay.data == DbInsert(h, old(transactionOverlay.data), value)
    {
      key := transactionOverlay.Insert(value);
    }

    method Emplace(key: H256, value: bytes, ghost batch: DBTransaction)
      requires Valid(batch) && key in u.keys && u.content(key) == value
      modifies transactionOverlay
      ensures Valid(batch) && transactionOverlay.data == DbEmplace(old(transactionOverlay.data), key, value)
    {
      transactionOverlay.Emplace(key, value);
    }

    method Remove(key: H256, ghost batch: DBTransaction)
      requires Valid(batch) && key in u.keys
      modifies transactionOverlay
      ensures Valid(batch) && transactionOverlay.data == DbRemove(h, old(transactionOverlay.data), key)
    {
      transactionOverlay.Remove(key);
    }

    /** Merges another transaction into this one. */
    method Consolidate(with: MemoryDB, ghost batch: DBTransaction)
      requires Valid(batch) && with != transactionOverlay && with != backingOverlay && TxOk(u, with.data)
      modifies transactionOverlay, with
      ensures Valid(batch)
      ensures transactionOverlay.data == DbConsolidate(old(transactionOverlay.data), old(with.data))
    {
      transactionOverlay.Consolidate(with);
    }

    /** Writes what is outstanding. Only what was dropped can no longer be read. */
    method WriteBatch(batch: DBTransaction)
      requires Valid(batch)
      modifies this`ledger, backing, batch
      ensures Valid(batch) && batch.ops == [] && backing.data == Applied(old(backing.data), old(batch.ops))
      ensures ledger == old(ledger).(hidden := {})
      ensures forall k: H256 :: k in u.keys ==> StillRead(h, old(Now()), Now(), k) || k in ledger.dropped
    {
      ghost var v, target := Now(), Applied(backing.data, batch.ops);
      WrittenStored(u, backing.data, target, pendingOverlay, journal, latestEra, ledger);
      forall k: H256 | k in u.keys ensures StillRead(h, v, v.(disk := target), k) || k in ledger.dropped {
        WriteReads(u, h, v, target, latestEra, ledger, k);
      }
      backing.Write(batch);
      ledger := ledger.(hidden := {});
    }

    /** Forgets the pending nodes; with all written, that is to forget what can be read from the disk. */
    method Flush(ghost batch: DBTransaction)
      requires Valid(batch)
      modifies this`pendingOverlay, this`ledger
      ensures Valid(batch) && pendingOverlay == map[]
      ensures ledger == Forgot(u, old(ledger), old(pendingOverlay), batch.ops == [])
      ensures ForgetsOnly(u, h, old(Now()), Now(), old(ledger), batch.ops == [])
    {
      ghost var target := Applied(backing.data, batch.ops);
      Forgotten(u, h, Now(), cumulativeSize, target, latestEra, ledger, batch.ops == []);
      ledger := Forgot(u, ledger, pendingOverlay, batch.ops == []);
      pendingOverlay := map[];
    }

    /** Journals the transaction as one block's entry of an era: every insertion is counted in the
        overlay, and the entry's record joins the batch. The pending nodes are forgotten first. */
    method JournalUnder(batch: DBTransaction, now: nat, id: H256) returns (ops: nat, ghost e: JournalEntry)
      requires Valid(batch) && now < U64_RANGE && |EntriesOf(journal, now)| + 1 < U64_RANGE && now !in ledger.lost
      requires FreshId(EntriesOf(journal, now), id) && RecordsSmall(u, transactionOverlay.data, id)
      modifies this, transactionOverlay, backingOverlay, batch
      ensures Valid(batch) && EntryOfTx(old(transactionOverlay.data), id, e)
      ensures journal == old(journal)[now := EntriesOf(old(journal), now) + [e]]
      ensures latestEra == LatestWith(old(latestEra), now)
      ensures ledger == Forgot(u, old(ledger), old(pendingOverlay), old(batch.ops) == [])
      ensures transactionOverlay.data == map[] && pendingOverlay == map[]
      ensures Applied(backing.data, batch.ops) ==
        DiskWithEntry(u, Applied(backing.data, old(batch.ops)), old(journal), old(latestEra), now, e)
      ensures earliestEra == EarliestWith(old(earliestEra), now)
      ensures ops == AsU32(|Changed(old(transactionOverlay.data))|)
      ensures ForgetsOnly(u, h, old(Now()), Now(), old(ledger), old(batch.ops) == [])
    {
      ghost var v, g, written := Now(), ledger, batch.ops == [];
      Flush(batch);
      ghost var between := Now();
      ops, e := JournalFlushed(batch, now, id);
      ForgetThenRead(u, h, v, between, Now(), g, written);
    }

    /** With no nodes pending everything is read on: the transaction's insertions are counted in the
        overlay from now on. */
    method JournalFlushed(batch: DBTransaction, now: nat, id: H256) returns (ops: nat, ghost e: JournalEntry)
      requires Valid(batch) && now < U64_RANGE && |EntriesOf(journal, now)| + 1 < U64_RANGE && now !in ledger.lost
      requires FreshId(EntriesOf(journal, now), id) && RecordsSmall(u, transactionOverlay.data, id)
      requires pendingOverlay == map[]
      modifies `journal, `latestEra, `earliestEra, `cumulativeSize, transactionOverlay, backingOverlay, batch
      ensures Valid(batch) && EntryOfTx(old(transactionOverlay.data), id, e)
      ensures journal == old(journal)[now := EntriesOf(old(journal), now) + [e]]
      ensures latestEra == LatestWith(old(latestEra), now) && transactionOverlay.data == map[]
      ensures Applied(backing.data, batch.ops) ==
        DiskWithEntry(u, Applied(backing.data, old(batch.ops)), old(journal), old(latestEra), now, e)
      ensures earliestEra == EarliestWith(old(earliestEra), now) && AllStillRead(u, h, old(Now()), Now())
      ensures ops == AsU32(|Changed(old(transactionOverlay.data))|)
    {
      ghost var v := Now();
      ClearNow(batch);
      var entry, tx := DrainTransaction(id);
      e := entry;
      OpsOfBlock(tx, id, entry);
      ops := OpsOf(entry);
      JournalEntryUnder(batch, now, entry, tx);
      ClearNow(batch);
      BlockReads(u, h, v, Now(), now, e);
    }

    /** The transaction as an entry, and the values it inserts. */
    method DrainTransaction(id: H256) returns (e: JournalEntry, tx: Data)
      requires Owned() && TxOk(u, transactionOverlay.data) && RecordsSmall(u, transactionOverlay.data, id)
      modifies transactionOverlay
      ensures Owned() && transactionOverlay.data == map[] && tx == old(transactionOverlay.data) && EntryOfTx(tx, id, e)
      ensures EntryOk(u, e) && Inserts(u, tx, e)
    {
      tx := transactionOverlay.Drain();
      var inserted, removed := SplitKeys(tx);
      e := JournalEntry(id, inserted, removed);
      EntryOfTxOk(u, tx, id, e);
      RecordOfTx(u, tx, id, e);
    }

    method JournalEntryUnder(batch: DBTransaction, now: nat, e: JournalEntry, tx: Data)
      requires Valid(batch) && transactionOverlay.data == map[] && pendingOverlay == map[] && now !in ledger.lost
      requires now < U64_RANGE && |EntriesOf(journal, now)| + 1 < U64_RANGE
      requires FreshId(EntriesOf(journal, now), e.id) && EntryOk(u, e) && Inserts(u, tx, e)
      modifies `journal, `latestEra, `earliestEra, `cumulativeSize, backingOverlay, batch
      ensures Valid(batch) && journal == old(journal)[now := EntriesOf(old(journal), now) + [e]]
      ensures latestEra == LatestWith(old(latestEra), now) && earliestEra == EarliestWith(old(earliestEra), now)
      ensures Applied(backing.data, batch.ops) ==
        DiskWithEntry(u, Applied(backing.data, old(batch.ops)), old(journal), old(latestEra), now, e)
    {
      CountAndRecord(batch, now, e, tx);
      PushEntry(now, e);
    }

    /** Everything but the journal in memory is brought up to date. */
    method CountAndRecord(batch: DBTransaction, now: nat, e: JournalEntry, tx: Data)
      requires Valid(batch) && transactionOverlay.data == map[] && pendingOverlay == map[] && now !in ledger.lost
      requires now < U64_RANGE && |EntriesOf(journal, now)| + 1 < U64_RANGE
      requires FreshId(EntriesOf(journal, now), e.id) && EntryOk(u, e) && Inserts(u, tx, e)
      modifies `cumulativeSize, backingOverlay, batch
      ensures Holding(batch.ops, journal[now := EntriesOf(journal, now) + [e]], LatestWith(latestEra, now), ledger)
      ensures Applied(backing.data, batch.ops) ==
        DiskWithEntry(u, Applied(backing.data, old(batch.ops)), journal, latestEra, now, e)
    {
      ghost var after, latestAfter := journal[now := EntriesOf(journal, now) + [e]], LatestWith(latestEra, now);
      StoredAdded(u, backing.data, Applied(backing.data, batch.ops), journal, latestEra, ledger, now, e, after,
                  latestAfter);
      CountInsertions(e, tx, now, after);
      AddRecord(batch, now, |EntriesOf(journal, now)|, RecordItem(ValueIn(tx), e), e);
    }

    /** The entry joins the journal in memory. */
    method PushEntry(now: nat, entry: JournalEntry)
      modifies this`journal, this`latestEra, this`earliestEra
      ensures journal == old(journal)[now := EntriesOf(old(journal), now) + [entry]] &&
        latestEra == LatestWith(old(latestEra), now) && earliestEra == EarliestWith(old(earliestEra), now)
    {
      if latestEra.None? || now > latestEra.value {
        latestEra := Some(now);
      }
      if earliestEra.None? || earliestEra.value > now {
        earliestEra := Some(now);
      }
      journal := journal[now := EntriesOf(journal, now) + [entry]];
    }

    /** Marks a block of an era canonical: its insertions go to the batch, the era leaves the overlay
        and the journal, and its deletions go to the batch unless a block to come inserts them. Only
        what the era's other blocks alone inserted can no longer be read. */
    method MarkCanonical(batch: DBTransaction, endEra: nat, canonId: H256) returns (ops: nat)
      requires Valid(batch)
      modifies this, backingOverlay, batch
      ensures Valid(batch)
      ensures journal == old(journal) - {endEra} && latestEra == old(latestEra)
      ensures ledger == LedgerMarked(old(ledger), EntriesOf(old(journal), endEra), canonId)
      ensures PendingWith(u, old(pendingOverlay), pendingOverlay,
                          CanonOf(EntriesOf(old(journal), endEra), canonId).insertions)
      ensures ops == OpsOf(CanonOf(EntriesOf(old(journal), endEra), canonId))
      ensures earliestEra == if journal == map[] then old(earliestEra) else Some(endEra + 1)
      ensures endEra !in old(journal) ==> batch.ops == old(batch.ops)
      ensures forall k: H256 :: k in u.keys ==>
        StillRead(h, old(Now()), Now(), k) || OnlySiblings(EntriesOf(old(journal), endEra), canonId, k)
    {
      ghost var v, entries := Now(), EntriesOf(journal, endEra);
      ClearNow(batch);
      OwnJournalOk(u, journal, ledger.lost);
      ops := MarkRecords(batch, endEra, canonId);
      ledger := LedgerMarked(ledger, entries, canonId);
      MarkDone(endEra);
      ClearNow(batch);
      forall k: H256 | k in u.keys
        ensures StillRead(h, v, Now(), k) || OnlySiblings(entries, canonId, k)
      {
        MarkReads(u, h, v, Now(), endEra, canonId, k);
      }
    }

    /** The same for a mark. */
    method MarkRecords(batch: DBTransaction, endEra: nat, canonId: H256) returns (ops: nat)
      requires Valid(batch)
      modifies this`pendingOverlay, this`cumulativeSize, backingOverlay, batch
      ensures Holding(batch.ops, journal - {endEra}, latestEra,
                      LedgerMarked(ledger, EntriesOf(journal, endEra), canonId))
      ensures PendingWith(u, old(pendingOverlay), pendingOverlay,
                          CanonOf(EntriesOf(journal, endEra), canonId).insertions)
      ensures ops == OpsOf(CanonOf(EntriesOf(journal, endEra), canonId))
      ensures endEra !in journal ==> batch.ops == old(batch.ops)
    {
      if endEra in journal {
        ops := MarkEra(batch, endEra, canonId);
      } else {
        ops := 0;
        NothingMarked(ledger, journal, endEra, canonId);
        PendingStart(u, pendingOverlay);
      }
    }

    /** The era leaves the journal. */
    method MarkDone(endEra: nat)
      modifies this`journal, this`earliestEra
      ensures journal == old(journal) - {endEra}
      ensures earliestEra == if journal == map[] then old(earliestEra) else Some(endEra + 1)
    {
      journal := journal - {endEra};
      if journal != map[] {
        earliestEra := Some(endEra + 1);
      }
    }

    method MarkEra(batch: DBTransaction, endEra: nat, canonId: H256) returns (ops: nat)
      requires Valid(batch) && endEra in journal
      modifies this`pendingOverlay, this`cumulativeSize, backingOverlay, batch
      ensures Holding(batch.ops, journal - {endEra}, latestEra, LedgerMarked(ledger, journal[endEra], canonId))
      ensures PendingWith(u, old(pendingOverlay), pendingOverlay, CanonOf(journal[endEra], canonId).insertions)
      ensures ops == OpsOf(CanonOf(journal[endEra], canonId))
    {
      ghost var d := Applied(backing.data, batch.ops);
      OwnJournalOk(u, journal, ledger.lost);
      CanonEntryOk(u, journal, endEra, canonId);
      var canonInsertions, canonDeletions, overlayDeletions := DropRecords(batch, endEra, canonId);
      ghost var d1, before := Applied(backing.data, batch.ops), pendingOverlay;
      ops := CountOps(canonInsertions, canonDeletions, CanonOf(journal[endEra], canonId));
      ghost var d2 := MoveCanonical(batch, canonInsertions, canonDeletions, overlayDeletions, endEra,
                                    CanonOf(journal[endEra], canonId));
      ghost var d3 := Applied(backing.data, batch.ops);
      MarkedStored(u, h, backing.data, d, d1, d2, d3, journal, latestEra, endEra, canonId, ledger, before,
                   pendingOverlay);
    }

    /** The canonical block's insertions go out, the era leaves the overlay, and the deletions go out. */
    method MoveCanonical(batch: DBTransaction, canonInsertions: seq<(H256, bytes)>, canonDeletions: seq<H256>,
                         overlayDeletions: seq<H256>, ghost endEra: nat, ghost c: JournalEntry)
      returns (ghost between: Disk)
      requires Owned() && Counting(u, backingOverlay.data, cumulativeSize, journal) && PendingRight(u, pendingOverlay)
      requires endEra in journal && EntryOk(u, c) && WithValues(u, canonInsertions, c.insertions) &&
        canonDeletions == c.deletions
      requires multiset(overlayDeletions) == InsertedBy(journal[endEra])
      modifies this`pendingOverlay, this`cumulativeSize, backingOverlay, batch
      ensures Owned() && Counting(u, backingOverlay.data, cumulativeSize, journal - {endEra})
      ensures NodesPut(u, Applied(backing.data, old(batch.ops)), between, c.insertions)
      ensures NodesDropped(between, Applied(backing.data, batch.ops), c.deletions, Held(journal - {endEra}))
      ensures PendingWith(u, old(pendingOverlay), pendingOverlay, c.insertions)
    {
      PutCanonical(batch, canonInsertions, c.insertions, pendingOverlay);
      between := Applied(backing.data, batch.ops);
      PurgeOverlay(overlayDeletions, endEra);
      DeleteCanonical(batch, canonDeletions, Held(journal - {endEra}));
    }

    method CountOps(canonInsertions: seq<(H256, bytes)>, canonDeletions: seq<H256>, ghost c: JournalEntry)
      returns (ops: nat)
      requires WithValues(u, canonInsertions, c.insertions) && canonDeletions == c.deletions
      ensures ops == OpsOf(c)
    {
      ops := AsU32(|canonInsertions| + |canonDeletions|);
    }

    /** The era's records are deleted, its insertions and the canonical block's changes collected. */
    method DropRecords(batch: DBTransaction, endEra: nat, canonId: H256)
      returns (canonInsertions: seq<(H256, bytes)>, canonDeletions: seq<H256>, overlayDeletions: seq<H256>)
      requires Owned() && Counting(u, backingOverlay.data, cumulativeSize, journal) && JournalOk(u, journal)
      requires endEra in journal
      modifies batch
      ensures RecordsDropped(Applied(backing.data, old(batch.ops)), Applied(backing.data, batch.ops), endEra,
                             |journal[endEra]|)
      ensures Collected(u, journal[endEra], canonId, canonInsertions, canonDeletions, overlayDeletions)
    {
      canonInsertions, canonDeletions, overlayDeletions := [], [], [];
      var entries := journal[endEra];
      ghost var d := Applied(backing.data, batch.ops);
      var index := 0;
      assert RecordsDropped(d, d, endEra, 0);
      while index < |entries|
        invariant 0 <= index <= |entries|
        invariant RecordsDropped(d, Applied(backing.data, batch.ops), endEra, index)
        invariant Collected(u, entries[..index], canonId, canonInsertions, canonDeletions, overlayDeletions)
      {
        EraSmall(u, journal, endEra);
        DropRecord(batch, endEra, index, d);
        canonInsertions, canonDeletions, overlayDeletions :=
          CollectEntry(endEra, index, canonId, canonInsertions, canonDeletions, overlayDeletions);
        index := index + 1;
      }
      TakeAll(entries);
    }

    /** One more entry of an era. */
    method CollectEntry(era: nat, index: nat, canonId: H256, inserted: seq<(H256, bytes)>, deleted: seq<H256>,
                        all: seq<H256>)
      returns (canonInsertions: seq<(H256, bytes)>, canonDeletions: seq<H256>, overlayDeletions: seq<H256>)
      requires Owned() && Counting(u, backingOverlay.data, cumulativeSize, journal) && JournalOk(u, journal)
      requires era in journal && index < |journal[era]|
      requires Collected(u, journal[era][..index], canonId, inserted, deleted, all)
      ensures Collected(u, journal[era][..index + 1], canonId, canonInsertions, canonDeletions, overlayDeletions)
    {
      var entry := journal[era][index];
      ghost var found := [];
      canonInsertions, canonDeletions := inserted, deleted;
      if canonId == entry.id {
        var these := CollectInsertions(entry.insertions, era, index);
        found := these;
        canonInsertions := canonInsertions + these;
        canonDeletions := entry.deletions;
      }
      overlayDeletions := all + entry.insertions;
      EraSmall(u, journal, era);
      CollectedNext(u, journal[era], index, canonId, inserted, deleted, all, found);
    }

    method DropRecord(batch: DBTransaction, era: nat, index: nat, ghost d: Disk)
      requires era < U64_RANGE && index < U64_RANGE
      requires RecordsDropped(d, Applied(backing.data, batch.ops), era, index)
      modifies batch
      ensures RecordsDropped(d, Applied(backing.data, batch.ops), era, index + 1)
    {
      RecordsDroppedStep(d, Applied(backing.data, batch.ops), era, index);
      var key := KeyOf(era, index);
      AppliedSnoc(backing.data, batch.ops, Op.Delete(key));
      batch.Delete(key);
    }

    method KeyOf(era: nat, index: nat) returns (key: bytes)
      requires era < U64_RANGE && index < U64_RANGE
      ensures key == RecordKey(era, index)
    {
      RecordKeyLength(era, index);
      key := Streamed(RecordKeyItem(era, index));
    }

    /** The inserted keys that are counted in the overlay, with their values: all of them. */
    method CollectInsertions(insertions: seq<H256>, ghost era: nat, ghost index: nat)
      returns (found: seq<(H256, bytes)>)
      requires Owned() && Counting(u, backingOverlay.data, cumulativeSize, journal) && JournalOk(u, journal)
      requires era in journal && index < |journal[era]| && insertions == journal[era][index].insertions
      ensures WithValues(u, found, insertions)
    {
      found := [];
      var i := 0;
      while i < |insertions|
        invariant 0 <= i <= |insertions| && WithValues(u, found, insertions[..i])
      {
        InsertionHeld(u, journal, era, index, i);
        ReflectsAnswer(u, h, backingOverlay.data, Held(journal), insertions[i]);
        TakeSnoc(insertions, i);
        var raw := backingOverlay.Raw(Short(insertions[i]));
        if raw.Some? && raw.value.rc > 0 {
          found := found + [(insertions[i], raw.value.value)];
        }
        i := i + 1;
      }
      TakeAll(insertions);
    }

    /** The canonical insertions join the batch, and are pending until it is written. */
    method PutCanonical(batch: DBTransaction, canonInsertions: seq<(H256, bytes)>, ghost keys: seq<H256>,
                        ghost before: map<H256, bytes>)
      requires Owned() && WithValues(u, canonInsertions, keys) && (forall k :: k in keys ==> k in u.keys)
      requires pendingOverlay == before && PendingRight(u, before)
      modifies batch, this`pendingOverlay
      ensures NodesPut(u, Applied(backing.data, old(batch.ops)), Applied(backing.data, batch.ops), keys)
      ensures PendingWith(u, before, pendingOverlay, keys)
    {
      ghost var d := Applied(backing.data, batch.ops);
      PendingStart(u, before);
      var i := 0;
      while i < |canonInsertions|
        invariant 0 <= i <= |canonInsertions|
        invariant NodesPut(u, d, Applied(backing.data, batch.ops), keys[..i])
        invariant PendingWith(u, before, pendingOverlay, keys[..i])
      {
        var (k, v) := canonInsertions[i];
        TakeSnoc(keys, i);
        PutStep(u, d, Applied(backing.data, batch.ops), keys[..i], k);
        PendingStep(u, h, before, pendingOverlay, keys[..i], k);
        AppliedSnoc(backing.data, batch.ops, Op.Put(k, v));
        batch.Put(k, v);
        pendingOverlay := pendingOverlay[Short(k) := v];
        i := i + 1;
      }
      TakeAll(keys);
    }

    /** The era's insertions are taken back from the overlay's counts. */
    method PurgeOverlay(overlayDeletions: seq<H256>, ghost endEra: nat)
      requires Owned() && Counting(u, backingOverlay.data, cumulativeSize, journal) && endEra in journal
      requires multiset(overlayDeletions) == InsertedBy(journal[endEra])
      modifies this`cumulativeSize, backingOverlay
      ensures Owned() && Counting(u, backingOverlay.data, cumulativeSize, journal - {endEra})
    {
      HeldTake(journal, endEra);
      ghost var rest := Held(journal - {endEra});
      ghost var gone := 0;
      var i := 0;
      assert overlayDeletions[0..] == overlayDeletions;
      while i < |overlayDeletions|
        invariant 0 <= i <= |overlayDeletions| && Owned()
        invariant Reflects(u, backingOverlay.data, multiset(overlayDeletions[i..]) + rest)
        invariant cumulativeSize == SumSizes(backingOverlay.data)
      {
        var k := overlayDeletions[i];
        OneLess(overlayDeletions, i, rest);
        PurgeReflects(u, h, backingOverlay.data, multiset(overlayDeletions[i..]) + rest, k);
        var purged := backingOverlay.RemoveAndPurge(Short(k));
        if purged.Some? {
          cumulativeSize := cumulativeSize - |purged.value|;
        }
        i := i + 1;
      }
      PlusNothing(rest);
    }

    /** The canonical deletions join the batch, except of nodes the overlay still counts. */
    method DeleteCanonical(batch: DBTransaction, canonDeletions: seq<H256>, ghost held: multiset<H256>)
      requires Owned() && Reflects(u, backingOverlay.data, held) && forall k :: k in canonDeletions ==> k in u.keys
      modifies batch
      ensures NodesDropped(Applied(backing.data, old(batch.ops)), Applied(backing.data, batch.ops), canonDeletions,
                           held)
    {
      ghost var d := Applied(backing.data, batch.ops);
      var i := 0;
      while i < |canonDeletions|
        invariant 0 <= i <= |canonDeletions|
        invariant NodesDropped(d, Applied(backing.data, batch.ops), canonDeletions[..i], held)
      {
        var k := canonDeletions[i];
        TakeSnoc(canonDeletions, i);
        ReflectsAnswer(u, h, backingOverlay.data, held, k);
        DropStep(d, Applied(backing.data, batch.ops), canonDeletions[..i], held, k);
        var counted := backingOverlay.Get(Short(k));
        if counted.None? {
          AppliedSnoc(backing.data, batch.ops, Op.Delete(k));
          batch.Delete(k);
        }
        i := i + 1;
      }
      TakeAll(canonDeletions);
    }

    /** Counts each insertion in the overlay under its short key. */
    method CountInsertions(e: JournalEntry, tx: Data, ghost now: nat, ghost after: Journal)
      requires after == journal[now := EntriesOf(journal, now) + [e]]
      requires Owned() && Counting(u, backingOverlay.data, cumulativeSize, journal) && Inserts(u, tx, e)
      modifies this`cumulativeSize, backingOverlay
      ensures Owned()
      ensures Counting(u, backingOverlay.data, cumulativeSize, after)
    {
      var i := 0;
      ghost var start := Held(journal);
      HeldAdd(journal, now, e);
      CountedNone(start, e.insertions);
      while i < |e.insertions|
        invariant 0 <= i <= |e.insertions| && Owned()
        invariant Reflects(u, backingOverlay.data, CountedTo(start, e.insertions, i))
        invariant cumulativeSize == SumSizes(backingOverlay.data)
      {
        var k := e.insertions[i];
        assert InsertsKey(u, tx, k);
        CountedNext(start, e.insertions, i);
        CountOne(k, tx[k].value, CountedTo(start, e.insertions, i));
        i := i + 1;
      }
      CountedAll(start, e.insertions);
    }

    method CountOne(k: H256, value: bytes, ghost held: multiset<H256>)
      requires Owned() && Reflects(u, backingOverlay.data, held) && cumulativeSize == SumSizes(backingOverlay.data)
      requires k in u.keys && value == u.content(k)
      modifies this`cumulativeSize, backingOverlay
      ensures Owned() && Reflects(u, backingOverlay.data, held + multiset{k}) &&
        cumulativeSize == SumSizes(backingOverlay.data)
    {
      EmplaceReflects(u, h, backingOverlay.data, held, k);
      var present := backingOverlay.Get(Short(k));
      if present.None? {
        cumulativeSize := cumulativeSize + |value|;
      }
      backingOverlay.Emplace(Short(k), value);
    }

    /** The record of an entry, and the marker when the era is the latest. */
    method AddRecord(batch: DBTransaction, now: nat, index: nat, record: Item, ghost e: JournalEntry)
      requires now < U64_RANGE && index == |EntriesOf(journal, now)| < U64_RANGE
      requires Encode(record) == Record(u.content, e) && |Encode(record)| < RLP_LIMIT
      modifies batch
      ensures Applied(backing.data, batch.ops) ==
        DiskWithEntry(u, Applied(backing.data, old(batch.ops)), journal, latestEra, now, e)
    {
      RecordKeyLength(now, index);
      var key := Streamed(RecordKeyItem(now, index));
      var out := Streamed(record);
      AppliedSnoc(backing.data, batch.ops, Op.Put(key, out));
      batch.Put(key, out);
      if latestEra.None? || now > latestEra.value {
        AppliedSnoc(backing.data, batch.ops, Op.Put(LATEST_ERA_KEY, EraValue(now)));
        batch.Put(LATEST_ERA_KEY, EraValue(now));
      }
    }
  }

  // ---- opening again ----

  /** Opening the disk again once all is written finds the very state in memory exactly when no era
      below the latest is missing; in any case the state is sound. What was journalled or on disk is
      read as before, except what only a part of the journal inserted that is not found again. */
  method Reopen(db: OverlayRecentDB, batch: DBTransaction) returns (again: OverlayRecentDB)
    requires db.Valid(batch) && batch.ops == []
    ensures fresh(again) && fresh(again.transactionOverlay) && fresh(again.backingOverlay) &&
      again.backing == db.backing
    ensures again.h == db.h && again.u == db.u && again.ValidWith([])
    ensures again.transactionOverlay.data == map[] && again.pendingOverlay == map[]
    ensures again.journal == RecoveredJournal(Both(db.journal, db.ledger.lost), db.latestEra)
    ensures again.latestEra == db.latestEra && Earliest(again.journal, again.earliestEra)
    ensures again.ledger ==
      Opened(Both(db.journal, db.ledger.lost), again.journal, Held(db.journal), db.ledger.live, db.ledger.stranded)
    ensures again.journal == Both(db.journal, db.ledger.lost) <==>
      Contiguous(Both(db.journal, db.ledger.lost), db.latestEra)
    ensures again.journal == db.journal ==>
      again.backingOverlay.data == db.backingOverlay.data && again.cumulativeSize == db.cumulativeSize &&
      again.ledger.stranded == db.ledger.stranded
    ensures ReopensOnly(db.u, db.h, db.Now(), again.Now(), db.ledger)
  {
    db.ClearNow(batch);
    LeftWritten(db.u, db.backing.data, db.pendingOverlay, db.journal, db.latestEra, db.ledger);
    again := new OverlayRecentDB(db.h, db.backing, db.u, Both(db.journal, db.ledger.lost), Held(db.journal),
                                 db.latestEra, db.ledger.live, db.ledger.stranded);
    again.ClearNow(batch);
    if again.journal == db.journal {
      ReflectsUnique(db.u, again.backingOverlay.data, db.backingOverlay.data, Held(db.journal));
    }
    ReopenReads(db.u, db.h, db.Now(), again.Now(), db.latestEra, db.ledger);
  }

  // ---- steps of a mark ----

  lemma CanonEntryOk(u: Universe, j: Journal, era: nat, id: H256)
    requires JournalOk(u, j) && era in j
    ensures EntryOk(u, CanonOf(j[era], id))
  {
    assert EraOk(u, j, era);
    CanonIsEntry(u, j[era], id);
  }

  /** The keys with their values. */
  ghost predicate WithValues(u: Universe, pairs: seq<(H256, bytes)>, keys: seq<H256>) {
    |pairs| == |keys| && forall i :: 0 <= i < |keys| ==> pairs[i] == (keys[i], u.content(keys[i]))
  }

  /** Collected from entries: the canonical block's changes and all insertions. */
  ghost predicate Collected(u: Universe, entries: seq<JournalEntry>, id: H256, inserted: seq<(H256, bytes)>,
                            deleted: seq<H256>, all: seq<H256>) {
    WithValues(u, inserted, CanonOf(entries, id).insertions) && deleted == CanonOf(entries, id).deletions &&
    multiset(all) == InsertedBy(entries)
  }

  /** The next entry of an era: at most one is the canonical block's. */
  lemma CollectedNext(u: Universe, entries: seq<JournalEntry>, index: nat, id: H256, inserted: seq<(H256, bytes)>,
                      deleted: seq<H256>, all: seq<H256>, found: seq<(H256, bytes)>)
    requires index < |entries| && UniqueIds(entries)
    requires Collected(u, entries[..index], id, inserted, deleted, all)
    requires entries[index].id == id ==> WithValues(u, found, entries[index].insertions)
    ensures var e := entries[index];
      Collected(u, entries[..index + 1], id, if e.id == id then inserted + found else inserted,
                if e.id == id then e.deletions else deleted, all + e.insertions)
  {
    assert entries[..index + 1][..index] == entries[..index];
    if entries[index].id == id { NoCanon(entries[..index], id); }
  }

  lemma EraSmall(u: Universe, j: Journal, era: nat)
    requires JournalOk(u, j) && era in j
    ensures era < U64_RANGE && |j[era]| < U64_RANGE && UniqueIds(j[era])
  {
    assert EraOk(u, j, era);
  }

  lemma InsertionHeld(u: Universe, j: Journal, era: nat, index: nat, i: nat)
    requires JournalOk(u, j) && era in j && index < |j[era]| && i < |j[era][index].insertions|
    ensures j[era][index].insertions[i] in Held(j) && j[era][index].insertions[i] in u.keys
  {
    assert EraOk(u, j, era);
    assert EntryOk(u, j[era][index]);
    HeldTake(j, era);
    InsertedFrom(j[era], index);
    assert j[era][index].insertions[i] in multiset(j[era][index].insertions);
  }

  lemma PutStep(u: Universe, d: Disk, f: Disk, keys: seq<H256>, k: H256)
    requires NodesPut(u, d, f, keys)
    ensures NodesPut(u, d, f[k := u.content(k)], keys + [k])
  {
  }

  lemma PendingStep(u: Universe, h: HashFn, before: map<H256, bytes>, now: map<H256, bytes>, keys: seq<H256>, k: H256)
    requires PendingWith(u, before, now, keys) && Proper(u, h) && k in u.keys
    ensures PendingWith(u, before, now[Short(k) := u.content(k)], keys + [k])
  {
    var after := now[Short(k) := u.content(k)];
    forall s
      ensures PendingFor(u, after, s) && KeptPending(before, after, s) && NewPending(u, before, after, keys + [k], s)
    {
      assert PendingFor(u, now, s) && KeptPending(before, now, s) && NewPending(u, before, now, keys, s);
    }
    forall x ensures PutPending(after, keys + [k], x) { assert PutPending(now, keys, x); }
  }

  lemma PendingStart(u: Universe, pending: map<H256, bytes>)
    requires PendingRight(u, pending)
    ensures PendingWith(u, pending, pending, [])
  {
  }

  lemma OneLess(s: seq<H256>, i: nat, rest: multiset<H256>)
    requires i < |s|
    ensures s[i] in multiset(s[i..]) + rest
    ensures multiset(s[i..]) + rest - multiset{s[i]} == multiset(s[i + 1..]) + rest
  {
    assert s[i..] == [s[i]] + s[i + 1..];
  }

  lemma DropStep(d: Disk, f: Disk, keys: seq<H256>, held: multiset<H256>, k: H256)
    requires NodesDropped(d, f, keys, held)
    ensures NodesDropped(d, if k in held then f else f - {k}, keys + [k], held)
  {
  }
}
