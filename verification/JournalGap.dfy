/** Two runs that lose a node: for good, a block below an era without a record; until the next write, a
    canonical block whose pending nodes are flushed too early. */
module JournalGap {
  import opened Bytes
  import opened RlpSpec
  import opened TrieNode
  import opened HashStore
  import opened JournalRecords
  import opened JournalCounts
  import opened JournalStates
  import opened JournalRecovery
  import opened JournalPromises
  import opened Journals

  // ---- small records ----

  lemma SmallHeader(n: nat, offset: byte)
    requires (offset == 0x80 || offset == 0xc0) && n < U64_RANGE
    ensures |Header(n, offset)| <= 9
  {
    Pow256Values();
    BigEndianLength(n, 8);
  }

  lemma SmallData(d: bytes)
    requires |d| < U64_RANGE
    ensures |Encode(Item.Data(d))| <= |d| + 9
  {
    SmallHeader(|d|, 0x80);
  }

  lemma SmallList(items: seq<Item>)
    requires |EncodeAll(items)| < U64_RANGE
    ensures |Encode(List(items))| <= |EncodeAll(items)| + 9
  {
    SmallHeader(|EncodeAll(items)|, 0xc0);
  }

  lemma EncodeAllOne(a: Item)
    ensures EncodeAll([]) == [] && EncodeAll([a]) == Encode(a)
  {
    EncodeAllSnoc([], a);
    assert [] + [a] == [a];
  }

  lemma EncodeAllTwo(a: Item, b: Item)
    ensures EncodeAll([a, b]) == Encode(a) + Encode(b)
  {
    EncodeAllOne(a);
    EncodeAllSnoc([a], b);
    assert [a] + [b] == [a, b];
  }

  /** A block that inserts one value of less than 2^31 bytes, or nothing, has a small record. */
  lemma SmallRecord(content: H256 -> bytes, e: JournalEntry)
    requires e.deletions == [] && |e.insertions| <= 1
    requires forall k :: k in e.insertions ==> |content(k)| < 0x8000_0000
    ensures |Record(content, e)| < RLP_LIMIT
  {
    var inserted := InsertionItems(content, e.insertions);
    SmallInsertions(content, e.insertions);
    EncodeAllOne(Item.Data([]));
    assert KeyItems(e.deletions) == [];
    SmallList(KeyItems(e.deletions));
    SmallList(inserted);
    SmallData(e.id);
    EncodeAllThree(Item.Data(e.id), List(inserted), List(KeyItems(e.deletions)));
    SmallList([Item.Data(e.id), List(inserted), List(KeyItems(e.deletions))]);
  }

  lemma SmallInsertions(content: H256 -> bytes, keys: seq<H256>)
    requires |keys| <= 1 && forall k :: k in keys ==> |content(k)| < 0x8000_0000
    ensures |EncodeAll(InsertionItems(content, keys))| < 0x8000_0000 + 100
  {
    var items := InsertionItems(content, keys);
    if keys == [] {
      assert items == [];
    } else {
      var k, v := keys[0], content(keys[0]);
      assert items == [InsertionItem(content, k)];
      EncodeAllOne(InsertionItem(content, k));
      SmallData(k);
      SmallData(v);
      EncodeAllTwo(Item.Data(k), Item.Data(v));
      SmallList([Item.Data(k), Item.Data(v)]);
    }
  }

  /** What a block's record comes from when it inserts one key at most. */
  lemma OneInserted(u: Universe, tx: Data, id: H256, key: H256)
    requires forall k :: k in tx ==> k == key && tx[k].rc > 0
    requires |u.content(key)| < 0x8000_0000
    ensures RecordsSmall(u, tx, id)
  {
    forall e | EntryOfTx(tx, id, e) ensures |Record(u.content, e)| < RLP_LIMIT {
      OnlyOne(e.insertions, key);
      NoneListed(e.deletions);
      SmallRecord(u.content, e);
    }
  }

  lemma NoneListed(s: seq<H256>)
    requires Distinct(s) && forall k :: k !in s
    ensures s == []
  {
    SizeOfSet(s);
    assert (set k | k in s) == {};
  }

  lemma OnlyOne(s: seq<H256>, key: H256)
    requires Distinct(s) && forall k :: k in s ==> k == key
    ensures |s| <= 1
  {
    SizeOfSet(s);
    assert (set k | k in s) == if key in s then {key} else {};
  }

  // ---- the gap ----

  /** Eras 1 and 3 journalled, 2 not. */
  ghost function WithGap(first: JournalEntry, second: JournalEntry): Journal {
    map[1 := [first], 3 := [second]]
  }

  lemma GapEras(first: JournalEntry, second: JournalEntry)
    ensures WithGap(first, second).Keys == {1, 3}
  {
  }

  lemma GapLosesEra(j: Journal, lost: Journal, first: JournalEntry, second: JournalEntry)
    requires j == WithGap(first, second) && lost == map[]
    ensures RecoveredJournal(Both(j, lost), Some(3)) == map[3 := [second]] && !Contiguous(Both(j, lost), Some(3))
  {
    assert Both(j, lost) == j && 2 !in j;
    assert !Reaches(j, 1, 3);
    assert 1 in j && Reaches(j, 3, 3);
  }

  lemma HeldOne(era: nat, e: JournalEntry)
    ensures Held(map[era := [e]]) == multiset(e.insertions)
  {
    HeldAdd(map[], era, e);
    assert map[][era := EntriesOf(map[], era) + [e]] == map[era := [e]];
    PlusNothing(multiset(e.insertions));
  }

  /** Journalling does not touch the nodes on disk. */
  lemma NodesAside(u: Universe, d: Disk, j: Journal, latest: Option<nat>, now: nat, e: JournalEntry, k: H256)
    requires now < U64_RANGE && |EntriesOf(j, now)| < U64_RANGE
    ensures k in DiskWithEntry(u, d, j, latest, now, e) <==> k in d
  {
    NodeKeyApart(k, now, |EntriesOf(j, now)|);
  }

  /** Blocks journalled in eras 1 and 3 and nothing in between: what the first one inserted can be read
      until the database is closed, and is gone when it is opened again. */
  method GapLosesBlock(h: HashFn, ghost u: Universe, key: H256, value: bytes, first: H256, second: H256)
    returns (db: OverlayRecentDB, again: OverlayRecentDB, before: Option<bytes>, after: Option<bytes>)
    requires Proper(u, h) && key in u.keys && u.content(key) == value && |value| < 0x8000_0000
    ensures db.journal.Keys == {1, 3} && db.latestEra == Some(3) && before == Some(value)
    ensures again.backing == db.backing && again.journal.Keys == {3} && again.latestEra == Some(3) && after == None
  {
    var batch;
    ghost var e, f;
    db, batch, e, f := JournalTwo(h, u, key, value, first, second);
    GapEras(e, f);
    before := ReadNow(db, batch, key, e, f);
    again, after := ReadAgain(db, batch, key, e, f);
  }

  method ReadNow(db: OverlayRecentDB, batch: DBTransaction, key: H256, ghost e: JournalEntry, ghost f: JournalEntry)
    returns (found: Option<bytes>)
    requires db.Valid(batch) && db.journal == WithGap(e, f) && key in e.insertions
    ensures found == Some(db.u.content(key))
  {
    StillHeld(e, f, key);
    found := db.Get(key, batch);
  }

  method ReadAgain(db: OverlayRecentDB, batch: DBTransaction, key: H256, ghost e: JournalEntry, ghost f: JournalEntry)
    returns (again: OverlayRecentDB, after: Option<bytes>)
    requires db.Valid(batch) && batch.ops == [] && db.journal == WithGap(e, f) && db.latestEra == Some(3) &&
      db.ledger.lost == map[]
    requires f.insertions == [] && key in db.u.keys && key !in db.backing.data
    ensures again.backing == db.backing && again.journal == map[3 := [f]] && again.latestEra == Some(3) && after == None
  {
    GapLosesEra(db.journal, db.ledger.lost, e, f);
    again := Reopen(db, batch);
    HeldOne(3, f);
    after := FindNothing(again, batch, key);
  }

  lemma StillHeld(first: JournalEntry, second: JournalEntry, key: H256)
    requires key in first.insertions
    ensures key in Held(WithGap(first, second))
  {
    HeldTake(WithGap(first, second), 1);
    InsertedFrom([first], 0);
    assert key in multiset(first.insertions);
  }

  method FindNothing(db: OverlayRecentDB, batch: DBTransaction, key: H256) returns (found: Option<bytes>)
    requires db.Valid(batch) && db.transactionOverlay.data == map[] && db.pendingOverlay == map[]
    requires key !in Held(db.journal) && key in db.u.keys && key !in db.backing.data
    ensures found == None
  {
    db.Promised(batch, key);
    ReadsRight(db.u, db.h, db.Now(), key);
    found := db.Get(key, batch);
  }

  /** A block with one insertion in era 1, an empty one in era 3, both written. */
  method JournalTwo(h: HashFn, ghost u: Universe, key: H256, value: bytes, first: H256, second: H256)
    returns (db: OverlayRecentDB, batch: DBTransaction, ghost e: JournalEntry, ghost f: JournalEntry)
    requires Proper(u, h) && key in u.keys && u.content(key) == value && |value| < 0x8000_0000
    ensures fresh(db) && db.u == u && db.h == h && db.Valid(batch) && batch.ops == []
    ensures db.journal == WithGap(e, f) && db.latestEra == Some(3) && key in e.insertions && f.insertions == []
    ensures key !in db.backing.data && db.ledger.lost == map[]
  {
    db, batch := OpenWith(h, u, key, value);
    e := JournalOne(db, batch, 1, first, key);
    f := JournalOne(db, batch, 3, second, key);
    NoneListed(f.insertions);
  }

  /** A database on an empty disk, with one value inserted. */
  method OpenWith(h: HashFn, ghost u: Universe, key: H256, value: bytes)
    returns (db: OverlayRecentDB, batch: DBTransaction)
    requires Proper(u, h) && key in u.keys && u.content(key) == value
    ensures fresh(db) && fresh(db.transactionOverlay) && fresh(db.backingOverlay) && fresh(db.backing) && fresh(batch)
    ensures db.u == u && db.h == h && db.Valid(batch) && batch.ops == []
    ensures db.journal == map[] && db.latestEra == None && db.ledger.lost == map[] && db.backing.data == map[]
    ensures forall k :: k in db.transactionOverlay.data ==> k == key && db.transactionOverlay.data[k].rc > 0
    ensures key in db.transactionOverlay.data
  {
    var backing := new KeyValueDB();
    EmptyDisk(u);
    db := new OverlayRecentDB(h, backing, u, map[], multiset{}, None, {}, {});
    batch := new DBTransaction();
    db.Emplace(key, value, batch);
  }

  /** Journals a transaction with one insertion at most, and writes it. */
  method JournalOne(db: OverlayRecentDB, batch: DBTransaction, now: nat, id: H256, ghost key: H256)
    returns (ghost e: JournalEntry)
    requires db.Valid(batch) && batch.ops == [] && now < U64_RANGE && now !in db.journal && db.ledger.lost == map[]
    requires forall k :: k in db.transactionOverlay.data ==> k == key && db.transactionOverlay.data[k].rc > 0
    requires |db.u.content(key)| < 0x8000_0000 && key !in db.backing.data
    modifies db, db.transactionOverlay, db.backingOverlay, db.backing, batch
    ensures db.Valid(batch) && batch.ops == [] && EntryOfTx(old(db.transactionOverlay.data), id, e)
    ensures db.journal == old(db.journal)[now := [e]] && db.latestEra == LatestWith(old(db.latestEra), now)
    ensures db.transactionOverlay.data == map[] && key !in db.backing.data && db.ledger.lost == map[]
  {
    OneInserted(db.u, db.transactionOverlay.data, id, key);
    ghost var d, j, latest := db.backing.data, db.journal, db.latestEra;
    var count;
    count, e := db.JournalUnder(batch, now, id);
    NodesAside(db.u, d, j, latest, now, e, key);
    assert EntriesOf(j, now) + [e] == [e];
    db.WriteBatch(batch);
  }

  // ---- the early flush ----

  /** A block's only entry in the only era is canonical. */
  lemma MarkedAlone(j: Journal, g: Ledger, e: JournalEntry, key: H256)
    requires j == map[1 := [e]] && key in e.insertions && key !in e.deletions
    ensures var m := LedgerMarked(g, EntriesOf(j, 1), e.id);
      j - {1} == map[] && key in m.live && key !in m.hidden
  {
    assert CanonOf([e], e.id) == e;
  }

  /** A block is journalled and marked. What it inserted is read; after a flush it is not, until the batch
      is written. */
  method FlushHidesNode(h: HashFn, ghost u: Universe, key: H256, value: bytes, id: H256)
    returns (before: Option<bytes>, between: Option<bytes>, after: Option<bytes>)
    requires Proper(u, h) && key in u.keys && u.content(key) == value && |value| < 0x8000_0000
    ensures before == Some(value) && between == None && after == Some(value)
  {
    var db, batch := MarkOne(h, u, key, value, id);
    before := db.Get(key, batch);
    db.Flush(batch);
    between := FindNothing(db, batch, key);
    db.WriteBatch(batch);
    after := db.Get(key, batch);
  }

  /** One block, written and then marked. */
  method MarkOne(h: HashFn, ghost u: Universe, key: H256, value: bytes, id: H256)
    returns (db: OverlayRecentDB, batch: DBTransaction)
    requires Proper(u, h) && key in u.keys && u.content(key) == value && |value| < 0x8000_0000
    ensures fresh(db) && fresh(db.backing) && fresh(batch) && db.u == u && db.h == h && db.Valid(batch)
    ensures key in db.ledger.live && key !in db.ledger.hidden && db.transactionOverlay.data == map[]
    ensures db.journal == map[] && key !in db.backing.data
  {
    db, batch := OpenWith(h, u, key, value);
    ghost var e := JournalOne(db, batch, 1, id, key);
    MarkedAlone(db.journal, db.ledger, e, key);
    var ops := db.MarkCanonical(batch, 1, id);
  }
}
