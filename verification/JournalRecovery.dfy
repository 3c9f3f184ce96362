/** Reading the journal back from the written disk: from the latest era down until an era has no
    record. */
module JournalRecovery {
  import opened Bytes
  import opened RlpSpec
  import opened RlpDecoder
  import opened RlpRoundTrip
  import opened TrieNode
  import opened HashStore
  import opened JournalRecords
  import opened JournalCounts
  import opened JournalStates

  /** The overlay counts the journal's insertions, and size is the bytes it holds. */
  ghost predicate Counting(u: Universe, overlay: Data, size: int, j: Journal) {
    Reflects(u, overlay, Held(j)) && size == SumSizes(overlay)
  }

  // ---- what is found ----

  /** No era between this one and the latest is missing. */
  ghost predicate Reaches<E>(j: map<nat, E>, era: nat, latest: nat) {
    forall x :: era <= x <= latest ==> x in j
  }

  /** The eras in an unbroken run up to the latest. */
  ghost function RecoveredJournal<E>(j: map<nat, E>, latest: Option<nat>): map<nat, E> {
    if latest.None? then map[] else map era | era in j && Reaches(j, era, latest.value) :: j[era]
  }

  ghost predicate Contiguous<E>(j: map<nat, E>, latest: Option<nat>) {
    forall era :: era in j ==> latest.Some? && Reaches(j, era, latest.value)
  }

  /** All is recovered exactly when no era in between is missing. */
  lemma RecoveryIsExact<E>(j: map<nat, E>, latest: Option<nat>)
    ensures RecoveredJournal(j, latest) == j <==> Contiguous(j, latest)
  {
    if RecoveredJournal(j, latest) == j {
      forall era | era in j ensures latest.Some? && Reaches(j, era, latest.value) {
        assert era in RecoveredJournal(j, latest);
      }
    }
  }

  ghost function Above(j: Journal, era: nat): Journal {
    map e | e in j && e > era :: j[e]
  }

  lemma RunEnds(j: Journal, latest: nat, era: nat)
    requires era !in j && era <= latest && forall x :: era < x <= latest ==> x in j
    requires forall e :: e in j ==> e <= latest
    ensures Above(j, era) == RecoveredJournal(j, Some(latest))
  {
    var r := RecoveredJournal(j, Some(latest));
    forall e ensures e in Above(j, era) <==> e in r {
      if e in j && e <= era { assert !Reaches(j, e, latest); }
    }
  }

  lemma RunComplete(j: Journal, latest: nat)
    requires forall x :: 0 <= x <= latest ==> x in j
    requires forall e :: e in j ==> e <= latest
    ensures RecoveredJournal(j, Some(latest)) == j
  {
  }

  lemma AboveStep(j: Journal, era: nat)
    requires era in j
    ensures era > 0 ==> Above(j, era)[era := j[era]] == Above(j, era - 1)
    ensures era == 0 ==> Above(j, era)[era := j[era]] == j
  {
  }

  // ---- reading ----

  /** Replays a record's insertions into the overlay. */
  method ReplayInsertions(h: HashFn, insertions: bytes, overlay: MemoryDB, size: int,
                          ghost u: Universe, ghost keys: seq<H256>, ghost held: multiset<H256>)
    returns (insertedKeys: seq<H256>, newSize: int)
    requires insertions == Encode(List(InsertionItems(u.content, keys))) && |insertions| < RLP_LIMIT
    requires overlay.h == h && Proper(u, h) && (forall k :: k in keys ==> k in u.keys)
    requires Reflects(u, overlay.data, held) && size == SumSizes(overlay.data)
    modifies overlay
    ensures insertedKeys == keys
    ensures Reflects(u, overlay.data, held + multiset(keys)) && newSize == SumSizes(overlay.data)
  {
    InsertionPart(u.content, keys, 0);
    var n := ItemCount(insertions).value;
    insertedKeys, newSize := [], size;
    CountedNone(held, keys);
    var i := 0;
    while i < n
      invariant 0 <= i <= n && insertedKeys == keys[..i]
      invariant Reflects(u, overlay.data, CountedTo(held, keys, i)) && newSize == SumSizes(overlay.data)
    {
      var key;
      key, newSize := ReplayOne(h, insertions, overlay, newSize, i, u, keys, CountedTo(held, keys, i));
      CountedNext(held, keys, i);
      TakeSnoc(keys, i);
      insertedKeys := insertedKeys + [key];
      i := i + 1;
    }
    CountedAll(held, keys);
    TakeAll(keys);
  }

  /** Replays insertion i and hands over its key. */
  method ReplayOne(h: HashFn, insertions: bytes, overlay: MemoryDB, size: int, i: nat,
                   ghost u: Universe, ghost keys: seq<H256>, ghost held: multiset<H256>)
    returns (key: H256, newSize: int)
    requires insertions == Encode(List(InsertionItems(u.content, keys))) && |insertions| < RLP_LIMIT && i < |keys|
    requires overlay.h == h && Proper(u, h) && keys[i] in u.keys
    requires Reflects(u, overlay.data, held) && size == SumSizes(overlay.data)
    modifies overlay
    ensures key == keys[i]
    ensures Reflects(u, overlay.data, held + multiset{keys[i]}) && newSize == SumSizes(overlay.data)
  {
    InsertionPart(u.content, keys, i);
    EmplaceReflects(u, h, overlay.data, held, keys[i]);
    var r := At(insertions, i).value;
    key := Payload(At(r, 0).value).value;
    var v := Payload(At(r, 1).value).value;
    var short := Short(key);
    var present := overlay.Get(short);
    newSize := size;
    if present.None? {
      newSize := newSize + |v|;
    }
    overlay.Emplace(short, v);
  }

  /** Reads one record and replays it. */
  method ReadRecord(h: HashFn, data: bytes, overlay: MemoryDB, size: int,
                    ghost u: Universe, ghost e: JournalEntry, ghost held: multiset<H256>)
    returns (entry: JournalEntry, newSize: int)
    requires data == Record(u.content, e) && |data| < RLP_LIMIT && EntryOk(u, e)
    requires overlay.h == h && Proper(u, h)
    requires Reflects(u, overlay.data, held) && size == SumSizes(overlay.data)
    modifies overlay
    ensures entry == e
    ensures Reflects(u, overlay.data, held + multiset(e.insertions)) && newSize == SumSizes(overlay.data)
  {
    RecordParts(u.content, e);
    var id: H256 := Payload(At(data, 0).value).value;
    var inserted;
    inserted, newSize := ReplayInsertions(h, At(data, 1).value, overlay, size, u, e.insertions, held);
    var deletions := ReadKeys(At(data, 2).value, e.deletions);
    entry := JournalEntry(id, inserted, deletions);
  }

  /** The first n entries of an era added to a journal without it. */
  ghost function WithFirst(before: Journal, entries: seq<JournalEntry>, era: nat, n: nat): Journal
    requires n <= |entries|
  {
    if n == 0 then before else before[era := entries[..n]]
  }

  lemma WithFirstStep(before: Journal, entries: seq<JournalEntry>, era: nat, n: nat)
    requires n < |entries| && era !in before
    ensures var j := WithFirst(before, entries, era, n);
      WithFirst(before, entries, era, n + 1) == j[era := EntriesOf(j, era) + [entries[n]]] &&
      Held(WithFirst(before, entries, era, n + 1)) == Held(j) + multiset(entries[n].insertions)
  {
    var j := WithFirst(before, entries, era, n);
    TakeSnoc(entries, n);
    HeldAdd(j, era, entries[n]);
    assert j[era := entries[..n + 1]] == before[era := entries[..n + 1]];
  }

  /** Reads an era's records, index by index until one is missing. */
  method ReadEra(h: HashFn, disk: Disk, era: nat, before: Journal, overlay: MemoryDB, size: int,
                 ghost u: Universe, ghost j: Journal, ghost latest: Option<nat>)
    returns (journal: Journal, newSize: int, index: nat)
    requires JournalOnDisk(u, disk, j, latest) && era < U64_RANGE && era !in before
    requires overlay.h == h && Proper(u, h) && Counting(u, overlay.data, size, before)
    modifies overlay
    ensures index == |EntriesOf(j, era)| && journal == WithFirst(before, EntriesOf(j, era), era, index)
    ensures Counting(u, overlay.data, newSize, journal)
  {
    journal, newSize, index := before, size, 0;
    var more := true;
    while more
      invariant index <= |EntriesOf(j, era)| && (!more ==> index == |EntriesOf(j, era)|)
      invariant journal == WithFirst(before, EntriesOf(j, era), era, index)
      invariant Counting(u, overlay.data, newSize, journal)
      decreases |EntriesOf(j, era)| - index, more
    {
      more, journal, newSize := ReadNext(h, disk, era, index, journal, overlay, newSize, u, j, latest, before);
      index := if more then index + 1 else index;
    }
  }

  /** Reads the era's next record, if there is one. */
  method ReadNext(h: HashFn, disk: Disk, era: nat, index: nat, journal: Journal, overlay: MemoryDB, size: int,
                  ghost u: Universe, ghost j: Journal, ghost latest: Option<nat>, ghost before: Journal)
    returns (found: bool, after: Journal, newSize: int)
    requires JournalOnDisk(u, disk, j, latest) && era < U64_RANGE && era !in before && index <= |EntriesOf(j, era)|
    requires overlay.h == h && Proper(u, h) && Counting(u, overlay.data, size, journal)
    requires journal == WithFirst(before, EntriesOf(j, era), era, index)
    modifies overlay
    ensures found <==> index < |EntriesOf(j, era)|
    ensures after == WithFirst(before, EntriesOf(j, era), era, if found then index + 1 else index)
    ensures Counting(u, overlay.data, newSize, after)
  {
    EraRecord(u, disk, j, latest, era, index);
    var key := RecordKey(era, index);
    found := key in disk;
    if found {
      WithFirstStep(before, EntriesOf(j, era), era, index);
      after, newSize := PushRecord(h, disk[key], overlay, size, era, journal, u, EntriesOf(j, era)[index]);
    } else {
      after, newSize := journal, size;
    }
  }

  /** One record read, replayed and put behind the era's others. */
  method PushRecord(h: HashFn, data: bytes, overlay: MemoryDB, size: int, era: nat, journal: Journal,
                    ghost u: Universe, ghost e: JournalEntry)
    returns (after: Journal, newSize: int)
    requires data == Record(u.content, e) && |data| < RLP_LIMIT && EntryOk(u, e)
    requires overlay.h == h && Proper(u, h) && Counting(u, overlay.data, size, journal)
    modifies overlay
    ensures after == journal[era := EntriesOf(journal, era) + [e]] && Counting(u, overlay.data, newSize, after)
  {
    var entry;
    entry, newSize := ReadRecord(h, data, overlay, size, u, e, Held(journal));
    HeldAdd(journal, era, e);
    after := journal[era := EntriesOf(journal, era) + [entry]];
  }

  /** What the disk holds under an era's next index. */
  lemma EraRecord(u: Universe, disk: Disk, j: Journal, latest: Option<nat>, era: nat, index: nat)
    requires JournalOnDisk(u, disk, j, latest) && era < U64_RANGE && index <= |EntriesOf(j, era)|
    ensures |EntriesOf(j, era)| < U64_RANGE
    ensures RecordKey(era, index) in disk <==> index < |EntriesOf(j, era)|
    ensures index < |EntriesOf(j, era)| ==>
      disk[RecordKey(era, index)] == Record(u.content, EntriesOf(j, era)[index]) &&
      |disk[RecordKey(era, index)]| < RLP_LIMIT && EntryOk(u, EntriesOf(j, era)[index])
  {
    assert era in j ==> EraOk(u, j, era);
    assert KeyOnDisk(disk, j, era, index) && RecordAt(u, disk, j, era, index);
  }

  /** Reads everything from the latest era down to the first era without a record. */
  method ReadOverlay(h: HashFn, disk: Disk, overlay: MemoryDB, ghost u: Universe, ghost j: Journal,
                     ghost latest: Option<nat>)
    returns (journal: Journal, latestEra: Option<nat>, earliestEra: Option<nat>, size: int)
    requires JournalOnDisk(u, disk, j, latest) && overlay.h == h && overlay.data == map[] && Proper(u, h)
    modifies overlay
    ensures journal == RecoveredJournal(j, latest) && latestEra == latest
    ensures Counting(u, overlay.data, size, journal) && Earliest(journal, earliestEra)
  {
    journal, latestEra, earliestEra, size := map[], None, None, 0;
    if LATEST_ERA_KEY !in disk {
      return;
    }
    EraValueRoundTrip(latest.value);
    var era: nat := DecodeUint(disk[LATEST_ERA_KEY], 8).value;
    latestEra := Some(era);
    NothingAbove(u, disk, j, latest);
    while true
      invariant era <= latest.value && journal == Above(j, era) && RunTo(j, era, latest.value)
      invariant Counting(u, overlay.data, size, journal)
      invariant Earliest(journal, earliestEra)
      decreases era
    {
      var index;
      journal, size, index := ReadEra(h, disk, era, journal, overlay, size, u, j, latest);
      EraRead(u, disk, j, latest, era, index);
      EarliestRead(j, era, index, earliestEra);
      if index > 0 {
        earliestEra := Some(era);
      }
      if index == 0 || era == 0 {
        return;
      }
      era := era - 1;
    }
  }

  /** The least era of the journal, if it has any. */
  ghost predicate Earliest(j: Journal, earliest: Option<nat>) {
    match earliest
    case None => j == map[]
    case Some(e) => e in j && forall era :: era in j ==> e <= era
  }

  lemma EarliestRead(j: Journal, era: nat, index: nat, earliest: Option<nat>)
    requires Earliest(Above(j, era), earliest) && index == |EntriesOf(j, era)|
    ensures Earliest(WithFirst(Above(j, era), EntriesOf(j, era), era, index), if index > 0 then Some(era) else earliest)
  {
  }

  /** The eras above this one, up to the latest, are all there. */
  ghost predicate RunTo(j: Journal, era: nat, latest: nat) {
    forall x :: era < x <= latest ==> x in j
  }

  lemma NothingAbove(u: Universe, disk: Disk, j: Journal, latest: Option<nat>)
    requires JournalOnDisk(u, disk, j, latest) && latest.Some?
    ensures Above(j, latest.value) == map[] && RunTo(j, latest.value, latest.value)
  {
    forall e ensures e !in Above(j, latest.value) { assert EraUpTo(j, latest, e); }
  }

  lemma NoneLater(u: Universe, disk: Disk, j: Journal, latest: Option<nat>)
    requires JournalOnDisk(u, disk, j, latest)
    ensures forall e :: e in j ==> latest.Some? && e <= latest.value
  {
    forall e | e in j ensures latest.Some? && e <= latest.value { assert EraUpTo(j, latest, e); }
  }

  lemma EraRead(u: Universe, disk: Disk, j: Journal, latest: Option<nat>, era: nat, index: nat)
    requires JournalOnDisk(u, disk, j, latest) && latest.Some? && era <= latest.value && RunTo(j, era, latest.value)
    requires index == |EntriesOf(j, era)|
    ensures var r := WithFirst(Above(j, era), EntriesOf(j, era), era, index);
      if index == 0 || era == 0 then r == RecoveredJournal(j, latest)
      else r == Above(j, era - 1) && RunTo(j, era - 1, latest.value)
  {
    NoneLater(u, disk, j, latest);
    assert era in j ==> EraOk(u, j, era);
    RunRead(j, latest.value, era);
  }

  lemma RunRead(j: Journal, latest: nat, era: nat)
    requires era <= latest && RunTo(j, era, latest) &&
      (forall e :: e in j ==> e <= latest) && (era in j ==> j[era] != [])
    ensures var r := WithFirst(Above(j, era), EntriesOf(j, era), era, |EntriesOf(j, era)|);
      if era !in j || era == 0 then r == RecoveredJournal(j, Some(latest))
      else r == Above(j, era - 1) && RunTo(j, era - 1, latest)
  {
    if era !in j {
      RunEnds(j, latest, era);
    } else {
      AboveStep(j, era);
      TakeAll(j[era]);
      if era == 0 { RunComplete(j, latest); }
    }
  }
}
