/** The pruning journal's records as written to the backing database: their keys, which no two
    records share and no node or marker has, and their contents. */
module JournalRecords {
  import opened Bytes
  import opened RlpSpec
  import opened RlpDecoder
  import opened RlpRoundTrip
  import opened TrieNode

  const DB_PREFIX_LEN := 12

  /** "last" and eight zeros. */
  const LATEST_ERA_KEY: bytes := [108, 97, 115, 116, 0, 0, 0, 0, 0, 0, 0, 0]

  const PADDING: bytes := [0, 0, 0, 0, 0, 0, 0, 0, 0, 0]

  const U64_RANGE := 0x1_0000_0000_0000_0000

  /** What one block did: the keys it inserted and the keys it deleted. */
  datatype JournalEntry = JournalEntry(id: H256, insertions: seq<H256>, deletions: seq<H256>)

  // ---- keys ----

  function RecordKeyItem(era: nat, index: nat): Item {
    List([Item.Data(UintBytes(era, 8)), Item.Data(UintBytes(index, 8)), Item.Data(PADDING)])
  }

  function RecordKey(era: nat, index: nat): bytes {
    Encode(RecordKeyItem(era, index))
  }

  lemma UintBytesLength(n: nat)
    requires n < U64_RANGE
    ensures UintBytes(n, 8) == BigEndian(n) && |UintBytes(n, 8)| <= 8
    ensures 1 <= |EncodeData(UintBytes(n, 8))| <= 9
  {
    Pow256Values();
    UintRoundTrip(n, 8);
    BigEndianLength(n, 8);
  }

  lemma EncodeAllThree(a: Item, b: Item, c: Item)
    ensures EncodeAll([a, b, c]) == Encode(a) + Encode(b) + Encode(c)
  {
    EncodeAllSnoc([a, b], c);
    EncodeAllSnoc([a], b);
    EncodeAllSnoc([], a);
    assert [a, b] + [c] == [a, b, c] && [a] + [b] == [a, b] && [] + [a] == [a];
  }

  /** Longer than the latest-era marker, shorter than a node's key. */
  lemma RecordKeyLength(era: nat, index: nat)
    requires era < U64_RANGE && index < U64_RANGE
    ensures 14 <= |RecordKey(era, index)| <= 30
    ensures |LATEST_ERA_KEY| < |RecordKey(era, index)| < 32
  {
    UintBytesLength(era);
    UintBytesLength(index);
    EncodeAllThree(Item.Data(UintBytes(era, 8)), Item.Data(UintBytes(index, 8)), Item.Data(PADDING));
    assert |EncodeData(PADDING)| == 11;
  }

  lemma RecordKeyInjective(era: nat, index: nat, era': nat, index': nat)
    requires era < U64_RANGE && index < U64_RANGE && era' < U64_RANGE && index' < U64_RANGE
    requires RecordKey(era, index) == RecordKey(era', index')
    ensures era == era' && index == index'
  {
    RecordKeyLength(era, index);
    EncodeInjective(RecordKeyItem(era, index), RecordKeyItem(era', index'));
    assert RecordKeyItem(era, index).items[0] == RecordKeyItem(era', index').items[0];
    assert RecordKeyItem(era, index).items[1] == RecordKeyItem(era', index').items[1];
    UintBytesLength(era);
    UintBytesLength(era');
    UintBytesLength(index);
    UintBytesLength(index');
    BigEndianInjective(era, era');
    BigEndianInjective(index, index');
  }

  /** The latest-era marker's value. */
  function EraValue(era: nat): bytes {
    EncodeUint(era, 8)
  }

  lemma EraValueRoundTrip(era: nat)
    requires era < U64_RANGE
    ensures DecodeUint(EraValue(era), 8) == Ok(era)
  {
    Pow256Values();
    UintRoundTrip(era, 8);
  }

  // ---- contents ----

  function InsertionItem(content: H256 -> bytes, k: H256): Item {
    List([Item.Data(k), Item.Data(content(k))])
  }

  function InsertionItems(content: H256 -> bytes, keys: seq<H256>): (r: seq<Item>)
    ensures |r| == |keys| && forall i :: 0 <= i < |keys| ==> r[i] == InsertionItem(content, keys[i])
  {
    seq(|keys|, i requires 0 <= i < |keys| => InsertionItem(content, keys[i]))
  }

  function KeyItems(keys: seq<H256>): (r: seq<Item>)
    ensures |r| == |keys| && forall i :: 0 <= i < |keys| ==> r[i] == Item.Data(keys[i])
  {
    seq(|keys|, i requires 0 <= i < |keys| => Item.Data(keys[i]))
  }

  /** What a reader finds at the three positions of a record's key. */
  lemma RecordKeyParts(era: nat, index: nat)
    requires era < U64_RANGE && index < U64_RANGE
    ensures var b := RecordKey(era, index);
      ItemCount(b) == Ok(3) && At(b, 0).Ok? && DecodeUint(At(b, 0).value, 8) == Ok(era) &&
      At(b, 1).Ok? && DecodeUint(At(b, 1).value, 8) == Ok(index) &&
      At(b, 2).Ok? && DecodeValue(At(b, 2).value) == Ok(PADDING)
  {
    var items := RecordKeyItem(era, index).items;
    RecordKeyLength(era, index);
    AtEncoded(items, 0);
    AtEncoded(items, 1);
    AtEncoded(items, 2);
    Pow256Values();
    UintRoundTrip(era, 8);
    UintRoundTrip(index, 8);
    DecodeValueEncoded(PADDING);
  }

  function RecordItem(content: H256 -> bytes, e: JournalEntry): Item {
    List([Item.Data(e.id), List(InsertionItems(content, e.insertions)), List(KeyItems(e.deletions))])
  }

  function Record(content: H256 -> bytes, e: JournalEntry): bytes {
    Encode(RecordItem(content, e))
  }

  /** What a reader finds at the three positions of a record. */
  lemma RecordParts(content: H256 -> bytes, e: JournalEntry)
    requires |Record(content, e)| < RLP_LIMIT
    ensures var b := Record(content, e);
      At(b, 0) == Ok(Encode(Item.Data(e.id))) && Payload(Encode(Item.Data(e.id))) == Ok(e.id) &&
      At(b, 1) == Ok(Encode(List(InsertionItems(content, e.insertions)))) &&
      At(b, 2) == Ok(Encode(List(KeyItems(e.deletions))))
    ensures |Encode(List(InsertionItems(content, e.insertions)))| <= |Record(content, e)|
    ensures |Encode(List(KeyItems(e.deletions)))| <= |Record(content, e)|
  {
    var items := RecordItem(content, e).items;
    AtEncoded(items, 0);
    AtEncoded(items, 1);
    AtEncoded(items, 2);
    EncodeElementLength(items, 0);
    EncodeElementLength(items, 1);
    EncodeElementLength(items, 2);
    PayloadOfEncoded(Item.Data(e.id));
  }

  lemma KeyPart(keys: seq<H256>, i: nat)
    requires |Encode(List(KeyItems(keys)))| < RLP_LIMIT
    ensures ItemCount(Encode(List(KeyItems(keys)))) == Ok(|keys|)
    ensures i < |keys| ==>
      At(Encode(List(KeyItems(keys))), i) == Ok(Encode(Item.Data(keys[i]))) &&
        Payload(Encode(Item.Data(keys[i]))) == Ok(keys[i])
  {
    AtEncoded(KeyItems(keys), i);
    if i < |keys| {
      EncodeElementLength(KeyItems(keys), i);
      PayloadOfEncoded(Item.Data(keys[i]));
    }
  }

  lemma InsertionPart(content: H256 -> bytes, keys: seq<H256>, i: nat)
    requires |Encode(List(InsertionItems(content, keys)))| < RLP_LIMIT
    ensures ItemCount(Encode(List(InsertionItems(content, keys)))) == Ok(|keys|)
    ensures i < |keys| ==>
      At(Encode(List(InsertionItems(content, keys))), i) == Ok(Encode(InsertionItem(content, keys[i]))) &&
      PairReads(Encode(InsertionItem(content, keys[i])), keys[i], content(keys[i]))
  {
    AtEncoded(InsertionItems(content, keys), i);
    if i < |keys| {
      EncodeElementLength(InsertionItems(content, keys), i);
      PairPart(keys[i], content(keys[i]));
    }
  }

  /** b reads as a list of the two byte strings. */
  ghost predicate PairReads(b: bytes, k: bytes, v: bytes) {
    At(b, 0).Ok? && Payload(At(b, 0).value) == Ok(k) && At(b, 1).Ok? && Payload(At(b, 1).value) == Ok(v)
  }

  lemma PairPart(k: bytes, v: bytes)
    requires |Encode(List([Item.Data(k), Item.Data(v)]))| < RLP_LIMIT
    ensures PairReads(Encode(List([Item.Data(k), Item.Data(v)])), k, v)
  {
    var items := [Item.Data(k), Item.Data(v)];
    AtEncoded(items, 0);
    AtEncoded(items, 1);
    EncodeElementLength(items, 0);
    EncodeElementLength(items, 1);
    PayloadOfEncoded(items[0]);
    PayloadOfEncoded(items[1]);
  }

  /** Reads a list of keys. */
  method ReadKeys(b: bytes, ghost keys: seq<H256>) returns (r: seq<H256>)
    requires b == Encode(List(KeyItems(keys))) && |b| < RLP_LIMIT
    ensures r == keys
  {
    KeyPart(keys, 0);
    var n := ItemCount(b).value;
    r := [];
    var i := 0;
    while i < n
      invariant 0 <= i <= n && r == keys[..i]
    {
      KeyPart(keys, i);
      TakeSnoc(keys, i);
      r := r + [Payload(At(b, i).value).value];
      i := i + 1;
    }
    TakeAll(keys);
  }
}
