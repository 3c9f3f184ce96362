/** Log blooms: three bits per address or topic, combined by OR, and the filter that asks for them. */
module Blooms {
  import opened Bytes
  import opened TrieNode

  const BLOOM_SIZE := 256
  const BLOOM_BITS := 2048

  type Bloom = b: seq<bv8> | |b| == BLOOM_SIZE witness seq(BLOOM_SIZE, _ => 0)

  function NoBits(): (b: Bloom) {
    seq(BLOOM_SIZE, _ => 0)
  }

  function Or(a: Bloom, b: Bloom): (r: Bloom)
    ensures forall i :: 0 <= i < BLOOM_SIZE ==> r[i] == a[i] | b[i]
  {
    seq(BLOOM_SIZE, i requires 0 <= i < BLOOM_SIZE => a[i] | b[i])
  }

  /** Every bit of b is set in a. */
  ghost predicate Contains(a: Bloom, b: Bloom) {
    forall i :: 0 <= i < BLOOM_SIZE ==> a[i] & b[i] == b[i]
  }

  lemma ByteTransitive(a: bv8, b: bv8, c: bv8)
    requires a & b == b && b & c == c
    ensures a & c == c
  {
    assert a & c == a & (b & c) == (a & b) & c;
  }

  lemma ByteOrContains(a: bv8, b: bv8)
    ensures (a | b) & a == a && (a | b) & b == b
  {
  }

  lemma ByteContainsOr(a: bv8, b: bv8, c: bv8)
    requires a & b == b && a & c == c
    ensures a & (b | c) == b | c
  {
    assert a & (b | c) == (a & b) | (a & c);
  }

  lemma ByteNone(a: bv8)
    ensures a | 0 == a && 0 | a == a && a & 0 == 0
  {
  }

  lemma ByteOrThrice(a: bv8, b: bv8, c: bv8)
    ensures (a | b) | c == a | (b | c)
  {
  }

  lemma ContainsTransitive(a: Bloom, b: Bloom, c: Bloom)
    requires Contains(a, b) && Contains(b, c)
    ensures Contains(a, c)
  {
    forall i | 0 <= i < BLOOM_SIZE ensures a[i] & c[i] == c[i] { ByteTransitive(a[i], b[i], c[i]); }
  }

  lemma OrContains(a: Bloom, b: Bloom)
    ensures Contains(Or(a, b), a) && Contains(Or(a, b), b)
  {
    forall i | 0 <= i < BLOOM_SIZE ensures Or(a, b)[i] & a[i] == a[i] && Or(a, b)[i] & b[i] == b[i] {
      ByteOrContains(a[i], b[i]);
    }
  }

  /** A combination is contained exactly when both parts are. */
  lemma ContainsOr(a: Bloom, b: Bloom, c: Bloom)
    ensures Contains(a, Or(b, c)) <==> Contains(a, b) && Contains(a, c)
  {
    if Contains(a, b) && Contains(a, c) {
      forall i | 0 <= i < BLOOM_SIZE ensures a[i] & Or(b, c)[i] == Or(b, c)[i] { ByteContainsOr(a[i], b[i], c[i]); }
    }
    if Contains(a, Or(b, c)) {
      OrContains(b, c);
      ContainsTransitive(a, Or(b, c), b);
      ContainsTransitive(a, Or(b, c), c);
    }
  }

  lemma ContainsNone(a: Bloom)
    ensures Contains(a, NoBits())
  {
    forall i | 0 <= i < BLOOM_SIZE ensures a[i] & NoBits()[i] == NoBits()[i] { ByteNone(a[i]); }
  }

  lemma OrNone(a: Bloom)
    ensures Or(a, NoBits()) == a && Or(NoBits(), a) == a
  {
    forall i | 0 <= i < BLOOM_SIZE ensures Or(a, NoBits())[i] == a[i] && Or(NoBits(), a)[i] == a[i] { ByteNone(a[i]); }
  }

  // ---- accruing ----

  /** Bit k of a byte. */
  function Bit(k: nat): bv8
    requires k < 8
  {
    (1 as bv8) << k
  }

  function SetBit(b: Bloom, index: nat): Bloom
    requires index < BLOOM_BITS
  {
    var at := BLOOM_SIZE - 1 - index / 8;
    b[at := b[at] | Bit(index % 8)]
  }

  /** The i-th index: two hash bytes, eleven bits of them. */
  function Index(hash: H256, i: nat): (n: nat)
    requires i < 3
    ensures n < BLOOM_BITS
  {
    (hash[2 * i] * 256 + hash[2 * i + 1]) % BLOOM_BITS
  }

  function Accrued(b: Bloom, hash: H256): Bloom {
    SetBit(SetBit(SetBit(b, Index(hash, 0)), Index(hash, 1)), Index(hash, 2))
  }

  /** The three bits of an input. */
  function BitsOf(h: HashFn, raw: bytes): Bloom {
    Accrued(NoBits(), h(raw))
  }

  lemma SetBitOr(a: Bloom, b: Bloom, index: nat)
    requires index < BLOOM_BITS
    ensures SetBit(Or(a, b), index) == Or(a, SetBit(b, index))
  {
    SetByteOr(a, b, BLOOM_SIZE - 1 - index / 8, Bit(index % 8));
  }

  lemma SetByteOr(a: Bloom, b: Bloom, at: nat, bits: bv8)
    requires at < BLOOM_SIZE
    ensures Or(a, b)[at := Or(a, b)[at] | bits] == Or(a, b[at := b[at] | bits])
  {
    ByteOrThrice(a[at], b[at], bits);
  }

  /** Accruing is combining with the input's own bits. */
  lemma AccruedIsOr(b: Bloom, hash: H256)
    ensures Accrued(b, hash) == Or(b, Accrued(NoBits(), hash))
  {
    OrNone(b);
    var x := SetBit(NoBits(), Index(hash, 0));
    SetBitOr(b, NoBits(), Index(hash, 0));
    SetBitOr(b, x, Index(hash, 1));
    SetBitOr(b, SetBit(x, Index(hash, 1)), Index(hash, 2));
  }

  /** Bit j of a bloom, counted from its end. */
  predicate BitSet(b: Bloom, j: nat)
    requires j < BLOOM_BITS
  {
    b[BLOOM_SIZE - 1 - j / 8] & Bit(j % 8) != 0
  }

  lemma OneBit(a: bv8, j: nat, k: nat)
    requires j < 8 && k < 8
    ensures (a | Bit(k)) & Bit(j) != 0 <==> a & Bit(j) != 0 || j == k
  {
  }

  lemma SetBitSets(b: Bloom, index: nat, j: nat)
    requires index < BLOOM_BITS && j < BLOOM_BITS
    ensures BitSet(SetBit(b, index), j) <==> BitSet(b, j) || j == index
  {
    if j / 8 == index / 8 { OneBit(b[BLOOM_SIZE - 1 - j / 8], j % 8, index % 8); }
  }

  /** The bits set are those from before and three more: the low eleven bits of the first, second and third
      pair of hash bytes. */
  lemma AccruedBits(b: Bloom, hash: H256, j: nat)
    requires j < BLOOM_BITS
    ensures BitSet(Accrued(b, hash), j) <==>
      BitSet(b, j) || j == (hash[0] as int * 256 + hash[1] as int) % 2048 ||
      j == (hash[2] as int * 256 + hash[3] as int) % 2048 || j == (hash[4] as int * 256 + hash[5] as int) % 2048
  {
    var x := SetBit(b, Index(hash, 0));
    var y := SetBit(x, Index(hash, 1));
    SetBitSets(b, Index(hash, 0), j);
    SetBitSets(x, Index(hash, 1), j);
    SetBitSets(y, Index(hash, 2), j);
  }

  lemma ByteOrBit(a: bv8, b: bv8, m: bv8)
    ensures (a | b) & m != 0 <==> a & m != 0 || b & m != 0
    ensures 0 & m == 0
  {
  }

  /** A combination has the bits of both. */
  lemma OrBits(a: Bloom, b: Bloom, j: nat)
    requires j < BLOOM_BITS
    ensures BitSet(Or(a, b), j) <==> BitSet(a, j) || BitSet(b, j)
    ensures !BitSet(NoBits(), j)
  {
    var at := BLOOM_SIZE - 1 - j / 8;
    ByteOrBit(a[at], b[at], Bit(j % 8));
  }

  lemma ByteContainsBits(a: bv8, b: bv8)
    ensures a & b == b <==>
      (b & 1 != 0 ==> a & 1 != 0) && (b & 2 != 0 ==> a & 2 != 0) && (b & 4 != 0 ==> a & 4 != 0) &&
      (b & 8 != 0 ==> a & 8 != 0) && (b & 16 != 0 ==> a & 16 != 0) && (b & 32 != 0 ==> a & 32 != 0) &&
      (b & 64 != 0 ==> a & 64 != 0) && (b & 128 != 0 ==> a & 128 != 0)
  {
  }

  lemma BitValues()
    ensures Bit(0) == 1 && Bit(1) == 2 && Bit(2) == 4 && Bit(3) == 8
    ensures Bit(4) == 16 && Bit(5) == 32 && Bit(6) == 64 && Bit(7) == 128
  {
  }

  ghost predicate BitContained(a: Bloom, b: Bloom, j: nat)
    requires j < BLOOM_BITS
  {
    BitSet(b, j) ==> BitSet(a, j)
  }

  /** Containing is having every bit. */
  lemma ContainsBits(a: Bloom, b: Bloom)
    ensures Contains(a, b) <==> forall j :: 0 <= j < BLOOM_BITS ==> BitContained(a, b, j)
  {
    BitValues();
    if Contains(a, b) {
      forall j | 0 <= j < BLOOM_BITS ensures BitContained(a, b, j) {
        var at := BLOOM_SIZE - 1 - j / 8;
        ByteContainsBits(a[at], b[at]);
      }
    }
    if forall j :: 0 <= j < BLOOM_BITS ==> BitContained(a, b, j) {
      forall i | 0 <= i < BLOOM_SIZE ensures a[i] & b[i] == b[i] { ByteContained(a, b, i); }
    }
  }

  lemma ByteContained(a: Bloom, b: Bloom, i: nat)
    requires i < BLOOM_SIZE && forall j :: 0 <= j < BLOOM_BITS ==> BitContained(a, b, j)
    ensures a[i] & b[i] == b[i]
  {
    BitValues();
    ByteContainsBits(a[i], b[i]);
    forall k: nat | k < 8 ensures b[i] & Bit(k) != 0 ==> a[i] & Bit(k) != 0 { BitOfByte(a, b, i, k); }
  }

  lemma BitOfByte(a: Bloom, b: Bloom, i: nat, k: nat)
    requires i < BLOOM_SIZE && k < 8 && forall j :: 0 <= j < BLOOM_BITS ==> BitContained(a, b, j)
    ensures b[i] & Bit(k) != 0 ==> a[i] & Bit(k) != 0
  {
    var j := 8 * (BLOOM_SIZE - 1 - i) + k;
    assert BitContained(a, b, j) && j / 8 == BLOOM_SIZE - 1 - i && j % 8 == k;
  }

  /** Sets the three bits in place. */
  method Accrue(bloom: array<bv8>, hash: H256)
    requires bloom.Length == BLOOM_SIZE
    modifies bloom
    ensures bloom[..] == Accrued(old(bloom[..]), hash)
    ensures bloom[..] == Or(old(bloom[..]), Accrued(NoBits(), hash))
  {
    AccruedIsOr(bloom[..], hash);
    AccrueOne(bloom, hash, 0);
    AccrueOne(bloom, hash, 1);
    AccrueOne(bloom, hash, 2);
  }

  /** One of the three: two bytes of the hash from position 2i. */
  method AccrueOne(bloom: array<bv8>, hash: H256, i: nat)
    requires bloom.Length == BLOOM_SIZE && i < 3
    modifies bloom
    ensures bloom[..] == SetBit(old(bloom[..]), Index(hash, i))
  {
    var index := 0;
    index := index * 256 + hash[2 * i];
    index := index * 256 + hash[2 * i + 1];
    index := index % BLOOM_BITS;
    var at := BLOOM_SIZE - 1 - index / 8;
    bloom[at] := bloom[at] | Bit(index % 8);
  }

  method AccrueBloom(bloom: array<bv8>, other: Bloom)
    requires bloom.Length == BLOOM_SIZE
    modifies bloom
    ensures bloom[..] == Or(old(bloom[..]), other)
  {
    var i := 0;
    while i < BLOOM_SIZE
      invariant 0 <= i <= BLOOM_SIZE
      invariant forall k :: 0 <= k < i ==> bloom[k] == old(bloom[k]) | other[k]
      invariant forall k :: i <= k < BLOOM_SIZE ==> bloom[k] == old(bloom[k])
    {
      bloom[i] := bloom[i] | other[i];
      i := i + 1;
    }
  }

  method ContainsBloom(a: Bloom, b: Bloom) returns (r: bool)
    ensures r <==> Contains(a, b)
  {
    var i := 0;
    while i < BLOOM_SIZE
      invariant 0 <= i <= BLOOM_SIZE && forall k :: 0 <= k < i ==> a[k] & b[k] == b[k]
    {
      if a[i] & b[i] != b[i] {
        return false;
      }
      i := i + 1;
    }
    return true;
  }

  /** Whether an input may have been accrued: never no when it was. */
  method ContainsInput(h: HashFn, a: Bloom, raw: bytes) returns (r: bool)
    ensures r <==> Contains(a, BitsOf(h, raw))
  {
    r := ContainsBloom(a, BitsOf(h, raw));
  }

  // ---- logs and receipts ----

  /** The bits of an input, to be combined by OR. */
  type BitsFn = bytes -> Bloom

  function BitsFor(h: HashFn): BitsFn {
    (raw: bytes) => BitsOf(h, raw)
  }

  datatype LogEntry = LogEntry(address: H256, topics: seq<H256>, data: bytes)

  /** The address's bits and those of the first n topics. */
  function BloomUpTo(bits: BitsFn, log: LogEntry, n: nat): Bloom
    requires n <= |log.topics|
  {
    if n == 0 then bits(log.address) else Or(BloomUpTo(bits, log, n - 1), bits(log.topics[n - 1]))
  }

  function LogBloom(bits: BitsFn, log: LogEntry): Bloom {
    BloomUpTo(bits, log, |log.topics|)
  }

  ghost predicate BitsAgree(bits: BitsFn, h: HashFn, raw: bytes) {
    bits(raw) == BitsOf(h, raw)
  }

  /** The bits are those of the digest. */
  ghost predicate Agrees(bits: BitsFn, h: HashFn) {
    forall raw :: BitsAgree(bits, h, raw)
  }

  lemma BitsForAgrees(h: HashFn)
    ensures Agrees(BitsFor(h), h)
  {
  }

  method AccrueRaw(b: array<bv8>, h: HashFn, raw: bytes, ghost bits: BitsFn)
    requires b.Length == BLOOM_SIZE && Agrees(bits, h)
    modifies b
    ensures b[..] == Or(old(b[..]), bits(raw))
  {
    assert BitsAgree(bits, h, raw);
    Accrue(b, h(raw));
  }

  /** A bloom of one input. */
  method BloomFrom(h: HashFn, raw: bytes, ghost bits: BitsFn) returns (b: array<bv8>)
    requires Agrees(bits, h)
    ensures fresh(b) && b.Length == BLOOM_SIZE && b[..] == bits(raw)
  {
    b := new bv8[BLOOM_SIZE](_ => 0);
    assert b[..] == NoBits();
    AccrueRaw(b, h, raw, bits);
    OrNone(bits(raw));
  }

  /** The log's bloom, accrued in place from the address's bits. */
  method ComputeLogBloom(h: HashFn, log: LogEntry, ghost bits: BitsFn) returns (b: array<bv8>)
    requires Agrees(bits, h)
    ensures fresh(b) && b.Length == BLOOM_SIZE && b[..] == LogBloom(bits, log)
  {
    b := BloomFrom(h, log.address, bits);
    var i := 0;
    while i < |log.topics|
      invariant 0 <= i <= |log.topics| && b[..] == BloomUpTo(bits, log, i)
    {
      AccrueRaw(b, h, log.topics[i], bits);
      i := i + 1;
    }
  }

  /** The address and every topic are in the log's bloom. */
  lemma {:induction false} LogBloomContains(bits: BitsFn, log: LogEntry, n: nat, i: nat)
    requires n <= |log.topics|
    ensures Contains(BloomUpTo(bits, log, n), bits(log.address))
    ensures i < n ==> Contains(BloomUpTo(bits, log, n), bits(log.topics[i]))
  {
    if n == 0 {
      OrNone(bits(log.address));
      OrContains(bits(log.address), NoBits());
    } else {
      var before, own := BloomUpTo(bits, log, n - 1), bits(log.topics[n - 1]);
      OrContains(before, own);
      LogBloomContains(bits, log, n - 1, i);
      ContainsTransitive(Or(before, own), before, bits(log.address));
      if i < n - 1 { ContainsTransitive(Or(before, own), before, bits(log.topics[i])); }
    }
  }

  /** The OR of all logs' blooms. */
  function ReceiptBloom(bits: BitsFn, logs: seq<LogEntry>): Bloom {
    if logs == [] then NoBits() else Or(ReceiptBloom(bits, logs[..|logs| - 1]), LogBloom(bits, logs[|logs| - 1]))
  }

  /** The fold over a receipt's logs. */
  method ComputeReceiptBloom(h: HashFn, logs: seq<LogEntry>, ghost bits: BitsFn) returns (b: array<bv8>)
    requires Agrees(bits, h)
    ensures fresh(b) && b.Length == BLOOM_SIZE && b[..] == ReceiptBloom(bits, logs)
  {
    b := new bv8[BLOOM_SIZE](_ => 0);
    assert b[..] == NoBits();
    var i := 0;
    while i < |logs|
      invariant 0 <= i <= |logs| && b[..] == ReceiptBloom(bits, logs[..i])
    {
      var own := ComputeLogBloom(h, logs[i], bits);
      ReceiptBloomSnoc(bits, logs, i);
      AccrueBloom(b, own[..]);
      i := i + 1;
    }
    TakeAll(logs);
  }

  lemma ReceiptBloomSnoc(bits: BitsFn, logs: seq<LogEntry>, i: nat)
    requires i < |logs|
    ensures ReceiptBloom(bits, logs[..i + 1]) == Or(ReceiptBloom(bits, logs[..i]), LogBloom(bits, logs[i]))
  {
    assert logs[..i + 1][..i] == logs[..i];
  }

  /** Only the address and the topics set bits in a log's bloom. */
  lemma {:induction false} LogBloomBits(bits: BitsFn, log: LogEntry, n: nat, j: nat)
    requires n <= |log.topics| && j < BLOOM_BITS
    ensures BitSet(BloomUpTo(bits, log, n), j) <==>
      BitSet(bits(log.address), j) || exists i :: 0 <= i < n && BitSet(bits(log.topics[i]), j)
  {
    if n > 0 {
      LogBloomBits(bits, log, n - 1, j);
      OrBits(BloomUpTo(bits, log, n - 1), bits(log.topics[n - 1]), j);
    }
  }

  /** Only its logs set bits in a receipt's bloom. */
  lemma {:induction false} ReceiptBits(bits: BitsFn, logs: seq<LogEntry>, j: nat)
    requires j < BLOOM_BITS
    ensures BitSet(ReceiptBloom(bits, logs), j) <==>
      exists i :: 0 <= i < |logs| && BitSet(LogBloom(bits, logs[i]), j)
  {
    if logs == [] {
      OrBits(NoBits(), NoBits(), j);
    } else {
      var n := |logs| - 1;
      ReceiptBits(bits, logs[..n], j);
      OrBits(ReceiptBloom(bits, logs[..n]), LogBloom(bits, logs[n]), j);
      if i :| 0 <= i < n && BitSet(LogBloom(bits, logs[..n][i]), j) { assert logs[..n][i] == logs[i]; }
      if i :| 0 <= i < n && BitSet(LogBloom(bits, logs[i]), j) { assert logs[..n][i] == logs[i]; }
    }
  }

  lemma {:induction false} ReceiptContains(bits: BitsFn, logs: seq<LogEntry>, i: nat)
    requires i < |logs|
    ensures Contains(ReceiptBloom(bits, logs), LogBloom(bits, logs[i]))
  {
    var front, last := ReceiptBloom(bits, logs[..|logs| - 1]), LogBloom(bits, logs[|logs| - 1]);
    OrContains(front, last);
    if i < |logs| - 1 {
      ReceiptContains(bits, logs[..|logs| - 1], i);
      ContainsTransitive(Or(front, last), front, LogBloom(bits, logs[i]));
    }
  }

  // ---- filters ----

  /** None matches anything; so does an empty list when matching, but not among the possibilities. */
  datatype Filter = Filter(address: Option<seq<H256>>, topics: seq<Option<seq<H256>>>)

  predicate AddressMatches(f: Filter, log: LogEntry) {
    f.address.Some? && f.address.value != [] ==> log.address in f.address.value
  }

  predicate TopicMatches(f: Filter, log: LogEntry, i: nat)
    requires i < |f.topics|
  {
    f.topics[i].Some? && f.topics[i].value != [] ==> i < |log.topics| && log.topics[i] in f.topics[i].value
  }

  predicate Matches(f: Filter, log: LogEntry) {
    AddressMatches(f, log) && forall i :: 0 <= i < |f.topics| ==> TopicMatches(f, log, i)
  }

  function AddressBlooms(bits: BitsFn, f: Filter): (r: seq<Bloom>)
    ensures |r| > 0
  {
    if f.address.Some? && f.address.value != [] then
      seq<Bloom>(|f.address.value|, i requires 0 <= i < |f.address.value| => bits(f.address.value[i]))
    else [NoBits()]
  }

  /** One bloom extended by each of the topics. */
  function Extended(bits: BitsFn, b: Bloom, topics: seq<H256>): (r: seq<Bloom>)
    ensures |r| == |topics| && forall i :: 0 <= i < |topics| ==> r[i] == Or(b, bits(topics[i]))
  {
    seq<Bloom>(|topics|, i requires 0 <= i < |topics| => Or(b, bits(topics[i])))
  }

  function AllExtended(bits: BitsFn, blooms: seq<Bloom>, topics: seq<H256>): seq<Bloom> {
    if blooms == [] then [] else Extended(bits, blooms[0], topics) + AllExtended(bits, blooms[1..], topics)
  }

  function PossibilitiesUpTo(bits: BitsFn, f: Filter, n: nat): seq<Bloom>
    requires n <= |f.topics|
  {
    if n == 0 then AddressBlooms(bits, f)
    else if f.topics[n - 1].None? then PossibilitiesUpTo(bits, f, n - 1)
    else AllExtended(bits, PossibilitiesUpTo(bits, f, n - 1), f.topics[n - 1].value)
  }

  /** One bloom for each choice of an address and a topic at each position. */
  function BloomPossibilities(bits: BitsFn, f: Filter): seq<Bloom> {
    PossibilitiesUpTo(bits, f, |f.topics|)
  }

  // ---- the possibilities as the filter computes them ----

  /** A bloom for every address, or one without bits. */
  method ComputeAddressBlooms(h: HashFn, f: Filter, ghost bits: BitsFn) returns (blooms: seq<Bloom>)
    requires Agrees(bits, h)
    ensures blooms == AddressBlooms(bits, f)
  {
    if f.address.None? || f.address.value == [] {
      return [NoBits()];
    }
    blooms := [];
    var i := 0;
    while i < |f.address.value|
      invariant 0 <= i <= |f.address.value| && blooms == AddressBlooms(bits, f)[..i]
    {
      var b := BloomFrom(h, f.address.value[i], bits);
      blooms := blooms + [b[..]];
      i := i + 1;
    }
  }

  /** One bloom cloned for each topic, with the topic accrued into the clone. */
  method ExtendOne(h: HashFn, bloom: Bloom, topics: seq<H256>, ghost bits: BitsFn) returns (blooms: seq<Bloom>)
    requires Agrees(bits, h)
    ensures blooms == Extended(bits, bloom, topics)
  {
    blooms := [];
    var i := 0;
    while i < |topics|
      invariant 0 <= i <= |topics| && blooms == Extended(bits, bloom, topics)[..i]
    {
      var clone := new bv8[BLOOM_SIZE](k requires 0 <= k < BLOOM_SIZE => bloom[k]);
      assert clone[..] == bloom;
      AccrueRaw(clone, h, topics[i], bits);
      blooms := blooms + [clone[..]];
      i := i + 1;
    }
  }

  /** Every bloom extended by every topic, in order. */
  method ExtendAll(h: HashFn, blooms: seq<Bloom>, topics: seq<H256>, ghost bits: BitsFn) returns (after: seq<Bloom>)
    requires Agrees(bits, h)
    ensures after == AllExtended(bits, blooms, topics)
  {
    after := [];
    var i := 0;
    while i < |blooms|
      invariant 0 <= i <= |blooms| && after == AllExtended(bits, blooms[..i], topics)
    {
      AllExtendedSnoc(bits, blooms[..i], blooms[i], topics);
      TakeSnoc(blooms, i);
      var more := ExtendOne(h, blooms[i], topics, bits);
      after := after + more;
      i := i + 1;
    }
    TakeAll(blooms);
  }

  lemma {:induction false} AllExtendedSnoc(bits: BitsFn, blooms: seq<Bloom>, b: Bloom, topics: seq<H256>)
    ensures AllExtended(bits, blooms + [b], topics) == AllExtended(bits, blooms, topics) + Extended(bits, b, topics)
  {
    if blooms == [] {
      AppendNothing(Extended(bits, b, topics));
    } else {
      TailOfAppend(blooms, [b]);
      AllExtendedSnoc(bits, blooms[1..], b, topics);
      AppendAssociative(Extended(bits, blooms[0], topics), AllExtended(bits, blooms[1..], topics),
                        Extended(bits, b, topics));
    }
  }

  /** The filter's possibilities, topic position by topic position. */
  method ComputePossibilities(h: HashFn, f: Filter, ghost bits: BitsFn) returns (blooms: seq<Bloom>)
    requires Agrees(bits, h)
    ensures blooms == BloomPossibilities(bits, f)
  {
    blooms := ComputeAddressBlooms(h, f, bits);
    var i := 0;
    while i < |f.topics|
      invariant 0 <= i <= |f.topics| && blooms == PossibilitiesUpTo(bits, f, i)
    {
      if f.topics[i].Some? {
        blooms := ExtendAll(h, blooms, f.topics[i].value, bits);
      }
      i := i + 1;
    }
  }

  // ---- no log is missed ----

  /** Where the extension of bloom i by topic j stands. */
  lemma {:induction false} ExtensionAt(bits: BitsFn, blooms: seq<Bloom>, topics: seq<H256>, i: nat, j: nat)
    returns (k: nat)
    requires i < |blooms| && j < |topics|
    ensures k < |AllExtended(bits, blooms, topics)| &&
      AllExtended(bits, blooms, topics)[k] == Or(blooms[i], bits(topics[j]))
  {
    if i == 0 {
      k := j;
    } else {
      k := ExtensionAt(bits, blooms[1..], topics, i - 1, j);
      k := k + |topics|;
    }
  }

  lemma {:induction false} NoTopicsNoBlooms(bits: BitsFn, blooms: seq<Bloom>)
    ensures AllExtended(bits, blooms, []) == []
  {
    if blooms != [] { NoTopicsNoBlooms(bits, blooms[1..]); }
  }

  /** An empty topic list leaves no possibility at all. */
  lemma {:induction false} EmptyTopicEmptiesAll(bits: BitsFn, f: Filter, n: nat, i: nat)
    requires i < n <= |f.topics| && f.topics[i] == Some([])
    ensures PossibilitiesUpTo(bits, f, n) == []
  {
    if i == n - 1 {
      NoTopicsNoBlooms(bits, PossibilitiesUpTo(bits, f, n - 1));
    } else {
      EmptyTopicEmptiesAll(bits, f, n - 1, i);
    }
  }

  ghost predicate NoEmptyTopic(f: Filter) {
    forall i :: 0 <= i < |f.topics| ==> f.topics[i] != Some([])
  }

  /** The possibility a matching log fits. */
  lemma {:induction false} FittingPossibility(bits: BitsFn, f: Filter, log: LogEntry, n: nat) returns (k: nat)
    requires Matches(f, log) && NoEmptyTopic(f) && n <= |f.topics|
    ensures k < |PossibilitiesUpTo(bits, f, n)| && Contains(LogBloom(bits, log), PossibilitiesUpTo(bits, f, n)[k])
  {
    var all := |log.topics|;
    if n == 0 {
      if f.address.Some? && f.address.value != [] {
        k :| 0 <= k < |f.address.value| && f.address.value[k] == log.address;
        LogBloomContains(bits, log, all, all);
      } else {
        k := 0;
        ContainsNone(LogBloom(bits, log));
      }
    } else {
      var i := FittingPossibility(bits, f, log, n - 1);
      if f.topics[n - 1].None? {
        k := i;
      } else {
        assert TopicMatches(f, log, n - 1) && f.topics[n - 1] != Some([]);
        k := FittingExtension(bits, log, PossibilitiesUpTo(bits, f, n - 1), f.topics[n - 1].value, i, n - 1);
      }
    }
  }

  /** A possibility that fits still does when extended by the log's own topic. */
  lemma FittingExtension(bits: BitsFn, log: LogEntry, blooms: seq<Bloom>, topics: seq<H256>, i: nat, n: nat)
    returns (k: nat)
    requires i < |blooms| && Contains(LogBloom(bits, log), blooms[i])
    requires n < |log.topics| && log.topics[n] in topics
    ensures k < |AllExtended(bits, blooms, topics)|
    ensures Contains(LogBloom(bits, log), AllExtended(bits, blooms, topics)[k])
  {
    var j :| 0 <= j < |topics| && topics[j] == log.topics[n];
    k := ExtensionAt(bits, blooms, topics, i, j);
    LogBloomContains(bits, log, |log.topics|, n);
    ContainsOr(LogBloom(bits, log), blooms[i], bits(topics[j]));
  }

  ghost predicate SomeContained(b: Bloom, possibilities: seq<Bloom>) {
    exists k :: 0 <= k < |possibilities| && Contains(b, possibilities[k])
  }

  /** The index finds a matching log exactly when no topic list of the filter is empty: an empty list
      matches everything but asks for no bloom. */
  lemma MatchIsFound(bits: BitsFn, f: Filter, log: LogEntry)
    requires Matches(f, log)
    ensures SomeContained(LogBloom(bits, log), BloomPossibilities(bits, f)) <==> NoEmptyTopic(f)
  {
    if NoEmptyTopic(f) {
      var k := FittingPossibility(bits, f, log, |f.topics|);
    } else {
      var i :| 0 <= i < |f.topics| && f.topics[i] == Some([]);
      EmptyTopicEmptiesAll(bits, f, |f.topics|, i);
    }
  }

  /** ... and then in the bloom of every receipt that holds the log. */
  lemma NoMissedLogs(bits: BitsFn, f: Filter, logs: seq<LogEntry>, i: nat)
    requires i < |logs| && Matches(f, logs[i]) && NoEmptyTopic(f)
    ensures SomeContained(ReceiptBloom(bits, logs), BloomPossibilities(bits, f))
  {
    var k := FittingPossibility(bits, f, logs[i], |f.topics|);
    ReceiptContains(bits, logs, i);
    ContainsTransitive(ReceiptBloom(bits, logs), LogBloom(bits, logs[i]), BloomPossibilities(bits, f)[k]);
  }

  /** What the filter computes from the digest finds a matching log by its bloom exactly when no topic
      list is empty, and by the bloom of any receipt that holds the log just the same. */
  lemma FilterFindsLog(h: HashFn, f: Filter, logs: seq<LogEntry>, i: nat)
    requires i < |logs| && Matches(f, logs[i])
    ensures SomeContained(LogBloom(BitsFor(h), logs[i]), BloomPossibilities(BitsFor(h), f)) <==> NoEmptyTopic(f)
    ensures SomeContained(ReceiptBloom(BitsFor(h), logs), BloomPossibilities(BitsFor(h), f)) <==> NoEmptyTopic(f)
  {
    MatchIsFound(BitsFor(h), f, logs[i]);
    if NoEmptyTopic(f) {
      NoMissedLogs(BitsFor(h), f, logs, i);
    } else {
      var k :| 0 <= k < |f.topics| && f.topics[k] == Some([]);
      EmptyTopicEmptiesAll(BitsFor(h), f, |f.topics|, k);
    }
  }

  /** The possibilities the filter computes and the bloom the receipt computes. */
  method FilterAndReceipt(h: HashFn, f: Filter, logs: seq<LogEntry>) returns (possibilities: seq<Bloom>, b: array<bv8>)
    ensures b.Length == BLOOM_SIZE && b[..] == ReceiptBloom(BitsFor(h), logs)
    ensures possibilities == BloomPossibilities(BitsFor(h), f)
    ensures forall i :: 0 <= i < |logs| && Matches(f, logs[i]) ==>
      (SomeContained(b[..], possibilities) <==> NoEmptyTopic(f))
  {
    BitsForAgrees(h);
    possibilities := ComputePossibilities(h, f, BitsFor(h));
    b := ComputeReceiptBloom(h, logs, BitsFor(h));
    forall i | 0 <= i < |logs| && Matches(f, logs[i])
      ensures SomeContained(b[..], possibilities) <==> NoEmptyTopic(f)
    {
      FilterFindsLog(h, f, logs, i);
    }
  }

  /** A filter that matches a log its possibilities miss. */
  lemma EmptyTopicMisses(bits: BitsFn, address: H256)
    ensures var f, log := Filter(None, [Some([])]), LogEntry(address, [], []);
      Matches(f, log) && BloomPossibilities(bits, f) == []
  {
    EmptyTopicEmptiesAll(bits, Filter(None, [Some([])]), 1, 0);
  }

  // ---- what a filter asks for ----

  /** An address or none, and a topic or none for each position. */
  datatype Choice = Choice(address: Option<H256>, topics: seq<Option<H256>>)

  /** One of a list's members, or none where there is no list. */
  ghost predicate Picks(c: Option<H256>, list: Option<seq<H256>>) {
    match c
    case Some(x) => list.Some? && x in list.value
    case None => list.None?
  }

  /** A list of addresses without members is as good as none. */
  function AddressList(f: Filter): Option<seq<H256>> {
    if f.address == Some([]) then None else f.address
  }

  /** A choice for the first n positions. */
  ghost predicate Chooses(f: Filter, c: Choice, n: nat)
    requires n <= |f.topics|
  {
    Picks(c.address, AddressList(f)) && |c.topics| == n && forall i :: 0 <= i < n ==> Picks(c.topics[i], f.topics[i])
  }

  predicate FitsTopic(c: Choice, log: LogEntry, i: nat)
    requires i < |c.topics|
  {
    c.topics[i].Some? ==> i < |log.topics| && log.topics[i] == c.topics[i].value
  }

  predicate Fits(c: Choice, log: LogEntry) {
    (c.address.Some? ==> c.address.value == log.address) && forall i :: 0 <= i < |c.topics| ==> FitsTopic(c, log, i)
  }

  function BitsOption(bits: BitsFn, x: Option<H256>): Bloom {
    if x.Some? then bits(x.value) else NoBits()
  }

  /** The bits of everything chosen. */
  function ChoiceBloom(bits: BitsFn, c: Choice): Bloom
    decreases |c.topics|
  {
    if c.topics == [] then BitsOption(bits, c.address)
    else Or(ChoiceBloom(bits, Choice(c.address, c.topics[..|c.topics| - 1])),
            BitsOption(bits, c.topics[|c.topics| - 1]))
  }

  /** A filter without an empty topic list matches a log exactly when the log fits one of its choices. */
  lemma MatchesAChoice(f: Filter, log: LogEntry)
    requires NoEmptyTopic(f)
    ensures Matches(f, log) <==> exists c :: Chooses(f, c, |f.topics|) && Fits(c, log)
  {
    if Matches(f, log) {
      var topics := seq(|f.topics|, i requires 0 <= i < |f.topics| =>
        if f.topics[i].None? || i >= |log.topics| then None else Some(log.topics[i]));
      var c := Choice(if AddressList(f).None? then None else Some(log.address), topics);
      forall i | 0 <= i < |f.topics| ensures Picks(topics[i], f.topics[i]) { assert TopicMatches(f, log, i); }
      assert Chooses(f, c, |f.topics|) && Fits(c, log);
    }
    if c :| Chooses(f, c, |f.topics|) && Fits(c, log) {
      forall i | 0 <= i < |f.topics| ensures TopicMatches(f, log, i) {
        assert Picks(c.topics[i], f.topics[i]) && FitsTopic(c, log, i);
      }
    }
  }

  lemma InExtended(bits: BitsFn, a: Bloom, topics: seq<H256>, b: Bloom)
    ensures b in Extended(bits, a, topics) <==> ExtendsBy(bits, a, topics, b)
  {
    if b in Extended(bits, a, topics) {
      var k :| 0 <= k < |topics| && b == Extended(bits, a, topics)[k];
      assert topics[k] in topics;
    }
    if t :| t in topics && b == Or(a, bits(t)) {
      var k :| 0 <= k < |topics| && topics[k] == t;
      assert Extended(bits, a, topics)[k] == b;
    }
  }

  /** b is a with one of the topics. */
  ghost predicate ExtendsBy(bits: BitsFn, a: Bloom, topics: seq<H256>, b: Bloom) {
    exists t :: t in topics && b == Or(a, bits(t))
  }

  lemma {:induction false} InAllExtended(bits: BitsFn, blooms: seq<Bloom>, topics: seq<H256>, b: Bloom)
    ensures b in AllExtended(bits, blooms, topics) <==> exists a :: a in blooms && ExtendsBy(bits, a, topics, b)
  {
    if blooms != [] {
      var rest := blooms[1..];
      InAllExtended(bits, rest, topics, b);
      InExtended(bits, blooms[0], topics, b);
      assert blooms == [blooms[0]] + rest;
    }
  }

  ghost predicate ChosenBloom(bits: BitsFn, f: Filter, n: nat, b: Bloom)
    requires n <= |f.topics|
  {
    exists c :: Chooses(f, c, n) && ChoiceBloom(bits, c) == b
  }

  /** The possible blooms are exactly the blooms of the choices. */
  lemma {:induction false} PossibilitiesAreChoices(bits: BitsFn, f: Filter, n: nat, b: Bloom)
    requires n <= |f.topics|
    ensures b in PossibilitiesUpTo(bits, f, n) <==> ChosenBloom(bits, f, n, b)
    decreases n
  {
    if n == 0 {
      AddressChoices(bits, f, b);
    } else {
      if b in PossibilitiesUpTo(bits, f, n) { PossibilityChosen(bits, f, n, b); }
      if ChosenBloom(bits, f, n, b) { ChosenPossible(bits, f, n, b); }
    }
  }

  lemma AddressChoices(bits: BitsFn, f: Filter, b: Bloom)
    ensures b in AddressBlooms(bits, f) <==> ChosenBloom(bits, f, 0, b)
  {
    if b in AddressBlooms(bits, f) {
      if AddressList(f).None? {
        assert Chooses(f, Choice(None, []), 0) && ChoiceBloom(bits, Choice(None, [])) == b;
      } else {
        var k :| 0 <= k < |f.address.value| && b == AddressBlooms(bits, f)[k];
        var c := Choice(Some(f.address.value[k]), []);
        assert Chooses(f, c, 0) && ChoiceBloom(bits, c) == b;
      }
    }
    if c :| Chooses(f, c, 0) && ChoiceBloom(bits, c) == b {
      if c.address.Some? {
        var k :| 0 <= k < |f.address.value| && f.address.value[k] == c.address.value;
        assert AddressBlooms(bits, f)[k] == b;
      }
    }
  }

  /** A choice for one more position. */
  lemma OneMoreChosen(bits: BitsFn, f: Filter, n: nat, a: Bloom, x: Option<H256>)
    requires n < |f.topics| && ChosenBloom(bits, f, n, a) && Picks(x, f.topics[n])
    ensures ChosenBloom(bits, f, n + 1, Or(a, BitsOption(bits, x)))
  {
    var c :| Chooses(f, c, n) && ChoiceBloom(bits, c) == a;
    var d := Choice(c.address, c.topics + [x]);
    assert d.topics[..n] == c.topics;
    assert Chooses(f, d, n + 1) && ChoiceBloom(bits, d) == Or(a, BitsOption(bits, x));
  }

  lemma {:induction false} PossibilityChosen(bits: BitsFn, f: Filter, n: nat, b: Bloom)
    requires 0 < n <= |f.topics| && b in PossibilitiesUpTo(bits, f, n)
    ensures ChosenBloom(bits, f, n, b)
    decreases n, 0
  {
    var a, x := OneLessPossible(bits, f, n, b);
    PossibilitiesAreChoices(bits, f, n - 1, a);
    OneMoreChosen(bits, f, n - 1, a, x);
  }

  /** A possible bloom is one for one position less with what the last one allows. */
  lemma OneLessPossible(bits: BitsFn, f: Filter, n: nat, b: Bloom) returns (a: Bloom, x: Option<H256>)
    requires 0 < n <= |f.topics| && b in PossibilitiesUpTo(bits, f, n)
    ensures a in PossibilitiesUpTo(bits, f, n - 1) && Picks(x, f.topics[n - 1]) && b == Or(a, BitsOption(bits, x))
  {
    if f.topics[n - 1].None? {
      a, x := b, None;
      OrNone(b);
    } else {
      var topics := f.topics[n - 1].value;
      InAllExtended(bits, PossibilitiesUpTo(bits, f, n - 1), topics, b);
      a :| a in PossibilitiesUpTo(bits, f, n - 1) && ExtendsBy(bits, a, topics, b);
      var t :| t in topics && b == Or(a, bits(t));
      x := Some(t);
    }
  }

  /** ... and for one less. */
  lemma OneLessChosen(bits: BitsFn, f: Filter, n: nat, b: Bloom) returns (a: Bloom, x: Option<H256>)
    requires 0 < n <= |f.topics| && ChosenBloom(bits, f, n, b)
    ensures ChosenBloom(bits, f, n - 1, a) && Picks(x, f.topics[n - 1]) && b == Or(a, BitsOption(bits, x))
  {
    var c :| Chooses(f, c, n) && ChoiceBloom(bits, c) == b;
    var front := Choice(c.address, c.topics[..n - 1]);
    a, x := ChoiceBloom(bits, front), c.topics[n - 1];
    assert Picks(x, f.topics[n - 1]) && Chooses(f, front, n - 1);
  }

  lemma {:induction false} ChosenPossible(bits: BitsFn, f: Filter, n: nat, b: Bloom)
    requires 0 < n <= |f.topics| && ChosenBloom(bits, f, n, b)
    ensures b in PossibilitiesUpTo(bits, f, n)
    decreases n, 0
  {
    var a, x := OneLessChosen(bits, f, n, b);
    PossibilitiesAreChoices(bits, f, n - 1, a);
    OneMorePossible(bits, f, n, a, x);
  }

  lemma OneMorePossible(bits: BitsFn, f: Filter, n: nat, a: Bloom, x: Option<H256>)
    requires 0 < n <= |f.topics| && a in PossibilitiesUpTo(bits, f, n - 1) && Picks(x, f.topics[n - 1])
    ensures Or(a, BitsOption(bits, x)) in PossibilitiesUpTo(bits, f, n)
  {
    if x.None? {
      OrNone(a);
    } else {
      var b := Or(a, bits(x.value));
      InAllExtended(bits, PossibilitiesUpTo(bits, f, n - 1), f.topics[n - 1].value, b);
      assert ExtendsBy(bits, a, f.topics[n - 1].value, b);
    }
  }
}
