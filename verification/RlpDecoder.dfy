/** The cursor over encoded bytes: item headers, access by position with its two caches, and what
    the plain, history-free answer of every access is. */
module RlpDecoder {
  import opened Bytes

  /** The largest value of the 64-bit index type; the offset cache starts out with it. */
  const USIZE_MAX := 0xffff_ffff_ffff_ffff

  datatype DecoderError =
    | RlpIsTooBig
    | RlpIsTooShort
    | RlpExpectedToBeList
    | RlpExpectedToBeData
    | RlpDataLenWithZeroPrefix
    | RlpInvalidIndirection
    | RlpInconsistentLengthAndData
    | RlpInvalidLength

  datatype Result<+T> = Ok(value: T) | Err(error: DecoderError) {
    predicate IsFailure() { Err? }
    function PropagateFailure<U>(): Result<U>
      requires Err?
    {
      Err(error)
    }
    function Extract(): T
      requires Ok?
    {
      value
    }
  }

  datatype PayloadInfo = PayloadInfo(headerLen: nat, valueLen: nat) {
    function Total(): nat { headerLen + valueLen }
  }

  datatype OffsetCache = OffsetCache(index: nat, offset: nat)

  const UNUSED_CACHE := OffsetCache(USIZE_MAX, 0)

  // ---- headers ----

  function DecodeUsize(b: bytes): Result<nat>
    requires b != []
  {
    if |b| > 8 then Err(RlpIsTooBig)
    else if b[0] == 0 && |b| > 1 then Err(RlpInvalidIndirection)
    else Ok(FromBigEndian(b))
  }

  function CalculatePayloadInfo(b: bytes, lenOfLen: nat): Result<PayloadInfo>
    requires 1 <= lenOfLen
  {
    if |b| < 2 then Err(RlpIsTooShort)
    else if b[1] == 0 then Err(RlpDataLenWithZeroPrefix)
    else if |b| < 1 + lenOfLen then Err(RlpIsTooShort)
    else
      var valueLen :- DecodeUsize(b[1..1 + lenOfLen]);
      Ok(PayloadInfo(1 + lenOfLen, valueLen))
  }

  function PayloadInfoFrom(b: bytes): (r: Result<PayloadInfo>)
    ensures r.Ok? ==> r.value.Total() >= 1
  {
    if b == [] then Err(RlpIsTooShort)
    else if b[0] <= 0x7f then Ok(PayloadInfo(0, 1))
    else if b[0] <= 0xb7 then Ok(PayloadInfo(1, b[0] - 0x80))
    else if b[0] <= 0xbf then CalculatePayloadInfo(b, b[0] - 0xb7)
    else if b[0] <= 0xf7 then Ok(PayloadInfo(1, b[0] - 0xc0))
    else CalculatePayloadInfo(b, b[0] - 0xf7)
  }

  /** The header of the item at the front, provided the whole item is there. */
  function ItemInfo(b: bytes): (r: Result<PayloadInfo>)
    ensures r.Ok? ==> 1 <= r.value.Total() <= |b|
  {
    var item :- PayloadInfoFrom(b);
    if item.Total() <= |b| then Ok(item) else Err(RlpIsTooShort)
  }

  predicate IsList(b: bytes) { b != [] && b[0] >= 0xc0 }

  predicate IsData(b: bytes) { b != [] && b[0] < 0xc0 }

  function Consume(b: bytes, len: nat): (r: Result<bytes>)
    ensures r.Ok? ==> |r.value| <= |b|
  {
    if |b| >= len then Ok(b[len..]) else Err(RlpIsTooShort)
  }

  function ConsumeListPayload(b: bytes): (r: Result<bytes>)
    ensures r.Ok? ==> |r.value| <= |b|
  {
    var item :- ItemInfo(b);
    Consume(b, item.headerLen)
  }

  function ConsumeItems(b: bytes, items: nat): (r: Result<bytes>)
    ensures r.Ok? ==> |r.value| + items <= |b|
    decreases items
  {
    if items == 0 then Ok(b)
    else
      var item :- ItemInfo(b);
      ConsumeItems(b[item.Total()..], items - 1)
  }

  function FrontItem(b: bytes): (r: Result<bytes>)
    ensures r.Ok? ==> 1 <= |r.value| <= |b| && r.value == b[..|r.value|]
  {
    var found :- ItemInfo(b);
    Ok(b[..found.Total()])
  }

  /** Element number index of a list, found from the start of the list. */
  function At(b: bytes, index: nat): (r: Result<bytes>)
  {
    if !IsList(b) then Err(RlpExpectedToBeList)
    else
      var payload :- ConsumeListPayload(b);
      WalkTo(payload, index)
  }

  /** The item behind the first index ones. */
  function WalkTo(payload: bytes, index: nat): Result<bytes> {
    var rest :- ConsumeItems(payload, index);
    FrontItem(rest)
  }

  function CountItems(b: bytes): nat {
    match ItemInfo(b)
    case Ok(item) => 1 + CountItems(b[item.Total()..])
    case Err(_) => 0
  }

  function ItemCount(b: bytes): Result<nat> {
    if !IsList(b) then Err(RlpExpectedToBeList)
    else match ConsumeListPayload(b)
      case Ok(payload) => Ok(CountItems(payload))
      case Err(_) => Ok(0)
  }

  function Payload(b: bytes): Result<bytes> {
    var item :- ItemInfo(b);
    Ok(b[item.headerLen..item.Total()])
  }

  /** The number of data bytes, zero for lists and malformed data. */
  function Size(b: bytes): nat {
    if !IsData(b) then 0
    else match ItemInfo(b)
      case Ok(item) => item.valueLen
      case Err(_) => 0
  }

  predicate IsEmptyItem(b: bytes) { b != [] && (b[0] == 0xc0 || b[0] == 0x80) }

  /** The byte string a value decoder is handed. */
  function DecodeValue(b: bytes): Result<bytes> {
    if b == [] then Err(RlpIsTooShort)
    else if b[0] <= 0x7f then Ok([b[0]])
    else if b[0] <= 0xb7 then
      var last := 1 + b[0] - 0x80;
      if |b| < last then Err(RlpInconsistentLengthAndData)
      else if b[0] == 0x81 && b[1] < 0x80 then Err(RlpInvalidIndirection)
      else Ok(b[1..last])
    else if b[0] <= 0xbf then
      var begin := 1 + b[0] - 0xb7;
      if |b| < begin then Err(RlpInconsistentLengthAndData)
      else
        var len :- DecodeUsize(b[1..begin]);
        if begin + len > USIZE_MAX then Err(RlpInvalidLength)
        else if |b| < begin + len then Err(RlpInconsistentLengthAndData)
        else Ok(b[begin..begin + len])
    else Err(RlpExpectedToBeData)
  }

  // ---- access through the offset cache ----

  /** What one call of at answers and leaves in the cache. */
  function AtCached(b: bytes, c: OffsetCache, index: nat): (Result<bytes>, OffsetCache) {
    if !IsList(b) then (Err(RlpExpectedToBeList), c)
    else
      var start := if c.index <= index then Consume(b, c.offset) else ConsumeListPayload(b);
      var toSkip := if c.index <= index then index - c.index else index;
      if start.Err? then (Err(start.error), c)
      else
        var rest := ConsumeItems(start.value, toSkip);
        if rest.Err? then (Err(rest.error), c)
        else (FrontItem(rest.value), OffsetCache(index, |b| - |rest.value|))
  }

  /** The cache after at was called with each of the indices in turn. */
  function CacheAfter(b: bytes, indices: seq<nat>): OffsetCache {
    if indices == [] then UNUSED_CACHE
    else AtCached(b, CacheAfter(b, indices[..|indices| - 1]), indices[|indices| - 1]).1
  }

  /** The cache remembers where an element starts. */
  predicate GoodCache(b: bytes, c: OffsetCache) {
    c == UNUSED_CACHE ||
    (c.index < USIZE_MAX && c.offset <= |b| && IsList(b) && ConsumeListPayload(b).Ok? &&
     ConsumeItems(ConsumeListPayload(b).value, c.index) == Ok(b[c.offset..]))
  }

  lemma {:induction false} ConsumeItemsSuffix(b: bytes, n: nat)
    requires ConsumeItems(b, n).Ok?
    ensures ConsumeItems(b, n).value == b[|b| - |ConsumeItems(b, n).value|..]
    decreases n
  {
    if n > 0 {
      var item := ItemInfo(b).value;
      ConsumeItemsSuffix(b[item.Total()..], n - 1);
    }
  }

  lemma {:induction false} ConsumeItemsSplit(b: bytes, m: nat, n: nat)
    requires ConsumeItems(b, m).Ok?
    ensures ConsumeItems(b, m + n) == ConsumeItems(ConsumeItems(b, m).value, n)
    decreases m
  {
    if m > 0 {
      ConsumeItemsSplit(b[ItemInfo(b).value.Total()..], m - 1, n);
    }
  }

  /** Where the cache says to start, the walk joins the walk from the start of the list. */
  lemma CachedStart(b: bytes, c: OffsetCache, index: nat)
    requires GoodCache(b, c) && c != UNUSED_CACHE && c.index <= index
    ensures ConsumeItems(ConsumeListPayload(b).value, index) == ConsumeItems(b[c.offset..], index - c.index)
  {
    ConsumeItemsSplit(ConsumeListPayload(b).value, c.index, index - c.index);
  }

  lemma PayloadSuffix(b: bytes, index: nat)
    requires ConsumeListPayload(b).Ok? && ConsumeItems(ConsumeListPayload(b).value, index).Ok?
    ensures ConsumeItems(ConsumeListPayload(b).value, index).value ==
      b[|b| - |ConsumeItems(ConsumeListPayload(b).value, index).value|..]
  {
    ConsumeItemsSuffix(ConsumeListPayload(b).value, index);
  }

  lemma AtCachedUnfolded(b: bytes, c: OffsetCache, index: nat)
    requires GoodCache(b, c) && index < USIZE_MAX && IsList(b) && ConsumeListPayload(b).Ok?
    ensures var rest := ConsumeItems(ConsumeListPayload(b).value, index);
      AtCached(b, c, index) ==
        if rest.Err? then (Err(rest.error), c) else (FrontItem(rest.value), OffsetCache(index, |b| - |rest.value|))
  {
    if c.index <= index {
      CachedStart(b, c, index);
    }
  }

  /** Below the sentinel index, a cursor answers as a fresh walk does, and keeps its cache good. */
  lemma AtCachedIsAt(b: bytes, c: OffsetCache, index: nat)
    requires GoodCache(b, c) && index < USIZE_MAX
    ensures AtCached(b, c, index).0 == At(b, index)
    ensures GoodCache(b, AtCached(b, c, index).1)
  {
    if IsList(b) && ConsumeListPayload(b).Ok? {
      AtCachedUnfolded(b, c, index);
      if ConsumeItems(ConsumeListPayload(b).value, index).Ok? {
        PayloadSuffix(b, index);
      }
    }
  }

  /** At the sentinel index a cursor that has moved runs out of items. */
  lemma SentinelAfterUse(b: bytes, c: OffsetCache)
    requires |b| < USIZE_MAX && GoodCache(b, c)
    ensures c != UNUSED_CACHE ==> AtCached(b, c, USIZE_MAX).0.Err? && AtCached(b, c, USIZE_MAX).1 == c
    ensures c == UNUSED_CACHE ==> GoodCache(b, AtCached(b, c, USIZE_MAX).1) && AtCached(b, c, USIZE_MAX).1 == c
  {
    if c != UNUSED_CACHE {
      CachedStart(b, c, USIZE_MAX);
    }
  }

  lemma AtCachedKeepsGood(b: bytes, c: OffsetCache, index: nat)
    requires |b| < USIZE_MAX && GoodCache(b, c) && index <= USIZE_MAX
    ensures GoodCache(b, AtCached(b, c, index).1)
    ensures index < USIZE_MAX ==> AtCached(b, c, index).0 == At(b, index)
  {
    if index < USIZE_MAX { AtCachedIsAt(b, c, index); } else { SentinelAfterUse(b, c); }
  }

  lemma {:induction false} CacheAfterIsGood(b: bytes, indices: seq<nat>)
    requires |b| < USIZE_MAX
    requires forall k :: 0 <= k < |indices| ==> indices[k] <= USIZE_MAX
    ensures GoodCache(b, CacheAfter(b, indices))
  {
    if indices != [] {
      CacheAfterIsGood(b, indices[..|indices| - 1]);
      AtCachedKeepsGood(b, CacheAfter(b, indices[..|indices| - 1]), indices[|indices| - 1]);
    }
  }

  predicate History(indices: seq<nat>) {
    forall k :: 0 <= k < |indices| ==> indices[k] <= USIZE_MAX
  }

  /** Whatever was asked before, at answers what a fresh cursor answers: exactly for the indices
      other than the sentinel, or when no list with a complete header is there to be asked. */
  lemma AtIsIndependentOfHistory(b: bytes, index: nat)
    requires |b| < USIZE_MAX && index <= USIZE_MAX
    ensures (forall h: seq<nat> :: History(h) ==>
             AtCached(b, CacheAfter(b, h), index).0 == AtCached(b, UNUSED_CACHE, index).0)
        <==> (index != USIZE_MAX || !IsList(b) || ItemInfo(b).Err?)
  {
    if index < USIZE_MAX {
      forall h: seq<nat> | History(h)
        ensures AtCached(b, CacheAfter(b, h), index).0 == AtCached(b, UNUSED_CACHE, index).0
      {
        CacheAfterIsGood(b, h);
        AtCachedIsAt(b, CacheAfter(b, h), index);
        AtCachedIsAt(b, UNUSED_CACHE, index);
      }
    } else if IsList(b) && ItemInfo(b).Ok? {
      var h: seq<nat> := [0];
      assert h[..|h| - 1] == [];
      CacheAfterIsGood(b, h);
      assert CacheAfter(b, h) == AtCached(b, UNUSED_CACHE, 0).1;
      assert CacheAfter(b, h).index == 0;
      SentinelAfterUse(b, CacheAfter(b, h));
      assert b[0..] == b;
      assert AtCached(b, UNUSED_CACHE, index).0.Ok?;
      assert History(h);
    } else if IsList(b) {
      forall h: seq<nat> | History(h)
        ensures AtCached(b, CacheAfter(b, h), index).0 == AtCached(b, UNUSED_CACHE, index).0
      {
        CacheAfterIsGood(b, h);
      }
    }
  }

  /** The sentinel index on an empty list: a fresh cursor gives the list itself, and one that was asked
      for its first item runs out of items. */
  lemma SentinelForgotten()
    ensures AtCached([0xc0], UNUSED_CACHE, USIZE_MAX).0 == Ok([0xc0])
    ensures AtCached([0xc0], CacheAfter([0xc0], [0]), USIZE_MAX).0.Err?
  {
    var b, h := [0xc0 as byte], [0 as nat];
    assert b[0..] == b && b[..1] == b && h[..0] == [];
    assert ItemInfo(b) == Ok(PayloadInfo(1, 0));
    CacheAfterIsGood(b, h);
    SentinelAfterUse(b, CacheAfter(b, h));
  }

  /** The cursor object. */
  class UntrustedRlp {
    const data: bytes
    var offsetCache: OffsetCache
    var countCache: Option<nat>

    ghost predicate Valid()
      reads this
    {
      |data| < USIZE_MAX && GoodCache(data, offsetCache) &&
      (countCache.Some? ==> ItemCount(data) == Ok(countCache.value))
    }

    constructor (data: bytes)
      requires |data| < USIZE_MAX
      ensures Valid() && this.data == data && offsetCache == UNUSED_CACHE && countCache == None
    {
      this.data := data;
      offsetCache := UNUSED_CACHE;
      countCache := None;
    }

    /** The element's bytes; the source wraps them in a cursor of their own. */
    method ElementAt(index: nat) returns (r: Result<bytes>)
      requires Valid() && index <= USIZE_MAX
      modifies `offsetCache
      ensures Valid()
      ensures index < USIZE_MAX ==> r == At(data, index)
      ensures (r, offsetCache) == AtCached(data, old(offsetCache), index)
    {
      AtCachedKeepsGood(data, offsetCache, index);
      r := Locate(index);
    }

    method Locate(index: nat) returns (r: Result<bytes>)
      modifies `offsetCache
      ensures (r, offsetCache) == AtCached(data, old(offsetCache), index)
    {
      if !IsList(data) {
        return Err(RlpExpectedToBeList);
      }
      var c := offsetCache;
      var start, toSkip := ConsumeListPayload(data), index;
      if c.index <= index {
        start, toSkip := Consume(data, c.offset), index - c.index;
      }
      if start.Err? {
        return Err(start.error);
      }
      var rest := SkipItems(start.value, toSkip);
      ghost var all := ConsumeItems(start.value, toSkip);
      assert rest == all;
      if rest.Err? {
        return Err(rest.error);
      }
      offsetCache := OffsetCache(index, |data| - |rest.value|);
      r := FrontItem(rest.value);
    }

    /** Walks the elements once, then remembers their number. */
    method CountElements() returns (r: Result<nat>)
      requires Valid()
      modifies this
      ensures Valid() && r == ItemCount(data)
    {
      if !IsList(data) {
        return Err(RlpExpectedToBeList);
      }
      if countCache.Some? {
        return Ok(countCache.value);
      }
      var c := 0;
      var more := true;
      while more
        invariant Valid() && c <= |data| && Progress(data, c)
        invariant !more ==> ItemCount(data) == Ok(c)
        decreases more, |data| - c
      {
        var item := ElementAt(c);
        if item.Ok? {
          ProgressStep(data, c);
          c := c + 1;
        } else {
          ProgressDone(data, c);
          more := false;
        }
      }
      countCache := Some(c);
      r := Ok(c);
    }
  }

  /** c items can be walked over and are counted before the others. */
  predicate Counted(payload: bytes, c: nat) {
    ConsumeItems(payload, c).Ok? && CountItems(payload) == c + CountItems(ConsumeItems(payload, c).value)
  }

  lemma CountStep(payload: bytes, c: nat)
    requires Counted(payload, c) && FrontItem(ConsumeItems(payload, c).value).Ok?
    ensures Counted(payload, c + 1)
  {
    ConsumeItemsSplit(payload, c, 1);
    var rest := ConsumeItems(payload, c).value;
    assert ConsumeItems(rest, 1) == ConsumeItems(rest[ItemInfo(rest).value.Total()..], 0);
  }

  /** c elements of the list were found so far. */
  predicate Progress(b: bytes, c: nat) {
    IsList(b) &&
    match ConsumeListPayload(b)
    case Ok(payload) => Counted(payload, c)
    case Err(_) => c == 0
  }

  lemma ProgressStep(b: bytes, c: nat)
    requires Progress(b, c) && At(b, c).Ok?
    ensures Progress(b, c + 1) && c < |b|
  {
    CountStep(ConsumeListPayload(b).value, c);
  }

  lemma ProgressDone(b: bytes, c: nat)
    requires Progress(b, c) && At(b, c).Err?
    ensures ItemCount(b) == Ok(c)
  {
  }

  method SkipItems(b: bytes, items: nat) returns (r: Result<bytes>)
    ensures r == ConsumeItems(b, items)
  {
    var result := b;
    var i := 0;
    while i < items
      invariant 0 <= i <= items
      invariant ConsumeItems(b, items) == ConsumeItems(result, items - i)
    {
      var item := ItemInfo(result);
      if item.Err? {
        return Err(item.error);
      }
      result := result[item.value.Total()..];
      i := i + 1;
    }
    r := Ok(result);
  }

  /** Accumulates big-endian digits by shifting each into its place. */
  method AccumulateDigits(b: bytes) returns (res: nat)
    ensures res == FromBigEndian(b)
  {
    res := 0;
    var i := 0;
    while i < |b|
      invariant 0 <= i <= |b|
      invariant res == FromBigEndian(b[..i]) * Pow256(|b| - i)
    {
      ShiftDigit(b, i);
      res := res + b[i] * Pow256(|b| - 1 - i);
      i := i + 1;
    }
    assert b[..|b|] == b;
  }

  lemma ShiftDigit(b: bytes, i: nat)
    requires i < |b|
    ensures FromBigEndian(b[..i + 1]) * Pow256(|b| - 1 - i) ==
      FromBigEndian(b[..i]) * Pow256(|b| - i) + b[i] * Pow256(|b| - 1 - i)
  {
    var p := Pow256(|b| - 1 - i);
    assert b[..i + 1][..i] == b[..i];
    var f := FromBigEndian(b[..i]);
    assert FromBigEndian(b[..i + 1]) == f * 256 + b[i];
    assert (f * 256 + b[i]) * p == f * (256 * p) + b[i] * p;
  }
}
