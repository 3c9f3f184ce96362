/** Decoding undoes encoding: headers, positional access, whole item trees and unsigned integers. */
module RlpRoundTrip {
  import opened Bytes
  import opened RlpSpec
  import opened RlpDecoder

  /** What stands between an item's header and its end. */
  function Content(i: Item): bytes {
    match i
    case Data(d) => d
    case List(items) => EncodeAll(items)
  }

  lemma LengthDigits(n: nat)
    requires 55 < n <= USIZE_MAX
    ensures 1 <= |BigEndian(n)| <= 8 && DecodeUsize(BigEndian(n)) == Ok(n)
  {
    Pow256Values();
    BigEndianLength(n, 8);
    FromBigEndianOfBigEndian(n);
  }

  lemma LongHeader(n: nat, offset: byte, b: bytes)
    requires offset == 0x80 || offset == 0xc0
    requires 55 < n <= USIZE_MAX && Header(n, offset) <= b
    ensures 1 <= |BigEndian(n)| <= 8 && b[0] == offset + 55 + |BigEndian(n)|
    ensures b[1..1 + |BigEndian(n)|] == BigEndian(n)
  {
    LengthDigits(n);
    assert b == Header(n, offset) + b[|Header(n, offset)|..];
  }

  /** Both kinds of header, read back from the front of any longer input. */
  lemma HeaderReadBack(n: nat, offset: byte, b: bytes)
    requires offset == 0x80 || offset == 0xc0
    requires n <= USIZE_MAX && Header(n, offset) <= b
    ensures PayloadInfoFrom(b) == Ok(PayloadInfo(|Header(n, offset)|, n))
    ensures b[0] >= offset
    ensures offset == 0x80 ==> b[0] < 0xc0
  {
    if n > 55 {
      LongHeader(n, offset, b);
      LengthDigits(n);
      assert b[1] == BigEndian(n)[0];
    } else {
      assert b[0] == Header(n, offset)[0];
    }
  }

  lemma EncodedData(d: bytes, rest: bytes)
    requires |EncodeData(d)| <= USIZE_MAX
    ensures IsData(EncodeData(d) + rest)
    ensures ItemInfo(EncodeData(d) + rest) == Ok(PayloadInfo(|EncodeData(d)| - |d|, |d|))
  {
    if !(|d| == 1 && d[0] < 0x80) {
      assert Header(|d|, 0x80) <= EncodeData(d) + rest;
      HeaderReadBack(|d|, 0x80, EncodeData(d) + rest);
    }
  }

  lemma EncodedList(items: seq<Item>, rest: bytes)
    requires |Encode(List(items))| <= USIZE_MAX
    ensures var b := Encode(List(items)) + rest;
      IsList(b) && ItemInfo(b) == Ok(PayloadInfo(|Encode(List(items))| - |EncodeAll(items)|, |EncodeAll(items)|))
  {
    var p := EncodeAll(items);
    assert Header(|p|, 0xc0) <= Encode(List(items)) + rest;
    HeaderReadBack(|p|, 0xc0, Encode(List(items)) + rest);
  }

  /** The item at the front of any input that starts with its encoding. */
  lemma FrontOfEncoded(i: Item, rest: bytes)
    requires |Encode(i)| <= USIZE_MAX
    ensures ItemInfo(Encode(i) + rest).Ok?
    ensures ItemInfo(Encode(i) + rest).value.Total() == |Encode(i)|
    ensures ItemInfo(Encode(i) + rest).value.valueLen == |Content(i)|
    ensures FrontItem(Encode(i) + rest) == Ok(Encode(i))
    ensures IsList(Encode(i) + rest) == i.List?
    ensures IsData(Encode(i) + rest) == i.Data?
  {
    match i {
      case Data(d) => EncodedData(d, rest);
      case List(items) => EncodedList(items, rest);
    }
    assert (Encode(i) + rest)[..|Encode(i)|] == Encode(i);
  }

  lemma PayloadOfEncoded(i: Item)
    requires |Encode(i)| <= USIZE_MAX
    ensures Payload(Encode(i)) == Ok(Content(i))
    ensures i.List? ==> ConsumeListPayload(Encode(i)) == Ok(Content(i))
    ensures Size(Encode(i)) == if i.Data? then |i.d| else 0
  {
    assert Encode(i) + [] == Encode(i);
    FrontOfEncoded(i, []);
    match i {
      case Data(d) => EncodedData(d, []);
      case List(items) => EncodedList(items, []);
    }
  }

  /** Walking k items into a list's payload leaves the encodings of the others. */
  lemma {:induction false} ConsumeEncoded(items: seq<Item>, k: nat)
    requires |EncodeAll(items)| <= USIZE_MAX && k <= |items|
    ensures ConsumeItems(EncodeAll(items), k) == Ok(EncodeAll(items[k..]))
  {
    if k > 0 {
      EncodeElementLength(items, 0);
      FrontOfEncoded(items[0], EncodeAll(items[1..]));
      assert EncodeAll(items)[|Encode(items[0])|..] == EncodeAll(items[1..]);
      ConsumeEncoded(items[1..], k - 1);
      assert items[1..][k - 1..] == items[k..];
    } else {
      assert items[0..] == items;
    }
  }

  lemma {:induction false} CountEncoded(items: seq<Item>)
    requires |EncodeAll(items)| <= USIZE_MAX
    ensures CountItems(EncodeAll(items)) == |items|
  {
    if items != [] {
      EncodeElementLength(items, 0);
      FrontOfEncoded(items[0], EncodeAll(items[1..]));
      assert EncodeAll(items)[|Encode(items[0])|..] == EncodeAll(items[1..]);
      CountEncoded(items[1..]);
    }
  }

  /** Positional access into an encoded list finds exactly the encodings of its elements. */
  lemma AtEncoded(items: seq<Item>, index: nat)
    requires |Encode(List(items))| <= USIZE_MAX
    ensures At(Encode(List(items)), index) ==
      if index < |items| then Ok(Encode(items[index])) else Err(RlpIsTooShort)
    ensures ItemCount(Encode(List(items))) == Ok(|items|)
  {
    ListFront(items);
    CountEncoded(items);
    WalkEncoded(items, index);
  }

  /** What a cursor knows of an encoded list before it walks. */
  lemma ListFront(items: seq<Item>)
    requires |Encode(List(items))| <= USIZE_MAX
    ensures IsList(Encode(List(items))) && ConsumeListPayload(Encode(List(items))) == Ok(EncodeAll(items))
  {
    PayloadOfEncoded(List(items));
    FrontOfEncoded(List(items), []);
    AppendNothing(Encode(List(items)));
  }

  lemma WalkEncoded(items: seq<Item>, index: nat)
    requires |EncodeAll(items)| <= USIZE_MAX
    ensures WalkTo(EncodeAll(items), index) == if index < |items| then Ok(Encode(items[index])) else Err(RlpIsTooShort)
  {
    var p := EncodeAll(items);
    if index < |items| {
      ConsumeEncoded(items, index);
      EncodeElementLength(items, index);
      FrontOfEncoded(items[index], EncodeAll(items[index + 1..]));
      assert items[index..][0] == items[index] && items[index..][1..] == items[index + 1..];
    } else {
      ConsumeEncoded(items, |items|);
      assert items[|items|..] == [];
      ConsumeItemsSplit(p, |items|, index - |items|);
    }
  }

  lemma DecodeValueEncoded(d: bytes)
    requires |EncodeData(d)| <= USIZE_MAX
    ensures DecodeValue(EncodeData(d)) == Ok(d)
  {
    if |d| == 1 && d[0] < 0x80 {
      assert d == [d[0]];
    } else if |d| <= 55 {
      DecodeShortValue(d);
    } else {
      DecodeLongValue(d);
    }
  }

  lemma DecodeShortValue(d: bytes)
    requires |d| <= 55 && !(|d| == 1 && d[0] < 0x80)
    ensures DecodeValue(EncodeData(d)) == Ok(d)
  {
    var b := EncodeData(d);
    assert b == [0x80 + |d|] + d;
    assert b[1..1 + |d|] == d;
    if |d| == 1 { assert b[1] == d[0]; }
  }

  lemma DecodeLongValue(d: bytes)
    requires |d| > 55 && |EncodeData(d)| <= USIZE_MAX
    ensures DecodeValue(EncodeData(d)) == Ok(d)
  {
    var h := Header(|d|, 0x80);
    LongValueOf(h, d);
  }

  lemma LongValueOf(h: bytes, d: bytes)
    requires |d| > 55 && h == Header(|d|, 0x80) && |h + d| <= USIZE_MAX
    ensures DecodeValue(h + d) == Ok(d)
  {
    var b, n := h + d, |BigEndian(|d|)|;
    assert h <= b;
    LongHeader(|d|, 0x80, b);
    LengthDigits(|d|);
    PartOfAppend(h, d);
    LongValueAt(b, n, |d|);
  }

  /** The payload behind a length of n digits. */
  lemma LongValueAt(b: bytes, n: nat, len: nat)
    requires 1 <= n <= 8 && |b| == 1 + n + len <= USIZE_MAX && b[0] == 0xb7 + n
    requires DecodeUsize(b[1..1 + n]) == Ok(len)
    ensures DecodeValue(b) == Ok(b[1 + n..1 + n + len])
  {
  }

  lemma PartOfAppend(a: bytes, b: bytes)
    ensures (a + b)[|a|..|a| + |b|] == b
  {
  }

  // ---- whole trees ----

  /** The element is shorter than the list that holds it. */
  lemma ElementShorter(b: bytes, index: nat)
    requires At(b, index).Ok?
    ensures |At(b, index).value| < |b|
  {
    assert ItemInfo(b).value.headerLen >= 1;
  }

  /** Reads a whole tree through the cursor interface. */
  function DecodeTree(b: bytes): Result<Item>
    decreases |b|, 1, 0
  {
    if IsData(b) then
      var d :- DecodeValue(b);
      Ok(Data(d))
    else
      var n :- ItemCount(b);
      var items :- DecodeElements(b, n);
      Ok(List(items))
  }

  /** The first n elements. */
  function DecodeElements(b: bytes, n: nat): Result<seq<Item>>
    decreases |b|, 0, n
  {
    if n == 0 then Ok([])
    else
      var front :- DecodeElements(b, n - 1);
      var raw :- At(b, n - 1);
      ElementShorter(b, n - 1);
      var last :- DecodeTree(raw);
      Ok(front + [last])
  }

  lemma {:induction false} DecodeUndoesEncode(i: Item)
    requires |Encode(i)| <= USIZE_MAX
    ensures DecodeTree(Encode(i)) == Ok(i)
  {
    assert Encode(i) + [] == Encode(i);
    FrontOfEncoded(i, []);
    match i {
      case Data(d) => DecodeValueEncoded(d);
      case List(items) =>
        AtEncoded(items, 0);
        forall k: nat ensures DecodesAt(Encode(i), items, k) {
          if k < |items| {
            AtEncoded(items, k);
            EncodeElementLength(items, k);
            DecodeUndoesEncode(items[k]);
          }
        }
        DecodeElementsFrom(Encode(i), items, |items|);
        TakeAll(items);
    }
  }

  predicate ElementDecodes(b: bytes, k: nat, i: Item) {
    At(b, k).Ok? && DecodeTree(At(b, k).value) == Ok(i)
  }

  ghost predicate DecodesAt(b: bytes, items: seq<Item>, k: nat) {
    k < |items| ==> ElementDecodes(b, k, items[k])
  }

  /** The first n elements decode to the first n items. */
  ghost predicate FirstDecode(b: bytes, items: seq<Item>, n: nat)
    requires n <= |items|
  {
    DecodeElements(b, n) == Ok(items[..n])
  }

  lemma FirstDecodeStep(b: bytes, items: seq<Item>, n: nat)
    requires n < |items| && FirstDecode(b, items, n) && ElementDecodes(b, n, items[n])
    ensures FirstDecode(b, items, n + 1)
  {
    TakeSnoc(items, n);
  }

  /** When every element decodes, so does the list of the first n. */
  lemma {:induction false} DecodeElementsFrom(b: bytes, items: seq<Item>, n: nat)
    requires n <= |items|
    requires forall k: nat :: DecodesAt(b, items, k)
    ensures FirstDecode(b, items, n)
  {
    if n > 0 {
      DecodeElementsFrom(b, items, n - 1);
      assert DecodesAt(b, items, n - 1);
      FirstDecodeStep(b, items, n - 1);
    }
  }

  /** Two trees with the same encoding are the same tree. */
  lemma EncodeInjective(i: Item, j: Item)
    requires |Encode(i)| <= USIZE_MAX && Encode(i) == Encode(j)
    ensures i == j
  {
    DecodeUndoesEncode(i);
    DecodeUndoesEncode(j);
  }

  // ---- the form of an encoding ----

  /** A first byte that says the kind and a length up to 55, or the kind and how many bytes the length has,
      then the length without leading zeros, then the content. */
  ghost predicate HasForm(b: bytes, offset: byte, content: bytes)
    requires offset == 0x80 || offset == 0xc0
  {
    b != [] &&
    if b[0] <= offset + 55 then b[0] == offset + |content| && b[1..] == content
    else
      var k := b[0] - offset - 55;
      |b| > k && b[1] != 0 && FromBigEndian(b[1..1 + k]) == |content| > 55 && b[1 + k..] == content
  }

  /** A single byte below 0x80 stands for itself, everything else has the form of its kind. */
  lemma EncodedForm(i: Item)
    requires |Encode(i)| <= USIZE_MAX
    ensures if i.Data? && |i.d| == 1 && i.d[0] < 0x80 then Encode(i) == i.d
      else HasForm(Encode(i), if i.Data? then 0x80 else 0xc0, Content(i))
  {
    if !(i.Data? && |i.d| == 1 && i.d[0] < 0x80) { HeaderForm(if i.Data? then 0x80 else 0xc0, Content(i)); }
  }

  lemma HeaderForm(offset: byte, content: bytes)
    requires (offset == 0x80 || offset == 0xc0) && |content| <= USIZE_MAX
    ensures HasForm(Header(|content|, offset) + content, offset, content)
  {
    var n, b := |content|, Header(|content|, offset) + content;
    if n > 55 {
      LongHeader(n, offset, b);
      LengthDigits(n);
      FromBigEndianOfBigEndian(n);
      assert b[1] == BigEndian(n)[0];
    }
  }

  /** A header of this kind at the front, and behind it at least as much as it announces. */
  ghost predicate HasHeader(b: bytes, offset: byte, info: PayloadInfo)
    requires offset == 0x80 || offset == 0xc0
  {
    |b| >= info.Total() && b != [] && b[0] >= offset && (offset == 0x80 ==> b[0] < 0xc0) &&
    if b[0] <= offset + 55 then info == PayloadInfo(1, b[0] - offset)
    else
      var k := b[0] - offset - 55;
      info.headerLen == 1 + k && |b| > k && b[1] != 0 && FromBigEndian(b[1..1 + k]) == info.valueLen
  }

  /** The cursor accepts exactly single bytes below 0x80 and complete items of either kind whose length has
      no leading zero. */
  lemma ItemInfoExactly(b: bytes, info: PayloadInfo)
    ensures ItemInfo(b) == Ok(info) <==>
      (b != [] && b[0] < 0x80 && info == PayloadInfo(0, 1)) || HasHeader(b, 0x80, info) || HasHeader(b, 0xc0, info)
  {
  }

  /** The long form of data: the length may have been short enough for the first byte, or start with a
      zero if it is zero. */
  ghost predicate HasLongForm(b: bytes, d: bytes) {
    b != [] && 0xb8 <= b[0] <= 0xbf &&
    var end := 1 + b[0] - 0xb7;
    |b| >= end && !(b[1] == 0 && end > 2) && end + |d| <= |b| && end + |d| <= USIZE_MAX &&
    FromBigEndian(b[1..end]) == |d| && d == b[end..end + |d|]
  }

  /** Bytes are read as d exactly when they start with the encoding of d, as far as that is short, or have
      the long form of d. */
  lemma DecodeValueExactly(b: bytes, d: bytes)
    ensures DecodeValue(b) == Ok(d) <==> (|d| <= 55 && EncodeData(d) <= b) || HasLongForm(b, d)
  {
    if |d| <= 55 && EncodeData(d) <= b { ShortRead(b, d); }
    if b != [] && b[0] <= 0xb7 { ShortExactly(b, d); }
  }

  lemma ShortExactly(b: bytes, d: bytes)
    requires b != [] && b[0] <= 0xb7
    ensures DecodeValue(b) == Ok(d) <==> |d| <= 55 && EncodeData(d) <= b
  {
    var last: nat := if b[0] <= 0x7f then 1 else 1 + b[0] - 0x80;
    if |d| <= 55 && EncodeData(d) <= b {
      ShortRead(b, d);
    } else if |b| >= last && b[0] >= 0x80 {
      assert b[..last] == [b[0]] + b[1..last];
    }
  }

  lemma ShortRead(b: bytes, d: bytes)
    requires |d| <= 55 && EncodeData(d) <= b
    ensures DecodeValue(b) == Ok(d)
  {
    var e := EncodeData(d);
    assert forall k :: 0 <= k < |e| ==> e[k] == b[k];
    if |d| == 1 && d[0] < 0x80 {
      assert d == [b[0]];
    } else {
      assert e == [0x80 + |d|] + d && b[1..1 + |d|] == d;
    }
  }

  // ---- the shortest encoding ----

  /** b is one item and nothing more. */
  predicate IsOneItem(b: bytes) {
    ItemInfo(b).Ok? && ItemInfo(b).value.Total() == |b|
  }

  /** No header announces a payload in fewer bytes than Header does. */
  lemma HeaderShortest(b: bytes, n: nat, offset: byte)
    requires offset == 0x80 || offset == 0xc0
    requires IsOneItem(b) && b[0] >= offset && (offset == 0x80 ==> 0x80 <= b[0] < 0xc0)
    requires n <= ItemInfo(b).value.valueLen
    ensures |Header(n, offset)| <= ItemInfo(b).value.headerLen
  {
    if b[0] > offset + 55 && n > 55 {
      var k: nat := b[0] - offset - 55;
      FromBigEndianBound(b[1..1 + k]);
      LengthGrows(n, FromBigEndian(b[1..1 + k]), k);
    }
  }

  lemma LengthGrows(n: nat, len: nat, k: nat)
    requires n <= len && len < Pow256(k)
    ensures |BigEndian(n)| <= k
  {
    BigEndianLength(n, k);
  }

  lemma DataShortest(b: bytes, d: bytes)
    requires IsOneItem(b) && DecodeValue(b) == Ok(d)
    ensures |EncodeData(d)| <= |b|
  {
    if b[0] >= 0x80 { HeaderShortest(b, |d|, 0x80); }
  }

  /** No bytes that are read as a tree are fewer than its encoding. */
  lemma {:induction false} EncodeShortest(b: bytes, i: Item)
    requires IsOneItem(b) && DecodeTree(b) == Ok(i)
    ensures |Encode(i)| <= |b|
    decreases |b|, 1, 0
  {
    if IsData(b) {
      DataShortest(b, i.d);
    } else {
      var n := ItemCount(b).value;
      ElementsShortest(b, n, i.items);
      HeaderShortest(b, |EncodeAll(i.items)|, 0xc0);
    }
  }

  /** The first n elements take at least what their encodings do. */
  lemma {:induction false} ElementsShortest(b: bytes, n: nat, items: seq<Item>)
    requires IsOneItem(b) && IsList(b) && DecodeElements(b, n) == Ok(items)
    ensures FitIn(b, n, items)
    decreases |b|, 0, n
  {
    if n == 0 {
      assert ConsumeItems(ConsumeListPayload(b).value, 0).Ok?;
    } else {
      var front, raw, last := LastElement(b, n, items);
      ElementsShortest(b, n - 1, front);
      EncodeShortest(raw, last);
      OneMoreFits(b, n, front, raw, last);
    }
  }

  /** The items' encodings take no more than the first n elements. */
  ghost predicate FitIn(b: bytes, n: nat, items: seq<Item>) {
    ConsumeListPayload(b).Ok? && ConsumeItems(ConsumeListPayload(b).value, n).Ok? &&
    |EncodeAll(items)| + |ConsumeItems(ConsumeListPayload(b).value, n).value| <= |ConsumeListPayload(b).value|
  }

  lemma OneMoreFits(b: bytes, n: nat, front: seq<Item>, raw: bytes, last: Item)
    requires n > 0 && FitIn(b, n - 1, front) && At(b, n - 1) == Ok(raw) && |Encode(last)| <= |raw|
    ensures FitIn(b, n, front + [last])
  {
    ElementIsOneItem(b, n - 1);
    EncodeAllSnoc(front, last);
  }

  lemma LastElement(b: bytes, n: nat, items: seq<Item>) returns (front: seq<Item>, raw: bytes, last: Item)
    requires n > 0 && DecodeElements(b, n) == Ok(items)
    ensures items == front + [last] && DecodeElements(b, n - 1) == Ok(front)
    ensures At(b, n - 1) == Ok(raw) && DecodeTree(raw) == Ok(last) && |raw| < |b| && IsOneItem(raw)
  {
    front, raw := DecodeElements(b, n - 1).value, At(b, n - 1).value;
    ElementShorter(b, n - 1);
    ElementIsOneItem(b, n - 1);
    last := DecodeTree(raw).value;
  }

  /** An element is one item, and the next one starts behind it. */
  lemma ElementIsOneItem(b: bytes, k: nat)
    requires At(b, k).Ok?
    ensures var p := ConsumeListPayload(b).value;
      IsOneItem(At(b, k).value) && ConsumeItems(p, k).Ok? && ConsumeItems(p, k + 1).Ok? &&
      |ConsumeItems(p, k + 1).value| == |ConsumeItems(p, k).value| - |At(b, k).value|
  {
    var p := ConsumeListPayload(b).value;
    ConsumeNext(p, k);
    FrontIsOneItem(ConsumeItems(p, k).value);
  }

  lemma ConsumeNext(p: bytes, k: nat)
    requires ConsumeItems(p, k).Ok? && FrontItem(ConsumeItems(p, k).value).Ok?
    ensures var rest := ConsumeItems(p, k).value;
      ConsumeItems(p, k + 1).Ok? && |ConsumeItems(p, k + 1).value| == |rest| - |FrontItem(rest).value|
  {
    var rest := ConsumeItems(p, k).value;
    ConsumeItemsSplit(p, k, 1);
    ConsumeOne(rest);
  }

  lemma ConsumeOne(b: bytes)
    requires FrontItem(b).Ok?
    ensures ConsumeItems(b, 1).Ok? && |ConsumeItems(b, 1).value| == |b| - |FrontItem(b).value|
  {
    assert ConsumeItems(b[ItemInfo(b).value.Total()..], 0).Ok?;
  }

  lemma FrontIsOneItem(b: bytes)
    requires FrontItem(b).Ok?
    ensures IsOneItem(FrontItem(b).value)
  {
    var front := FrontItem(b).value;
    if b[0] > 0xb7 && !(0xc0 <= b[0] <= 0xf7) {
      var k: nat := if b[0] < 0xc0 then b[0] - 0xb7 else b[0] - 0xf7;
      assert front[1..1 + k] == b[1..1 + k];
    }
  }

  // ---- unsigned integers ----

  /** The bytes an unsigned integer of the given width is appended as. */
  function UintBytes(n: nat, width: nat): bytes {
    Fixed(n, width)[LeadingEmptyBytes(n, width)..]
  }

  function EncodeUint(n: nat, width: nat): bytes {
    EncodeData(UintBytes(n, width))
  }

  function DecodeU8(b: bytes): Result<nat> {
    var d :- DecodeValue(b);
    if |d| == 0 then Ok(0)
    else if |d| > 1 then Err(RlpIsTooBig)
    else if d[0] == 0 then Err(RlpInvalidIndirection)
    else Ok(d[0])
  }

  function DecodeUint(b: bytes, width: nat): Result<nat> {
    var d :- DecodeValue(b);
    if |d| <= 1 then DecodeU8(b)
    else if |d| > width then Err(RlpIsTooBig)
    else if d[0] == 0 then Err(RlpInvalidIndirection)
    else Ok(FromBigEndian(d))
  }

  lemma UintRoundTrip(n: nat, width: nat)
    requires 1 <= width <= 8 && n < Pow256(width)
    ensures DecodeUint(EncodeUint(n, width), width) == Ok(n)
    ensures UintBytes(n, width) == BigEndian(n)
  {
    FixedTrimmed(n, width);
    BigEndianLength(n, width);
    FromBigEndianOfBigEndian(n);
    DecodeValueEncoded(BigEndian(n));
    if |BigEndian(n)| == 1 {
      assert BigEndian(n)[..0] == [];
    }
  }

  /** Whatever bytes are accepted, with a short header or a long one, hold the shortest digits of the
      integer that is returned, and it fits the width. */
  lemma UintDecodedIsShortest(b: bytes, width: nat)
    requires 1 <= width <= 8 && DecodeUint(b, width).Ok?
    ensures DecodeValue(b) == Ok(UintBytes(DecodeUint(b, width).value, width))
    ensures DecodeUint(b, width).value < Pow256(width)
  {
    var d, n := DecodeValue(b).value, DecodeUint(b, width).value;
    if |d| == 1 {
      assert d[..0] == [];
      assert FromBigEndian(d) == d[0];
    }
    assert n == FromBigEndian(d);
    BigEndianOfFromBigEndian(d);
    BigEndianLength(n, width);
    FixedTrimmed(n, width);
  }

  /** So two byte strings read as the same integer exactly when they hold the same digits. */
  lemma UintDecodedInjective(a: bytes, b: bytes, width: nat)
    requires 1 <= width <= 8 && DecodeUint(a, width).Ok? && DecodeUint(b, width).Ok?
    ensures DecodeUint(a, width) == DecodeUint(b, width) <==> DecodeValue(a) == DecodeValue(b)
  {
    UintDecodedIsShortest(a, width);
    UintDecodedIsShortest(b, width);
  }
}
