/** The appendable encoder: a byte buffer in which every open list keeps one reserved byte, and a
    stack of open lists whose length bytes are inserted into the middle of the buffer on closing. */
module RlpStreams {
  import opened Bytes
  import opened RlpSpec

  const U32_RANGE := 0x1_0000_0000

  /** An open list: where its payload starts, how many items it holds, how many it announced. */
  datatype ListInfo = ListInfo(position: nat, current: nat, max: nat)

  /** What an open list means: its payload so far, without the reserved byte. */
  datatype Frame = Frame(count: nat, max: nat, payload: bytes)

  /** The meaning of a stream: finished bytes below, open lists above, innermost last. */
  datatype Stack = Stack(base: bytes, frames: seq<Frame>) {
    function Below(): Stack
      requires frames != []
    {
      Stack(base, frames[..|frames| - 1])
    }

    function Top(): Frame
      requires frames != []
    {
      frames[|frames| - 1]
    }

    /** The buffer this stack stands for: one reserved byte before each open payload. */
    function Flat(): bytes
      decreases |frames|
    {
      if frames == [] then base else Below().Flat() + [0] + Top().payload
    }

    function Opened(): (o: seq<ListInfo>)
      ensures |o| == |frames|
      decreases |frames|
    {
      if frames == [] then []
      else Below().Opened() + [ListInfo(|Below().Flat()| + 1, Top().count, Top().max)]
    }

    predicate Unfilled() {
      forall i :: 0 <= i < |frames| ==> frames[i].count < frames[i].max
    }

    /** n more items do not exceed what the innermost list announced. */
    predicate Accepts(n: nat) {
      frames == [] || Top().count + n <= Top().max
    }

    function Put(b: bytes): Stack {
      if frames == [] then Stack(base + b, [])
      else Stack(base, frames[..|frames| - 1] + [Top().(payload := Top().payload + b)])
    }

    function Open(max: nat): Stack {
      Stack(base, frames + [Frame(0, max, [])])
    }

    /** The innermost list with its prefix, put into the list around it. */
    function Closed(): (c: Stack)
      requires frames != []
      ensures |c.frames| < |frames|
    {
      Below().Put(Header32(|Top().payload|, 0xc0) + Top().payload)
    }

    /** Count n items in the innermost list; a full list becomes one item of the list around it. */
    function Note(n: nat): Stack
      requires Unfilled() && Accepts(n)
      decreases |frames|
    {
      if frames == [] then this
      else if Top().count + n < Top().max then
        Stack(base, frames[..|frames| - 1] + [Top().(count := Top().count + n)])
      else
        Closed().Note(1)
    }

    /** One whole item more. */
    function Received(item: bytes): Stack
      requires Unfilled() && Accepts(1)
    {
      Put(item).Note(1)
    }
  }

  /** The header as written: a long length goes through 32 bits. */
  function Header32(n: nat, offset: byte): (h: bytes)
    requires offset == 0x80 || offset == 0xc0
  {
    if n <= 55 then [offset + n]
    else
      var digits := BigEndian(n % U32_RANGE);
      [(offset + 55 + |digits|) % 256] + digits
  }

  lemma Header32Exact(n: nat, offset: byte)
    requires offset == 0x80 || offset == 0xc0
    requires n < U32_RANGE
    ensures Header32(n, offset) == Header(n, offset)
  {
    assert n % U32_RANGE == n;
  }

  function EncodeData32(d: bytes): bytes {
    if |d| == 1 && d[0] < 0x80 then d else Header32(|d|, 0x80) + d
  }

  lemma LongHeader32(a: bytes, n: nat)
    requires n > 55
    ensures var digits := BigEndian(n % U32_RANGE);
      |digits| <= 4 && (a + [0] + digits)[|a| := 0xb7 + |digits|] == a + Header32(n, 0x80)
  {
    Pow256Values();
    BigEndianLength(n % U32_RANGE, 4);
    SetReserved(a, 0, BigEndian(n % U32_RANGE), 0xb7 + |BigEndian(n % U32_RANGE)|);
  }

  lemma Inserted(a: bytes, b: bytes)
    ensures a[..|a|] + b + a[|a|..] == a + b
  {
  }

  lemma EncodeData32Exact(d: bytes)
    requires |d| < U32_RANGE
    ensures EncodeData32(d) == EncodeData(d)
  {
    Header32Exact(|d|, 0x80);
  }

  lemma SetReserved(a: bytes, x: byte, b: bytes, y: byte)
    ensures (a + [x] + b)[|a| := y] == a + ([y] + b)
  {
  }

  lemma PutFlat(s: Stack, b: bytes)
    ensures s.Put(b).Flat() == s.Flat() + b
    ensures s.Put(b).Opened() == s.Opened()
    ensures s.Unfilled() ==> s.Put(b).Unfilled()
  {
    if s.frames != [] {
      assert s.Put(b).Below() == s.Below();
    }
  }

  lemma OpenFlat(s: Stack, max: nat)
    requires max > 0
    ensures s.Open(max).Flat() == s.Flat() + [0]
    ensures s.Open(max).Opened() == s.Opened() + [ListInfo(|s.Flat()| + 1, 0, max)]
    ensures s.Unfilled() ==> s.Open(max).Unfilled()
  {
    OpenBelow(s, max);
    var o := s.Open(max);
    calc {
      o.Flat();
      o.Below().Flat() + [0] + [];
      s.Flat() + [0];
    }
  }

  lemma OpenBelow(s: Stack, max: nat)
    ensures s.Open(max).Below() == s && s.Open(max).Top() == Frame(0, max, [])
  {
    assert s.Open(max).frames[..|s.frames|] == s.frames;
  }

  /** Where the innermost list sits in the buffer. */
  lemma TopView(s: Stack)
    requires s.frames != []
    ensures s.Opened()[..|s.frames| - 1] == s.Below().Opened()
    ensures s.Opened()[|s.frames| - 1] == ListInfo(|s.Below().Flat()| + 1, s.Top().count, s.Top().max)
    ensures |s.Flat()| == |s.Below().Flat()| + 1 + |s.Top().payload|
    ensures s.Flat()[..|s.Below().Flat()|] == s.Below().Flat()
    ensures s.Flat()[|s.Below().Flat()| + 1..] == s.Top().payload
    ensures s.Unfilled() ==> s.Below().Unfilled()
  {
  }

  lemma NoteClosed(s: Stack, n: nat)
    requires s.frames != [] && s.Unfilled() && s.Top().count + n == s.Top().max
    ensures s.Closed().Unfilled() && s.Closed().Accepts(1)
    ensures s.Note(n) == s.Closed().Note(1)
  {
  }

  /** Counting without closing moves no byte. */
  lemma BumpView(s: Stack, n: nat)
    requires s.frames != [] && s.Top().count + n < s.Top().max && s.Unfilled()
    ensures s.Note(n).Flat() == s.Flat()
    ensures s.Note(n).Opened() ==
      s.Opened()[|s.frames| - 1 := ListInfo(|s.Below().Flat()| + 1, s.Top().count + n, s.Top().max)]
    ensures s.Note(n).Unfilled()
  {
    var t := Stack(s.base, s.frames[..|s.frames| - 1] + [s.Top().(count := s.Top().count + n)]);
    assert s.Note(n) == t;
    assert t.Below() == s.Below() && t.Top() == s.Top().(count := s.Top().count + n);
  }

  /** The stack after a list was announced on top of s and its first i elements were appended. */
  ghost function Listed(s: Stack, items: seq<Item>, i: nat): Stack
    requires i <= |items| && s.Unfilled() && s.Accepts(1)
  {
    if i < |items| then Stack(s.base, s.frames + [Frame(i, |items|, EncodeAll(items[..i]))])
    else
      PutFlat(s, Header32(|EncodeAll(items)|, 0xc0) + EncodeAll(items));
      s.Put(Header32(|EncodeAll(items)|, 0xc0) + EncodeAll(items)).Note(1)
  }

  lemma ListedOpen(s: Stack, items: seq<Item>, i: nat)
    requires i < |items| && s.Unfilled() && s.Accepts(1)
    ensures Listed(s, items, i).frames != [] && Listed(s, items, i).Below() == s
    ensures Listed(s, items, i).Top() == Frame(i, |items|, EncodeAll(items[..i]))
    ensures Listed(s, items, i).Unfilled()
  {
    assert Listed(s, items, i).frames[..|s.frames|] == s.frames;
  }

  lemma ListedPut(s: Stack, items: seq<Item>, i: nat)
    requires i < |items| && s.Unfilled() && s.Accepts(1)
    ensures Listed(s, items, i).Put(Encode(items[i])) ==
      Stack(s.base, s.frames + [Frame(i, |items|, EncodeAll(items[..i + 1]))])
    ensures Listed(s, items, i).Put(Encode(items[i])).Unfilled()
  {
    ListedOpen(s, items, i);
    EncodeAllSnoc(items[..i], items[i]);
    assert items[..i] + [items[i]] == items[..i + 1];
    PutFlat(Listed(s, items, i), Encode(items[i]));
  }

  lemma ListedStep(s: Stack, items: seq<Item>, i: nat)
    requires i < |items| && s.Unfilled() && s.Accepts(1)
    ensures Listed(s, items, i).Put(Encode(items[i])).Unfilled()
    ensures Listed(s, items, i).Put(Encode(items[i])).Accepts(1)
    ensures Listed(s, items, i).Put(Encode(items[i])).Note(1) == Listed(s, items, i + 1)
  {
    ListedPut(s, items, i);
    var put := Stack(s.base, s.frames + [Frame(i, |items|, EncodeAll(items[..i + 1]))]);
    assert put.frames[..|s.frames|] == s.frames && put.Top().count == i;
    if i + 1 == |items| {
      assert items[..i + 1] == items;
      assert put.Below() == s;
    }
  }

  /** The encoding of the next item is received as the list grown by it. */
  lemma ListedNext(s: Stack, items: seq<Item>, i: nat, b: bytes)
    requires i < |items| && s.Unfilled() && s.Accepts(1) && b == Encode(items[i])
    ensures Listed(s, items, i).Unfilled() && Listed(s, items, i).Accepts(1)
    ensures Listed(s, items, i).Received(b) == Listed(s, items, i + 1)
  {
    ListedOpen(s, items, i);
    ListedStep(s, items, i);
  }

  lemma ListStarted(s: Stack, items: seq<Item>)
    requires items != [] && s.Unfilled() && s.Accepts(1)
    ensures s.Open(|items|) == Listed(s, items, 0)
  {
    assert items[..0] == [];
  }

  /** A list whose elements are all appended is one encoded item of the list around it. */
  lemma ListedAll(s: Stack, items: seq<Item>)
    requires s.Unfilled() && s.Accepts(1) && |Encode(List(items))| < U32_RANGE
    ensures s.Put(Encode(List(items))).Unfilled() && s.Put(Encode(List(items))).Accepts(1)
    ensures Listed(s, items, |items|) == s.Put(Encode(List(items))).Note(1)
    ensures items == [] ==> Encode(List(items)) == [0xc0]
    ensures items != [] ==> Listed(s, items, 0) == s.Open(|items|)
  {
    Header32Exact(|EncodeAll(items)|, 0xc0);
    PutFlat(s, Encode(List(items)));
    assert items[..0] == [];
  }

  class RlpStream {
    var unfinishedLists: seq<ListInfo>
    var buffer: bytes
    var finishedList: bool
    ghost var stack: Stack

    ghost predicate Valid()
      reads `unfinishedLists, `buffer, `stack
    {
      buffer == stack.Flat() && unfinishedLists == stack.Opened() && stack.Unfilled()
    }

    constructor ()
      ensures Valid() && stack == Stack([], []) && !finishedList
    {
      unfinishedLists, buffer, finishedList := [], [], false;
      stack := Stack([], []);
    }

    constructor NewList(len: nat)
      ensures Valid()
      ensures stack == if len == 0 then Stack([0xc0], []) else Stack([], [Frame(0, len, [])])
    {
      unfinishedLists, buffer, finishedList := [], [], false;
      stack := Stack([], []);
      new;
      BeginList(len);
    }

    predicate IsFinished()
      reads this
    {
      |unfinishedLists| == 0
    }

    /** The bytes of a finished stream. */
    method Out() returns (r: bytes)
      requires Valid() && IsFinished()
      ensures r == stack.base
    {
      r := buffer;
    }

    method BeginList(len: nat)
      requires Valid() && stack.Accepts(1)
      modifies this
      ensures Valid()
      ensures stack == if len == 0 then old(stack).Received([0xc0]) else old(stack).Open(len)
      ensures finishedList == (len == 0)
    {
      finishedList := false;
      if len == 0 {
        PutFlat(stack, [0xc0]);
        buffer := buffer + [0xc0];
        stack := stack.Put([0xc0]);
        NoteAppended(1);
        finishedList := true;
      } else {
        OpenFlat(stack, len);
        buffer := buffer + [0];
        unfinishedLists := unfinishedLists + [ListInfo(|buffer|, 0, len)];
        stack := stack.Open(len);
      }
    }

    method AppendEmptyData()
      requires Valid() && stack.Accepts(1)
      modifies this
      ensures Valid() && stack == old(stack).Received([0x80])
    {
      PutFlat(stack, [0x80]);
      buffer := buffer + [0x80];
      stack := stack.Put([0x80]);
      NoteAppended(1);
    }

    /** Bytes already encoded elsewhere, holding itemCount items. */
    method AppendRaw(raw: bytes, itemCount: nat)
      requires Valid() && stack.Accepts(itemCount)
      modifies this
      ensures Valid() && stack == old(stack).Put(raw).Note(itemCount)
    {
      PutFlat(stack, raw);
      buffer := buffer + raw;
      stack := stack.Put(raw);
      NoteAppended(itemCount);
    }

    method AppendBytes(value: bytes)
      requires Valid() && stack.Accepts(1)
      modifies this
      ensures Valid() && stack == old(stack).Received(EncodeData32(value))
    {
      finishedList := false;
      EncodeValue(value);
      NoteAppended(1);
    }

    method NoteAppended(insertedItems: nat)
      requires Valid() && stack.Accepts(insertedItems)
      modifies this
      ensures Valid() && stack == old(stack).Note(insertedItems)
      ensures finishedList ==
        if old(stack).frames == [] then old(finishedList)
        else old(stack).Top().count + insertedItems == old(stack).Top().max
      decreases |stack.frames|
    {
      if |unfinishedLists| == 0 {
        assert stack == old(stack).Note(insertedItems);
        return;
      }
      var shouldFinish, x := CountItems(insertedItems);
      if shouldFinish {
        NoteClosed(stack, insertedItems);
        unfinishedLists := unfinishedLists[..|unfinishedLists| - 1];
        FinishList(x.position);
        NoteAppended(1);
      } else {
        BumpView(stack, insertedItems);
        ghost var next := stack.Note(insertedItems);
        assert unfinishedLists == next.Opened();
        stack := next;
      }
      finishedList := shouldFinish;
    }

    /** Adds to the innermost list's count and says whether that fills it. */
    method CountItems(insertedItems: nat) returns (shouldFinish: bool, x: ListInfo)
      requires Valid() && stack.Accepts(insertedItems) && stack.frames != []
      modifies this`unfinishedLists
      ensures x == ListInfo(|stack.Below().Flat()| + 1, stack.Top().count + insertedItems, stack.Top().max)
      ensures unfinishedLists == old(unfinishedLists)[|stack.frames| - 1 := x]
      ensures unfinishedLists[..|stack.frames| - 1] == stack.Below().Opened()
      ensures shouldFinish == (stack.Top().count + insertedItems == stack.Top().max)
    {
      TopView(stack);
      var back := |unfinishedLists| - 1;
      x := unfinishedLists[back];
      x := x.(current := x.current + insertedItems);
      unfinishedLists := unfinishedLists[back := x];
      shouldFinish := x.current == x.max;
    }

    /** Writes the prefix of the innermost list, already taken off the stack of open lists. */
    method FinishList(position: nat)
      requires stack.frames != [] && stack.Unfilled()
      requires buffer == stack.Flat() && unfinishedLists == stack.Below().Opened()
      requires position == |stack.Below().Flat()| + 1
      modifies this`buffer, this`stack
      ensures Valid()
      ensures stack == old(stack).Closed()
    {
      TopView(stack);
      ghost var closed := Header32(|stack.Top().payload|, 0xc0) + stack.Top().payload;
      InsertListPayload(|buffer| - position, position);
      assert buffer == stack.Below().Flat() + closed;
      PutFlat(stack.Below(), closed);
      stack := stack.Below().Put(closed);
    }

    /** Inserts the 32-bit length in front of position and says how many bytes that took. */
    method InsertSize(size: nat, position: nat) returns (sizeBytes: nat)
      requires position <= |buffer|
      modifies this`buffer
      ensures buffer == old(buffer[..position]) + BigEndian(size % U32_RANGE) + old(buffer[position..])
      ensures sizeBytes == |BigEndian(size % U32_RANGE)|
      ensures sizeBytes <= 4
    {
      var size32 := size % U32_RANGE;
      Pow256Values();
      FixedTrimmed(size32, 4);
      var leadingEmptyBytes := LeadingEmptyBytes(size32, 4);
      sizeBytes := 4 - leadingEmptyBytes;
      buffer := buffer[..position] + Fixed(size32, 4)[leadingEmptyBytes..] + buffer[position..];
    }

    /** Turns the byte reserved before position into the prefix of a payload of len bytes. */
    method InsertListPayload(len: nat, position: nat)
      requires 1 <= position <= |buffer|
      modifies this`buffer
      ensures buffer == old(buffer[..position - 1]) + Header32(len, 0xc0) + old(buffer[position..])
    {
      if len <= 55 {
        buffer := buffer[position - 1 := 0xc0 + len];
      } else {
        var insertedBytes := InsertSize(len, position);
        buffer := buffer[position - 1 := 0xf7 + insertedBytes];
      }
    }

    /** Pushes the encoding of a byte string without counting it as an item. */
    method EncodeValue(value: bytes)
      requires Valid()
      modifies this`buffer, this`stack
      ensures Valid() && stack == old(stack).Put(EncodeData32(value))
    {
      PutFlat(stack, EncodeData32(value));
      PushValue(value);
      stack := stack.Put(EncodeData32(value));
    }

    method PushValue(value: bytes)
      modifies this`buffer
      ensures buffer == old(buffer) + EncodeData32(value)
    {
      if |value| == 0 {
        buffer := buffer + [0x80];
      } else if |value| == 1 && value[0] < 0x80 {
        buffer := buffer + [value[0]];
      } else if |value| <= 55 {
        AppendAssociative(buffer, [0x80 + |value|], value);
        buffer := buffer + [0x80 + |value|];
        buffer := buffer + value;
      } else {
        PushLong(value);
      }
    }

    method PushLong(value: bytes)
      requires |value| > 55
      modifies this`buffer
      ensures buffer == old(buffer) + (Header32(|value|, 0x80) + value)
    {
      AppendAssociative(buffer, Header32(|value|, 0x80), value);
      PushLength(|value|);
      buffer := buffer + value;
    }

    /** A length of its own, inserted behind a byte that is set once it is known how long that got. */
    method PushLength(len: nat)
      requires len > 55
      modifies this`buffer
      ensures buffer == old(buffer) + Header32(len, 0x80)
    {
      LongHeader32(buffer, len);
      Inserted(buffer + [0], BigEndian(len % U32_RANGE));
      buffer := buffer + [0];
      var position := |buffer|;
      var insertedBytes := InsertSize(len, position);
      buffer := buffer[position - 1 := 0xb7 + insertedBytes];
    }

    /** Appends one value, whose own rlp_append announces a list and appends its elements, or
        encodes a byte string. The buffer receives exactly the item's encoding, counted once. */
    method Append(item: Item)
      requires Valid() && stack.Accepts(1)
      requires |Encode(item)| < U32_RANGE
      modifies this
      ensures Valid() && stack == old(stack).Received(Encode(item))
      ensures finishedList == (item.List? || (old(stack).frames != [] &&
                                              old(stack).Top().count + 1 == old(stack).Top().max))
      decreases item, 1
    {
      finishedList := false;
      match item {
        case Data(d) =>
          Header32Exact(|d|, 0x80);
          EncodeValue(d);
        case List(items) =>
          AppendList(items);
      }
      if !finishedList {
        NoteAppended(1);
      }
    }

    /** begin_list followed by one append for each element. */
    method AppendList(items: seq<Item>)
      requires Valid() && stack.Accepts(1)
      requires |Encode(List(items))| < U32_RANGE
      modifies this
      ensures Valid() && finishedList
      ensures stack == old(stack).Received(Encode(List(items)))
      decreases items, 1
    {
      ghost var before := stack;
      ListedAll(before, items);
      BeginList(|items|);
      if items == [] {
        return;
      }
      var i := 0;
      while i < |items|
        invariant 0 <= i <= |items|
        invariant Valid() && stack == Listed(before, items, i)
        invariant i == |items| ==> finishedList
      {
        AppendElement(items, i, before);
        i := i + 1;
      }
    }

    /** The next element of an announced list. */
    method AppendElement(items: seq<Item>, i: nat, ghost before: Stack)
      requires Valid() && i < |items| && before.Unfilled() && before.Accepts(1) && stack == Listed(before, items, i)
      requires |Encode(List(items))| < U32_RANGE
      modifies this
      ensures Valid() && stack == Listed(before, items, i + 1)
      ensures i + 1 == |items| ==> finishedList
      decreases items, 0
    {
      ListedOpen(before, items, i);
      ListedNext(before, items, i, Encode(items[i]));
      EncodeElementLength(items, i);
      Append(items[i]);
    }
  }
}
