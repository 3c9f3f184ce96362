/** Nodes as bytes: the encoding of a node with its children inlined or hashed (section D of the
    Ethereum Yellow Paper), and the node decoder reading it back. */
module TrieNode {
  import opened Bytes
  import opened RlpSpec
  import opened RlpDecoder
  import opened RlpRoundTrip
  import opened Nibbles
  import opened Trie
  import opened TrieShape

  type H256 = b: bytes | |b| == 32 witness seq(32, _ => 0)

  /** The digest, a parameter of everything below. */
  type HashFn = bytes -> H256

  /** A node whose encoding is shorter than a hash stands in its parent itself. */
  const INLINE_LIMIT := 32

  const MAX_KEY := 0x4000_0000
  const MAX_VALUE := 0x4000_0000
  const RLP_LIMIT := 0x1_0000_0000

  // ---- encoding ----

  function NodeItem(h: HashFn, t: Tree): Item
    decreases t, 0
  {
    match t
    case Empty => Data([])
    case Leaf(key, v) => List([Data(HexPrefix(key, true)), Data(v)])
    case Extension(key, child) => List([Data(HexPrefix(key, false)), ChildItem(h, child)])
    case Branch(children, value) => List(ChildItems(h, children) + [ValueItem(value)])
  }

  function ChildItems(h: HashFn, children: seq<Tree>): (r: seq<Item>)
    ensures |r| == |children|
    ensures forall i :: 0 <= i < |children| ==> r[i] == ChildItem(h, children[i])
    decreases children, 0
  {
    seq(|children|, i requires 0 <= i < |children| => ChildItem(h, children[i]))
  }

  function ValueItem(value: Option<bytes>): Item {
    Data(if value.Some? then value.value else [])
  }

  /** What a parent holds of a child. */
  function ChildItem(h: HashFn, t: Tree): Item
    decreases t, 1
  {
    if |Encode(NodeItem(h, t))| < INLINE_LIMIT then NodeItem(h, t) else Data(h(Encode(NodeItem(h, t))))
  }

  function Rlp(h: HashFn, t: Tree): bytes {
    Encode(NodeItem(h, t))
  }

  predicate Hashed(h: HashFn, t: Tree) {
    |Rlp(h, t)| >= INLINE_LIMIT
  }

  function RootHash(h: HashFn, t: Tree): H256 {
    h(Rlp(h, t))
  }

  // ---- decoding ----

  datatype RlpNode =
    | RlpEmpty
    | RlpLeaf(key: nibbles, leafValue: bytes)
    | RlpExtension(key: nibbles, item: bytes)
    | RlpBranch(nodes: seq<bytes>, value: Option<bytes>)

  /** The first n elements of a list, each with its header. */
  function RawElements(b: bytes, n: nat): Result<seq<bytes>> {
    if n == 0 then Ok([])
    else
      var front :- RawElements(b, n - 1);
      var last :- At(b, n - 1);
      Ok(front + [last])
  }

  /** The node decoder; Err where the source panics. */
  function DecodeNode(b: bytes): Result<RlpNode> {
    if IsData(b) then
      if Size(b) == 0 then Ok(RlpEmpty) else Err(RlpExpectedToBeList)
    else
      var n :- ItemCount(b);
      if n == 2 then DecodeTwo(b)
      else if n == 17 then DecodeSeventeen(b)
      else Err(RlpExpectedToBeList)
  }

  /** A leaf or an extension, as the flag in the first item says. */
  function DecodeTwo(b: bytes): Result<RlpNode> {
    var first :- At(b, 0);
    var partial :- Payload(first);
    var second :- At(b, 1);
    if partial == [] then Err(RlpIsTooShort)
    else
      var (slice, isLeaf) := FromHexPrefix(partial);
      if isLeaf then
        var v :- Payload(second);
        Ok(RlpLeaf(slice, v))
      else Ok(RlpExtension(slice, second))
  }

  /** Sixteen references and a value, absent where the last item is empty. */
  function DecodeSeventeen(b: bytes): Result<RlpNode> {
    var nodes :- RawElements(b, 16);
    var last :- At(b, 16);
    if IsEmptyItem(last) then Ok(RlpBranch(nodes, None))
    else
      var v :- Payload(last);
      Ok(RlpBranch(nodes, Some(v)))
  }

  function Encodings(items: seq<Item>): (r: seq<bytes>)
    ensures |r| == |items|
    ensures forall i :: 0 <= i < |items| ==> r[i] == Encode(items[i])
  {
    seq(|items|, i requires 0 <= i < |items| => Encode(items[i]))
  }

  /** A node's data as the decoder is to find it. */
  function NodeView(h: HashFn, t: Tree): RlpNode {
    match t
    case Empty => RlpEmpty
    case Leaf(key, v) => RlpLeaf(key, v)
    case Extension(key, child) => RlpExtension(key, Encode(ChildItem(h, child)))
    case Branch(children, value) => RlpBranch(Encodings(ChildItems(h, children)), value)
  }

  /** A reference is a hash exactly when it is data of 32 bytes. */
  predicate IsHashItem(b: bytes) { IsData(b) && Size(b) == 32 }

  // ---- sizes ----

  ghost predicate SmallContents(t: Tree) {
    forall k :: Lookup(t, k).Some? ==> |k| <= MAX_KEY && |Lookup(t, k).value| <= MAX_VALUE
  }

  lemma HeaderLength(n: nat, offset: byte)
    requires n < RLP_LIMIT && (offset == 0x80 || offset == 0xc0)
    ensures |Header(n, offset)| <= 5
  {
    Pow256Values();
    BigEndianLength(n, 4);
  }

  lemma EncodeDataLength(d: bytes)
    requires |d| < RLP_LIMIT
    ensures |EncodeData(d)| <= |d| + 5
    ensures |d| == 32 ==> |EncodeData(d)| == 33
  {
    HeaderLength(|d|, 0x80);
  }

  lemma ChildItemLength(h: HashFn, t: Tree)
    ensures |Encode(ChildItem(h, t))| <= 33
  {
    if Hashed(h, t) { EncodeDataLength(h(Rlp(h, t))); }
  }

  lemma {:induction false} EncodeAllLength(items: seq<Item>, n: nat)
    requires forall i :: 0 <= i < |items| ==> |Encode(items[i])| <= n
    ensures |EncodeAll(items)| <= |items| * n
  {
    if items != [] {
      EncodeAllLength(items[1..], n);
      assert |items| * n == n + (|items| - 1) * n;
    }
  }

  lemma PairLength(a: Item, b: Item)
    requires |Encode(a)| + |Encode(b)| < RLP_LIMIT
    ensures |Encode(List([a, b]))| <= |Encode(a)| + |Encode(b)| + 5
  {
    assert EncodeAll([a, b]) == Encode(a) + (Encode(b) + EncodeAll([])) by {
      assert [a, b][1..] == [b] && [b][1..] == [];
    }
    HeaderLength(|EncodeAll([a, b])|, 0xc0);
  }

  lemma BranchLength(h: HashFn, children: seq<Tree>, value: Option<bytes>)
    requires |children| == 16 && (value.Some? ==> |value.value| <= MAX_VALUE)
    ensures |Rlp(h, Branch(children, value))| < RLP_LIMIT
  {
    var items := ChildItems(h, children);
    forall i | 0 <= i < 16 ensures |Encode(items[i])| <= 33 { ChildItemLength(h, children[i]); }
    EncodeAllLength(items, 33);
    EncodeAllSnoc(items, ValueItem(value));
    EncodeDataLength(ValueItem(value).d);
    HeaderLength(|EncodeAll(items + [ValueItem(value)])|, 0xc0);
  }

  ghost predicate SmallNode(t: Tree) {
    match t
    case Empty => true
    case Leaf(key, v) => |key| <= MAX_KEY && |v| <= MAX_VALUE
    case Extension(key, _) => |key| <= MAX_KEY
    case Branch(children, value) => |children| == 16 && (value.Some? ==> |value.value| <= MAX_VALUE)
  }

  /** Short keys and values keep a node below the encoder's 32-bit lengths. */
  lemma SmallNodeRlp(h: HashFn, t: Tree)
    requires SmallNode(t)
    ensures |Rlp(h, t)| < RLP_LIMIT
  {
    match t {
      case Empty =>
      case Leaf(key, v) =>
        EncodeDataLength(HexPrefix(key, true));
        EncodeDataLength(v);
        PairLength(Data(HexPrefix(key, true)), Data(v));
      case Extension(key, child) =>
        EncodeDataLength(HexPrefix(key, false));
        ChildItemLength(h, child);
        PairLength(Data(HexPrefix(key, false)), ChildItem(h, child));
      case Branch(children, value) => BranchLength(h, children, value);
    }
  }

  lemma SmallRlp(h: HashFn, t: Tree)
    requires Canonical(t) && SmallContents(t)
    ensures SmallNode(t) && |Rlp(h, t)| < RLP_LIMIT
  {
    match t {
      case Empty =>
      case Leaf(key, v) => assert Lookup(t, key) == Some(v);
      case Extension(key, child) => var k := SomeKey(t);
      case Branch(children, value) => assert Lookup(t, []) == value;
    }
    SmallNodeRlp(h, t);
  }

  lemma SmallChild(t: Tree)
    requires t.Extension? && SmallContents(t)
    ensures SmallContents(t.child)
  {
    forall q | Lookup(t.child, q).Some?
      ensures |q| <= MAX_KEY && |Lookup(t.child, q).value| <= MAX_VALUE
    {
      ExtensionLookup(t.key, t.child, q);
    }
  }

  lemma SmallBranchChild(t: Tree, i: nibble)
    requires t.Branch? && |t.children| == 16 && SmallContents(t)
    ensures SmallContents(t.children[i])
  {
    forall q | Lookup(t.children[i], q).Some?
      ensures |q| <= MAX_KEY && |Lookup(t.children[i], q).value| <= MAX_VALUE
    {
      BranchLookup(t, i, q);
    }
  }

  // ---- reading back ----

  lemma {:induction false} RawElementsEncoded(items: seq<Item>, n: nat)
    requires |Encode(List(items))| <= USIZE_MAX && n <= |items|
    ensures RawElements(Encode(List(items)), n) == Ok(Encodings(items[..n]))
  {
    if n > 0 {
      RawElementsEncoded(items, n - 1);
      AtEncoded(items, n - 1);
      TakeSnoc(items, n - 1);
      EncodingsSnoc(items[..n - 1], items[n - 1]);
    }
  }

  lemma EncodingsSnoc(items: seq<Item>, last: Item)
    ensures Encodings(items + [last]) == Encodings(items) + [Encode(last)]
  {
  }

  lemma DecodePair(h: HashFn, key: nibbles, leaf: bool, second: Item)
    requires |Encode(List([Data(HexPrefix(key, leaf)), second]))| <= USIZE_MAX
    ensures var b := Encode(List([Data(HexPrefix(key, leaf)), second]));
      DecodeNode(b) == Ok(if leaf then RlpLeaf(key, Content(second)) else RlpExtension(key, Encode(second)))
  {
    var items := [Data(HexPrefix(key, leaf)), second];
    var b := Encode(List(items));
    FrontOfEncoded(List(items), []);
    assert b + [] == b;
    AtEncoded(items, 0);
    AtEncoded(items, 1);
    EncodeElementLength(items, 0);
    EncodeElementLength(items, 1);
    PayloadOfEncoded(items[0]);
    PayloadOfEncoded(second);
    HexPrefixRoundTrip(key, leaf);
  }

  lemma EmptyValueItem(value: Option<bytes>)
    requires value.Some? ==> value.value != []
    requires |Encode(ValueItem(value))| <= USIZE_MAX
    ensures IsEmptyItem(Encode(ValueItem(value))) == value.None?
    ensures value.Some? ==> Payload(Encode(ValueItem(value))) == Ok(value.value)
  {
    PayloadOfEncoded(ValueItem(value));
    if value.Some? {
      FrontOfEncoded(ValueItem(value), []);
      assert Encode(ValueItem(value)) + [] == Encode(ValueItem(value));
    }
  }

  lemma DecodeBranch(h: HashFn, children: seq<Tree>, value: Option<bytes>)
    requires |children| == 16 && (value.Some? ==> value.value != [])
    requires |Rlp(h, Branch(children, value))| <= USIZE_MAX
    ensures DecodeNode(Rlp(h, Branch(children, value))) == Ok(NodeView(h, Branch(children, value)))
  {
    var items := ChildItems(h, children) + [ValueItem(value)];
    assert items[..16] == ChildItems(h, children);
    SeventeenDecoded(items, value);
  }

  lemma SeventeenDecoded(items: seq<Item>, value: Option<bytes>)
    requires |items| == 17 && items[16] == ValueItem(value) && (value.Some? ==> value.value != [])
    requires |Encode(List(items))| <= USIZE_MAX
    ensures DecodeNode(Encode(List(items))) == Ok(RlpBranch(Encodings(items[..16]), value))
  {
    FrontOfEncoded(List(items), []);
    assert Encode(List(items)) + [] == Encode(List(items));
    AtEncoded(items, 16);
    RawElementsEncoded(items, 16);
    EncodeElementLength(items, 16);
    EmptyValueItem(value);
  }

  /** The decoder finds exactly the node that was encoded. */
  lemma DecodeNodeOfRlp(h: HashFn, t: Tree)
    requires Canonical(t) && |Rlp(h, t)| <= USIZE_MAX
    ensures DecodeNode(Rlp(h, t)) == Ok(NodeView(h, t))
  {
    match t {
      case Empty => PayloadOfEncoded(Data([]));
      case Leaf(key, v) => DecodePair(h, key, true, Data(v));
      case Extension(key, child) => DecodePair(h, key, false, ChildItem(h, child));
      case Branch(children, value) => DecodeBranch(h, children, value);
    }
  }

  /** A node stands in its parent exactly when it is shorter than its hash. */
  lemma InlinedExactly(h: HashFn, t: Tree)
    requires |Rlp(h, t)| <= USIZE_MAX
    ensures Encode(ChildItem(h, t)) == Rlp(h, t) <==> |Rlp(h, t)| < |RootHash(h, t)|
    ensures Hashed(h, t) <==> |Rlp(h, t)| >= |RootHash(h, t)|
  {
    if Hashed(h, t) {
      var c, item := ChildItem(h, t), NodeItem(h, t);
      FrontOfEncoded(c, []);
      FrontOfEncoded(item, []);
      assert Encode(c) + [] == Encode(c) && Encode(item) + [] == Encode(item);
    }
  }

  /** What a reader finds at the positions of a node: the hex-prefixed key with the value or the child, or
      sixteen children and the value. */
  lemma NodeParts(h: HashFn, t: Tree)
    requires |Rlp(h, t)| <= USIZE_MAX
    ensures t == Empty ==> Rlp(h, t) == [0x80]
    ensures t.Leaf? ==>
      ItemCount(Rlp(h, t)) == Ok(2) && At(Rlp(h, t), 0) == Ok(EncodeData(HexPrefix(t.key, true))) &&
      At(Rlp(h, t), 1) == Ok(EncodeData(t.leafValue))
    ensures t.Extension? ==>
      ItemCount(Rlp(h, t)) == Ok(2) && At(Rlp(h, t), 0) == Ok(EncodeData(HexPrefix(t.key, false))) &&
      At(Rlp(h, t), 1) == Ok(Encode(ChildItem(h, t.child)))
    ensures t.Branch? ==> ItemCount(Rlp(h, t)) == Ok(|t.children| + 1)
    ensures t.Branch? ==>
      At(Rlp(h, t), |t.children|) == Ok(EncodeData(if t.value.Some? then t.value.value else []))
    ensures t.Branch? ==>
      forall i :: 0 <= i < |t.children| ==> At(Rlp(h, t), i) == Ok(Encode(ChildItem(h, t.children[i])))
  {
    if t != Empty {
      var items := NodeItem(h, t).items;
      forall i: nat ensures At(Rlp(h, t), i) == if i < |items| then Ok(Encode(items[i])) else Err(RlpIsTooShort) {
        AtEncoded(items, i);
      }
      AtEncoded(items, 0);
    }
  }

  /** How a reader tells the kinds of children apart. */
  lemma ChildKinds(h: HashFn, t: Tree)
    requires Canonical(t)
    ensures IsHashItem(Encode(ChildItem(h, t))) == Hashed(h, t)
    ensures Hashed(h, t) ==> Payload(Encode(ChildItem(h, t))) == Ok(h(Rlp(h, t)))
    ensures !Hashed(h, t) ==> Encode(ChildItem(h, t)) == Rlp(h, t)
    ensures IsEmptyItem(Encode(ChildItem(h, t))) == (t == Empty)
  {
    ChildItemLength(h, t);
    var c := ChildItem(h, t);
    PayloadOfEncoded(c);
    FrontOfEncoded(c, []);
    assert Encode(c) + [] == Encode(c);
  }
}
