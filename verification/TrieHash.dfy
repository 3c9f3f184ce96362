/** The root of a key-value list, encoded straight from the sorted list into a stream. */
module TrieHash {
  import opened Bytes
  import opened RlpSpec
  import opened RlpStreams
  import opened Nibbles
  import opened Trie
  import opened TrieNode
  import opened TrieBuild

  ghost predicate ShortEntries(e: seq<Entry>) {
    forall i :: 0 <= i < |e| ==> |e[i].0| <= MAX_KEY && |e[i].1| <= MAX_VALUE
  }

  method SharedPrefixLen(first: nibbles, second: nibbles) returns (n: nat)
    ensures n == CommonPrefix(first, second)
  {
    var len := if |first| < |second| then |first| else |second|;
    n := 0;
    while n < len && first[n] == second[n]
      invariant n <= len && first[..n] == second[..n]
    {
      TakeSnoc(first, n);
      TakeSnoc(second, n);
      n := n + 1;
    }
    CommonPrefixUnique(first, second, n);
  }

  method SharedPrefixOf(e: seq<Entry>) returns (shared: nat)
    requires e != []
    ensures shared == SharedPrefix(e, |e|)
  {
    shared := |e[0].0|;
    var i := 1;
    while i < |e|
      invariant 1 <= i <= |e| && shared == SharedPrefix(e, i)
    {
      var own := SharedPrefixLen(e[0].0, e[i].0);
      shared := if own < shared then own else shared;
      i := i + 1;
    }
  }

  method HexPrefixEncode(k: nibbles, leaf: bool) returns (res: bytes)
    ensures res == HexPrefix(k, leaf)
  {
    var odd := |k| % 2;
    var flag: nibble := if leaf then 2 else 0;
    res := [if odd == 1 then ToByte(flag + 1, k[0]) else ToByte(flag, 0)];
    ghost var first := res;
    ghost var pairs := 0;
    var offset := odd;
    assert |k| == odd + 2 * (|k| / 2);
    while offset < |k|
      invariant offset == odd + 2 * pairs && pairs <= |k| / 2
      invariant res == first + PackPairs(k[odd..], pairs)
    {
      PackPairsStep(k[odd..], pairs);
      res := res + [ToByte(k[offset], k[offset + 1])];
      offset := offset + 2;
      pairs := pairs + 1;
    }
    assert k[odd..][..2 * pairs] == k[odd..];
    if odd == 0 { assert k[0..] == k; }
  }

  /** How many entries from begin on have the next nibble i. */
  method GroupLength(e: seq<Entry>, preLen: nat, i: nat, begin: nat) returns (len: nat)
    requires Proper(e, preLen) && begin <= |e|
    requires begin < |e| ==> Head(e[begin].0, preLen) >= i
    ensures begin + len == Start(e, preLen, i + 1, begin)
  {
    len := 0;
    StartSplits(e, preLen, i, begin);
    while begin + len < |e| && Head(e[begin + len].0, preLen) == i
      invariant begin + len <= |e|
      invariant Start(e, preLen, i + 1, begin) == Start(e, preLen, i + 1, begin + len)
    {
      len := len + 1;
    }
  }

  lemma SmallBuild(h: HashFn, e: seq<Entry>, pre: nat)
    requires Proper(e, pre) && ShortEntries(e)
    ensures |Rlp(h, Build(e, pre))| < RLP_LIMIT
  {
    if |e| >= 2 { SharesMore(e, pre); }
    assert SmallNode(Build(e, pre));
    SmallNodeRlp(h, Build(e, pre));
  }

  lemma EmptyRlp(h: HashFn)
    ensures Rlp(h, Empty) == [0x80] && Encode(ChildItem(h, Empty)) == [0x80]
  {
  }

  /** A fresh stream that received one item holds just its bytes. */
  lemma FreshPut(b: bytes)
    ensures Stack([], []).Put(b).Note(1) == Stack(b, [])
  {
  }

  /** Encodes the trie of the entries, seen from behind preLen, as one item. */
  method Hash256Rlp(h: HashFn, e: seq<Entry>, preLen: nat, stream: RlpStream)
    requires Proper(e, preLen) && ShortEntries(e)
    requires stream.Valid() && stream.stack.Accepts(1)
    modifies stream
    ensures stream.Valid() && stream.stack == old(stream.stack).Received(Rlp(h, Build(e, preLen)))
    decreases |e|, if e == [] then 0 else |e[0].0| - preLen, 2
  {
    SmallBuild(h, e, preLen);
    if |e| == 0 {
      EmptyRlp(h);
      stream.AppendEmptyData();
      return;
    }
    var key, value := e[0].0, e[0].1;
    if |e| == 1 {
      var partial := HexPrefixEncode(key[preLen..], true);
      AppendPair(partial, value, stream);
      return;
    }
    var shared := SharedPrefixOf(e);
    SharesMore(e, preLen);
    if shared > preLen {
      EncodeExtension(h, e, preLen, shared, stream);
    } else {
      EncodeBranch(h, e, preLen, stream);
    }
  }

  /** A list of two byte strings. */
  method AppendPair(first: bytes, second: bytes, stream: RlpStream)
    requires stream.Valid() && stream.stack.Accepts(1)
    requires |first| < RLP_LIMIT && |second| < RLP_LIMIT
    requires |Encode(List([Data(first), Data(second)]))| < RLP_LIMIT
    modifies stream
    ensures stream.Valid()
    ensures stream.stack == old(stream.stack).Received(Encode(List([Data(first), Data(second)])))
  {
    ghost var items := [Data(first), Data(second)];
    ghost var before := stream.stack;
    ListedAll(before, items);
    BeginPair(first, stream, items);
    AppendListed(second, stream, before, items, 1);
  }

  /** Announces a list of two and appends its first byte string. */
  method BeginPair(first: bytes, stream: RlpStream, ghost items: seq<Item>)
    requires |items| == 2 && items[0] == Item.Data(first) && |first| < RLP_LIMIT
    requires stream.Valid() && stream.stack.Accepts(1)
    modifies stream
    ensures stream.Valid() && stream.stack == Listed(old(stream.stack), items, 1)
  {
    ghost var before := stream.stack;
    ListStarted(before, items);
    stream.BeginList(2);
    AppendListed(first, stream, before, items, 0);
  }

  /** Appends the next byte string of an announced list. */
  method AppendListed(value: bytes, stream: RlpStream, ghost before: Stack, ghost items: seq<Item>, ghost i: nat)
    requires before.Unfilled() && before.Accepts(1) && i < |items| && items[i] == Data(value) && |value| < RLP_LIMIT
    requires stream.Valid() && stream.stack == Listed(before, items, i)
    modifies stream
    ensures stream.Valid() && stream.stack == Listed(before, items, i + 1)
  {
    EncodeData32Exact(value);
    ListedNext(before, items, i, EncodeData32(value));
    stream.AppendBytes(value);
  }

  method EncodeExtension(h: HashFn, e: seq<Entry>, preLen: nat, shared: nat, stream: RlpStream)
    requires Proper(e, preLen) && Proper(e, shared) && ShortEntries(e)
    requires |e| >= 2 && shared == SharedPrefix(e, |e|) > preLen
    requires stream.Valid() && stream.stack.Accepts(1)
    modifies stream
    ensures stream.Valid() && stream.stack == old(stream.stack).Received(Rlp(h, Build(e, preLen)))
    decreases |e|, |e[0].0| - preLen, 1
  {
    ghost var items := ExtensionItems(h, e, preLen, shared);
    EncodeReference(h, e[0].0[preLen..shared], e, shared, stream, items);
  }

  /** A key part and the reference to what lies behind it, as a list of two. */
  method EncodeReference(h: HashFn, key: nibbles, e: seq<Entry>, shared: nat, stream: RlpStream, ghost items: seq<Item>)
    requires Proper(e, shared) && ShortEntries(e)
    requires |items| == 2 && items[0] == Item.Data(HexPrefix(key, false)) && |HexPrefix(key, false)| < RLP_LIMIT
    requires items[1] == ChildItem(h, Build(e, shared)) && |Encode(List(items))| < RLP_LIMIT
    requires stream.Valid() && stream.stack.Accepts(1)
    modifies stream
    ensures stream.Valid() && stream.stack == old(stream.stack).Received(Encode(List(items)))
    decreases |e|, if e == [] then 0 else |e[0].0| - shared, 5
  {
    ghost var before := stream.stack;
    ListedAll(before, items);
    BeginReference(key, stream, items);
    AppendSubtree(h, e, shared, stream, before, items, 1);
  }

  /** A list of two with the key part in it. */
  method BeginReference(key: nibbles, stream: RlpStream, ghost items: seq<Item>)
    requires |items| == 2 && items[0] == Item.Data(HexPrefix(key, false)) && |HexPrefix(key, false)| < RLP_LIMIT
    requires stream.Valid() && stream.stack.Accepts(1)
    modifies stream
    ensures stream.Valid() && stream.stack == Listed(old(stream.stack), items, 1)
  {
    var partial := HexPrefixEncode(key, false);
    BeginPair(partial, stream, items);
  }

  /** The two items an extension of the entries is encoded as. */
  lemma ExtensionItems(h: HashFn, e: seq<Entry>, preLen: nat, shared: nat) returns (items: seq<Item>)
    requires Proper(e, preLen) && Proper(e, shared) && ShortEntries(e)
    requires |e| >= 2 && shared == SharedPrefix(e, |e|) > preLen
    ensures |items| == 2 && items[0] == Item.Data(HexPrefix(e[0].0[preLen..shared], false))
    ensures |HexPrefix(e[0].0[preLen..shared], false)| < RLP_LIMIT
    ensures items[1] == ChildItem(h, Build(e, shared))
    ensures Rlp(h, Build(e, preLen)) == Encode(List(items)) && |Encode(List(items))| < RLP_LIMIT
  {
    items := [Item.Data(HexPrefix(e[0].0[preLen..shared], false)), ChildItem(h, Build(e, shared))];
    SmallBuild(h, e, preLen);
  }

  /** The sixteen groups, then the value of a key ending here. */
  method EncodeBranch(h: HashFn, e: seq<Entry>, preLen: nat, stream: RlpStream)
    requires Proper(e, preLen) && ShortEntries(e) && |e| >= 2 && SharedPrefix(e, |e|) == preLen
    requires stream.Valid() && stream.stack.Accepts(1)
    modifies stream
    ensures stream.Valid() && stream.stack == old(stream.stack).Received(Rlp(h, Build(e, preLen)))
    decreases |e|, 0, 1
  {
    ghost var items := BranchItems(h, e, preLen);
    assert Rlp(h, Build(e, preLen)) == Encode(List(items));
    SmallBuild(h, e, preLen);
    ghost var before := stream.stack;
    stream.BeginList(17);
    var begin := if preLen == |e[0].0| then 1 else 0;
    BeginIsStart(e, preLen);
    var i := 0;
    while i < 16
      invariant 0 <= i <= 16
      invariant begin == Start(e, preLen, i, 0)
      invariant stream.Valid() && stream.stack == Listed(before, items, i)
    {
      begin := EncodeGroup(h, e, preLen, i, begin, stream, before, items);
      i := i + 1;
    }
    EncodeOwnValue(h, e, preLen, stream, before, items);
    Header32Exact(|EncodeAll(items)|, 0xc0);
  }

  /** The references a branch of the entries is encoded with. */
  ghost function BranchItems(h: HashFn, e: seq<Entry>, pre: nat): (r: seq<Item>)
    requires Proper(e, pre) && |e| >= 2 && SharedPrefix(e, |e|) == pre
    ensures |r| == 17
  {
    ChildItems(h, BuildGroups(e, pre)) + [ValueItem(if |e[0].0| == pre then Some(e[0].1) else None)]
  }

  lemma BranchItemAt(h: HashFn, e: seq<Entry>, pre: nat, i: nibble)
    requires Proper(e, pre) && |e| >= 2 && SharedPrefix(e, |e|) == pre
    ensures Proper(Group(e, pre, i), pre + 1) && |Group(e, pre, i)| < |e|
    ensures BranchItems(h, e, pre)[i] == ChildItem(h, Build(Group(e, pre, i), pre + 1))
  {
    GroupReady(e, pre, i);
    BuildGroupsAt(e, pre, i);
  }

  lemma LastBranchItem(h: HashFn, e: seq<Entry>, pre: nat)
    requires Proper(e, pre) && ShortEntries(e) && |e| >= 2 && SharedPrefix(e, |e|) == pre
    ensures Encode(BranchItems(h, e, pre)[16]) == if pre == |e[0].0| then EncodeData32(e[0].1) else [0x80]
  {
    Header32Exact(|e[0].1|, 0x80);
  }

  lemma ShortGroup(e: seq<Entry>, pre: nat, i: nibble)
    requires Proper(e, pre) && ShortEntries(e)
    ensures ShortEntries(Group(e, pre, i))
  {
    var lo := Start(e, pre, i, 0);
    var g := Group(e, pre, i);
    forall j | 0 <= j < |g| ensures |g[j].0| <= MAX_KEY && |g[j].1| <= MAX_VALUE { assert g[j] == e[lo + j]; }
  }

  /** One round over the nibbles: the group's reference, and where the next group begins. */
  method EncodeGroup(h: HashFn, e: seq<Entry>, preLen: nat, i: nibble, begin: nat, stream: RlpStream,
                     ghost before: Stack, ghost items: seq<Item>) returns (next: nat)
    requires Proper(e, preLen) && ShortEntries(e) && |e| >= 2 && SharedPrefix(e, |e|) == preLen
    requires begin == Start(e, preLen, i, 0)
    requires before.Unfilled() && before.Accepts(1) && items == BranchItems(h, e, preLen)
    requires stream.Valid() && stream.stack == Listed(before, items, i)
    modifies stream
    ensures next == Start(e, preLen, i + 1, 0)
    ensures stream.Valid() && stream.stack == Listed(before, items, i + 1)
    decreases |e|, 0, 0
  {
    var len := GroupLength(e, preLen, i, begin);
    next := begin + len;
    GroupCut(e, preLen, i, begin, next);
    BranchItemAt(h, e, preLen, i);
    ShortGroup(e, preLen, i);
    AppendGroup(h, e[begin..next], preLen + 1, stream, before, items, i);
  }

  /** The group lies between two starts. */
  lemma GroupCut(e: seq<Entry>, pre: nat, i: nibble, begin: nat, next: nat)
    requires Proper(e, pre) && begin == Start(e, pre, i, 0) && next == Start(e, pre, i + 1, begin)
    ensures next == Start(e, pre, i + 1, 0) && e[begin..next] == Group(e, pre, i)
  {
    NextStart(e, pre, i);
  }

  /** A group's reference, or empty data where there is no group. */
  method AppendGroup(h: HashFn, g: seq<Entry>, preLen: nat, stream: RlpStream, ghost before: Stack,
                     ghost items: seq<Item>, ghost i: nat)
    requires Proper(g, preLen) && ShortEntries(g) && i < |items| && items[i] == ChildItem(h, Build(g, preLen))
    requires before.Unfilled() && before.Accepts(1) && stream.Valid() && stream.stack == Listed(before, items, i)
    modifies stream
    ensures stream.Valid() && stream.stack == Listed(before, items, i + 1)
    decreases |g|, if g == [] then 0 else |g[0].0| - preLen, 5
  {
    if |g| == 0 {
      EmptyRlp(h);
      ListedNext(before, items, i, [0x80]);
      stream.AppendEmptyData();
    } else {
      AppendSubtree(h, g, preLen, stream, before, items, i);
    }
  }

  /** The reference to a subtree as the next item of an announced list. */
  method AppendSubtree(h: HashFn, e: seq<Entry>, preLen: nat, stream: RlpStream, ghost before: Stack,
                       ghost items: seq<Item>, ghost i: nat)
    requires Proper(e, preLen) && ShortEntries(e) && i < |items| && items[i] == ChildItem(h, Build(e, preLen))
    requires before.Unfilled() && before.Accepts(1) && stream.Valid() && stream.stack == Listed(before, items, i)
    modifies stream
    ensures stream.Valid() && stream.stack == Listed(before, items, i + 1)
    decreases |e|, if e == [] then 0 else |e[0].0| - preLen, 4
  {
    ListedNext(before, items, i, Encode(items[i]));
    Hash256Aux(h, e, preLen, stream);
  }

  method EncodeOwnValue(h: HashFn, e: seq<Entry>, preLen: nat, stream: RlpStream, ghost before: Stack,
                        ghost items: seq<Item>)
    requires Proper(e, preLen) && ShortEntries(e) && |e| >= 2 && SharedPrefix(e, |e|) == preLen
    requires before.Unfilled() && before.Accepts(1) && items == BranchItems(h, e, preLen)
    requires stream.Valid() && stream.stack == Listed(before, items, 16)
    modifies stream
    ensures stream.Valid() && stream.stack == Listed(before, items, 17)
  {
    LastBranchItem(h, e, preLen);
    ListedNext(before, items, 16, Encode(items[16]));
    if preLen == |e[0].0| {
      stream.AppendBytes(e[0].1);
    } else {
      stream.AppendEmptyData();
    }
  }

  lemma BeginIsStart(e: seq<Entry>, pre: nat)
    requires Proper(e, pre) && |e| >= 2
    ensures Start(e, pre, 0, 0) == if pre == |e[0].0| then 1 else 0
  {
    HeadsOrdered(e, pre, 0, 1);
  }

  lemma NextStart(e: seq<Entry>, pre: nat, i: nibble)
    requires Proper(e, pre)
    ensures Start(e, pre, i + 1, Start(e, pre, i, 0)) == Start(e, pre, i + 1, 0)
  {
    StartFromEarlier(e, pre, i + 1, Start(e, pre, i, 0));
  }

  /** The subtree's own encoding when it is short, its hash otherwise. */
  method Hash256Aux(h: HashFn, e: seq<Entry>, preLen: nat, stream: RlpStream)
    requires Proper(e, preLen) && ShortEntries(e)
    requires stream.Valid() && stream.stack.Accepts(1)
    modifies stream
    ensures stream.Valid()
    ensures stream.stack == old(stream.stack).Received(Encode(ChildItem(h, Build(e, preLen))))
    decreases |e|, if e == [] then 0 else |e[0].0| - preLen, 3
  {
    var s := new RlpStream();
    Hash256Rlp(h, e, preLen, s);
    FreshPut(Rlp(h, Build(e, preLen)));
    var out := s.Out();
    if |out| <= 31 {
      stream.AppendRaw(out, 1);
    } else {
      Header32Exact(32, 0x80);
      stream.AppendBytes(h(out));
    }
  }

  method GenTrieRoot(h: HashFn, e: seq<Entry>) returns (root: H256)
    requires Proper(e, 0) && ShortEntries(e)
    ensures root == RootHash(h, Build(e, 0))
  {
    var stream := new RlpStream();
    Hash256Rlp(h, e, 0, stream);
    FreshPut(Rlp(h, Build(e, 0)));
    var out := stream.Out();
    root := h(out);
  }
}
