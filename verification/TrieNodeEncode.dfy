/** Encoding a decoded node again: the references it holds are copied as they are. */
module TrieNodeEncode {
  import opened Bytes
  import opened RlpSpec
  import opened RlpStreams
  import opened Trie
  import opened TrieNode
  import opened TrieHash
  import opened TrieWrites

  /** The items of the list a node is. */
  ghost function NodeItems(h: HashFn, t: Tree): (items: seq<Item>)
    requires t.Leaf? || t.Extension? || t.Branch?
    ensures NodeItem(h, t) == List(items)
  {
    NodeItem(h, t).items
  }

  /** The node decoder's result for a stored node encodes to the very bytes it was decoded from. */
  method Encoded(node: RlpNode, ghost h: HashFn, ghost t: Tree) returns (out: bytes)
    requires node == NodeView(h, t) && SmallNode(t)
    ensures out == Rlp(h, t)
  {
    SmallNodeRlp(h, t);
    var stream := new RlpStream();
    match node {
      case RlpEmpty =>
        FreshPut([0x80]);
        stream.AppendEmptyData();
      case RlpLeaf(slice, value) =>
        FreshPut(Rlp(h, t));
        var partial := HexPrefixEncode(slice, true);
        AppendPair(partial, value, stream);
      case RlpExtension(slice, raw) =>
        var partial := HexPrefixEncode(slice, false);
        EncodeReference(partial, raw, stream, NodeItems(h, t));
      case RlpBranch(nodes, value) =>
        EncodeSeventeen(nodes, value, stream, NodeItems(h, t));
    }
    out := stream.Out();
  }

  /** Appends the next item of an announced list, encoded already. */
  method AppendRawListed(raw: bytes, stream: RlpStream, ghost items: seq<Item>, ghost i: nat)
    requires i < |items| && raw == Encode(items[i])
    requires stream.Valid() && stream.stack == Listed(FRESH_STREAM, items, i)
    modifies stream
    ensures stream.Valid() && stream.stack == Listed(FRESH_STREAM, items, i + 1)
  {
    ListedNext(FRESH_STREAM, items, i, raw);
    stream.AppendRaw(raw, 1);
  }

  method EncodeReference(partial: bytes, raw: bytes, stream: RlpStream, ghost items: seq<Item>)
    requires |items| == 2 && items[0] == Item.Data(partial) && raw == Encode(items[1]) && |partial| < RLP_LIMIT
    requires |Encode(List(items))| < RLP_LIMIT && stream.Valid() && stream.stack == FRESH_STREAM
    modifies stream
    ensures stream.Valid() && stream.stack == Stack(Encode(List(items)), [])
  {
    BeginPair(partial, stream, items);
    AppendRawListed(raw, stream, items, 1);
    ListDone(items);
  }

  method EncodeSeventeen(nodes: seq<bytes>, value: Option<bytes>, stream: RlpStream, ghost items: seq<Item>)
    requires |nodes| == 16 && |items| == 17 && items[16] == ValueItem(value) &&
      (value.Some? ==> |value.value| <= MAX_VALUE)
    requires forall i :: 0 <= i < 16 ==> nodes[i] == Encode(items[i])
    requires |Encode(List(items))| < RLP_LIMIT && stream.Valid() && stream.stack == FRESH_STREAM
    modifies stream
    ensures stream.Valid() && stream.stack == Stack(Encode(List(items)), [])
  {
    stream.BeginList(17);
    ListStarted(FRESH_STREAM, items);
    var i := 0;
    while i < 16
      invariant 0 <= i <= 16 && stream.Valid() && stream.stack == Listed(FRESH_STREAM, items, i)
    {
      AppendRawListed(nodes[i], stream, items, i);
      i := i + 1;
    }
    AppendValue(value, stream, items);
    ListDone(items);
  }
}
