/** The recursive length prefix encoding of an item tree, as section B of the
    Ethereum Yellow Paper defines it. */
module RlpSpec {
  import opened Bytes

  datatype Item = Data(d: bytes) | List(items: seq<Item>)

  /** The prefix of a payload of n bytes; offset is 0x80 for data and 0xc0 for lists. */
  function Header(n: nat, offset: byte): (h: bytes)
    requires offset == 0x80 || offset == 0xc0
    ensures |h| >= 1
  {
    if n <= 55 then [offset + n]
    else [(offset + 55 + |BigEndian(n)|) % 256] + BigEndian(n)
  }

  function EncodeData(d: bytes): (r: bytes)
    ensures |r| >= 1
  {
    if |d| == 1 && d[0] < 0x80 then d else Header(|d|, 0x80) + d
  }

  function Encode(i: Item): (r: bytes)
    ensures |r| >= 1
    decreases i
  {
    match i
    case Data(d) => EncodeData(d)
    case List(items) => Header(|EncodeAll(items)|, 0xc0) + EncodeAll(items)
  }

  function EncodeAll(items: seq<Item>): bytes
    decreases items
  {
    if items == [] then [] else Encode(items[0]) + EncodeAll(items[1..])
  }

  lemma EncodeNothing()
    ensures Encode(Data([])) == [0x80]
  {
  }

  lemma {:induction false} EncodeAllAppend(a: seq<Item>, b: seq<Item>)
    ensures EncodeAll(a + b) == EncodeAll(a) + EncodeAll(b)
  {
    if a == [] {
      assert a + b == b;
    } else {
      EncodeAllAppend(a[1..], b);
      TailOfAppend(a, b);
      AppendAssociative(Encode(a[0]), EncodeAll(a[1..]), EncodeAll(b));
    }
  }

  lemma EncodeAllSnoc(a: seq<Item>, i: Item)
    ensures EncodeAll(a + [i]) == EncodeAll(a) + Encode(i)
  {
    EncodeAllAppend(a, [i]);
    assert EncodeAll([i]) == Encode(i) + EncodeAll([i][1..]);
  }

  /** Every element's encoding sits inside the encoding of the list. */
  lemma {:induction false} EncodeElementLength(items: seq<Item>, k: nat)
    requires k < |items|
    ensures |Encode(items[k])| <= |EncodeAll(items)|
  {
    if k > 0 { EncodeElementLength(items[1..], k - 1); }
  }
}
