/** Keys as sequences of half bytes, their hex-prefix form (section C of the Ethereum Yellow
    Paper), and the slices of the trie that read them out of byte strings. */
module Nibbles {
  import opened Bytes

  type nibble = x: int | 0 <= x < 16
  type nibbles = seq<nibble>

  function ToByte(high: nibble, low: nibble): (b: byte)
    ensures b / 16 == high && b % 16 == low
  {
    (high as int) * 16 + (low as int)
  }

  /** High half first. */
  function AsNibbles(b: bytes): (r: nibbles)
    ensures |r| == 2 * |b|
  {
    if b == [] then [] else [b[0] / 16, b[0] % 16] + AsNibbles(b[1..])
  }

  /** Two nibbles to a byte. */
  function Pack(k: nibbles): (r: bytes)
    requires |k| % 2 == 0
    ensures |r| == |k| / 2
  {
    if k == [] then [] else [ToByte(k[0], k[1])] + Pack(k[2..])
  }

  lemma {:induction false} PackAsNibbles(b: bytes)
    ensures Pack(AsNibbles(b)) == b
  {
    if b != [] {
      PackAsNibbles(b[1..]);
      assert AsNibbles(b)[2..] == AsNibbles(b[1..]);
    }
  }

  lemma {:induction false} AsNibblesPack(k: nibbles)
    requires |k| % 2 == 0
    ensures AsNibbles(Pack(k)) == k
  {
    if k != [] {
      AsNibblesPack(k[2..]);
      assert Pack(k)[1..] == Pack(k[2..]);
      assert k == [k[0], k[1]] + k[2..];
    }
  }

  lemma {:induction false} HalfByte(b: bytes, i: nat)
    requires i < 2 * |b|
    ensures AsNibbles(b)[i] == if i % 2 == 1 then b[i / 2] % 16 else b[i / 2] / 16
  {
    if i >= 2 { HalfByte(b[1..], i - 2); }
  }

  lemma {:induction false} PackSnoc(k: nibbles, x: nibble, y: nibble)
    requires |k| % 2 == 0
    ensures Pack(k + [x, y]) == Pack(k) + [ToByte(x, y)]
  {
    if k == [] {
      assert k + [x, y] == [x, y];
      assert [x, y][2..] == [];
    } else {
      PackSnoc(k[2..], x, y);
      assert (k + [x, y])[2..] == k[2..] + [x, y];
    }
  }

  lemma AsNibblesInjective(a: bytes, b: bytes)
    requires AsNibbles(a) == AsNibbles(b)
    ensures a == b
  {
    PackAsNibbles(a);
    PackAsNibbles(b);
  }

  // ---- hex prefix ----

  /** One flag nibble, two when the length is even: 2 marks a leaf and 1 an odd length. */
  function HexPrefix(k: nibbles, leaf: bool): (r: bytes)
    ensures |r| == |k| / 2 + 1
  {
    if |k| % 2 == 1 then [ToByte(if leaf then 3 else 1, k[0])] + Pack(k[1..])
    else [ToByte(if leaf then 2 else 0, 0)] + Pack(k)
  }

  /** The nibbles and the leaf mark of a hex-prefixed string. */
  function FromHexPrefix(data: bytes): (nibbles, bool)
    requires data != []
  {
    (AsNibbles(data)[if IsOdd(data[0]) then 1 else 2..], IsLeaf(data[0]))
  }

  /** Bits 4 and 5 of the first byte. */
  predicate IsOdd(b: byte) { b / 16 % 2 == 1 }

  predicate IsLeaf(b: byte) { b / 32 % 2 == 1 }

  lemma FlagByte(flag: nibble, x: nibble)
    requires flag < 4
    ensures IsOdd(ToByte(flag, x)) == (flag == 1 || flag == 3)
    ensures IsLeaf(ToByte(flag, x)) == (flag >= 2)
  {
  }

  lemma UnpackFirst(flag: nibble, x: nibble, rest: nibbles)
    requires |rest| % 2 == 0
    ensures AsNibbles([ToByte(flag, x)] + Pack(rest)) == [flag, x] + rest
  {
    var h := [ToByte(flag, x)] + Pack(rest);
    AsNibblesPack(rest);
    assert h[1..] == Pack(rest);
    assert h[0] / 16 == flag && h[0] % 16 == x;
  }

  /** Reading back a flag nibble, one further nibble and packed pairs. */
  lemma ReadPrefixed(flag: nibble, x: nibble, rest: nibbles)
    requires flag < 4 && |rest| % 2 == 0
    ensures FromHexPrefix([ToByte(flag, x)] + Pack(rest)) ==
      (if flag == 1 || flag == 3 then [x] + rest else rest, flag >= 2)
  {
    FlagByte(flag, x);
    UnpackFirst(flag, x, rest);
    DropFirst(flag, x, rest);
  }

  lemma DropFirst(a: nibble, b: nibble, k: nibbles)
    ensures ([a, b] + k)[1..] == [b] + k && ([a, b] + k)[2..] == k
  {
  }

  lemma HexPrefixRoundTrip(k: nibbles, leaf: bool)
    ensures FromHexPrefix(HexPrefix(k, leaf)) == (k, leaf)
  {
    if |k| % 2 == 1 {
      ReadPrefixed(if leaf then 3 else 1, k[0], k[1..]);
      assert [k[0]] + k[1..] == k;
    } else {
      ReadPrefixed(if leaf then 2 else 0, 0, k);
    }
  }

  /** Nibble by nibble: a flag, a zero where the length is even, and the key. */
  lemma HexPrefixNibbles(k: nibbles, leaf: bool)
    ensures AsNibbles(HexPrefix(k, leaf)) ==
      [(if leaf then 2 else 0) + (if |k| % 2 == 1 then 1 else 0)] + (if |k| % 2 == 1 then [] else [0]) + k
  {
    if |k| % 2 == 1 {
      UnpackFirst(if leaf then 3 else 1, k[0], k[1..]);
      assert [k[0]] + k[1..] == k;
    } else {
      UnpackFirst(if leaf then 2 else 0, 0, k);
    }
  }

  /** The longest common start, as a length. */
  function CommonPrefix(a: nibbles, b: nibbles): (n: nat)
    ensures n <= |a| && n <= |b| && a[..n] == b[..n]
    ensures n < |a| && n < |b| ==> a[n] != b[n]
    decreases |a|
  {
    if a == [] || b == [] || a[0] != b[0] then 0
    else
      var n := CommonPrefix(a[1..], b[1..]);
      assert a[..n + 1] == [a[0]] + a[1..][..n];
      assert b[..n + 1] == [b[0]] + b[1..][..n];
      1 + n
  }

  lemma CommonPrefixUnique(a: nibbles, b: nibbles, n: nat)
    requires n <= |a| && n <= |b| && a[..n] == b[..n]
    requires n == |a| || n == |b| || a[n] != b[n]
    ensures CommonPrefix(a, b) == n
  {
    var m := CommonPrefix(a, b);
  }

  lemma {:induction false} CommonPrefixAtLeast(a: nibbles, b: nibbles, n: nat)
    requires n <= |a| && n <= |b| && a[..n] == b[..n]
    ensures n <= CommonPrefix(a, b)
  {
    if n > 0 {
      assert a[0] == a[..n][0] == b[..n][0] == b[0];
      assert a[1..][..n - 1] == a[..n][1..] == b[..n][1..] == b[1..][..n - 1];
      CommonPrefixAtLeast(a[1..], b[1..], n - 1);
    }
  }

  // ---- slices ----

  /** A view of a byte string from a nibble offset on, optionally continued by a second view. */
  datatype NibbleSlice = NibbleSlice(data: bytes, offset: nat, dataEncodeSuffix: bytes, offsetEncodeSuffix: nat) {
    predicate Valid() {
      offset <= 2 * |data| && offsetEncodeSuffix <= 2 * |dataEncodeSuffix|
    }

    /** The first part's nibbles from the offset on. */
    function Own(): nibbles
      requires Valid()
    {
      AsNibbles(data)[offset..]
    }

    /** What the slice stands for. */
    function Nibs(): nibbles
      requires Valid()
    {
      Own() + AsNibbles(dataEncodeSuffix)[offsetEncodeSuffix..]
    }

    function Len(): (n: nat)
      requires Valid()
      ensures n == |Nibs()|
    {
      (|data| + |dataEncodeSuffix|) * 2 - offset - offsetEncodeSuffix
    }

    function Nib(i: nat): (n: nibble)
      requires Valid() && i < Len()
      ensures n == Nibs()[i]
    {
      var l := |data| * 2 - offset;
      if i < l then
        HalfByte(data, offset + i);
        if (offset + i) % 2 == 1 then data[(offset + i) / 2] % 16 else data[(offset + i) / 2] / 16
      else
        var j := i - l;
        HalfByte(dataEncodeSuffix, offsetEncodeSuffix + j);
        if (offsetEncodeSuffix + j) % 2 == 1 then dataEncodeSuffix[(offsetEncodeSuffix + j) / 2] % 16
        else dataEncodeSuffix[(offsetEncodeSuffix + j) / 2] / 16
    }

    /** The view further on in the first part. A second part is dropped, so the remaining nibbles are
        what the result stands for exactly when that part is empty. */
    function Mid(i: nat): (s: NibbleSlice)
      requires Valid() && i <= |Own()|
      ensures s.Valid() && s.Nibs() == Own()[i..]
      ensures s.Nibs() == Nibs()[i..] <==> Nibs() == Own()
    {
      MidOf(Own(), AsNibbles(dataEncodeSuffix)[offsetEncodeSuffix..], i);
      AppendNothing(Own()[i..]);
      NibbleSlice(data, offset + i, [], 0)
    }
  }

  /** Going on in a slice made of two parts loses the second: of the nibbles 1, 2, 3, 4 only 2 is left. */
  lemma MidDropsSuffix()
    ensures NibbleSlice([0x12], 0, [0x34], 0).Valid() && NibbleSlice([0x12], 0, [0x34], 0).Nibs() == [1, 2, 3, 4]
    ensures NibbleSlice([0x12], 0, [0x34], 0).Mid(1).Nibs() == [2]
  {
    var s := NibbleSlice([0x12], 0, [0x34], 0);
    assert s.Own() == [1, 2];
  }

  lemma MidOf<T>(a: seq<T>, b: seq<T>, i: nat)
    requires i <= |a|
    ensures (a + b)[i..] == a[i..] + b
    ensures a[i..] == (a + b)[i..] <==> a + b == a
  {
    if a[i..] == (a + b)[i..] { assert |b| == 0; }
    if a + b == a { assert |b| == 0; }
  }

  /** The slice behind a hex-prefixed string, and its leaf mark. */
  function FromEncoded(data: bytes): (r: (NibbleSlice, bool))
    requires data != []
    ensures r.0.Valid() && r.0.dataEncodeSuffix == [] && (r.0.Nibs(), r.1) == FromHexPrefix(data)
  {
    var offset := if IsOdd(data[0]) then 1 else 2;
    assert AsNibbles(data)[offset..] + [] == AsNibbles(data)[offset..];
    (NibbleSlice(data, offset, [], 0), IsLeaf(data[0]))
  }

  /** Both first parts in order: all of both exactly when neither has a second part. */
  function NewComposed(a: NibbleSlice, b: NibbleSlice): (s: NibbleSlice)
    requires a.Valid() && b.Valid()
    ensures s.Valid() && s.Nibs() == a.Own() + b.Own()
    ensures s.Nibs() == a.Nibs() + b.Nibs() <==> a.Nibs() == a.Own() && b.Nibs() == b.Own()
  {
    BothOf(a.Own(), AsNibbles(a.dataEncodeSuffix)[a.offsetEncodeSuffix..],
           b.Own(), AsNibbles(b.dataEncodeSuffix)[b.offsetEncodeSuffix..]);
    NibbleSlice(a.data, a.offset, b.data, b.offset)
  }

  lemma BothOf<T>(a: seq<T>, x: seq<T>, b: seq<T>, y: seq<T>)
    ensures a + b == (a + x) + (b + y) <==> a + x == a && b + y == b
  {
    if a + b == (a + x) + (b + y) {
      assert |a + b| == |(a + x) + (b + y)|;
      assert x == [] && y == [];
    }
    if a + x == a && b + y == b { assert |a + x| == |a|; }
  }

  method CommonPrefixOf(a: NibbleSlice, b: NibbleSlice) returns (i: nat)
    requires a.Valid() && b.Valid()
    ensures i == CommonPrefix(a.Nibs(), b.Nibs())
  {
    var s := if a.Len() < b.Len() then a.Len() else b.Len();
    i := 0;
    while i < s
      invariant 0 <= i <= s
      invariant a.Nibs()[..i] == b.Nibs()[..i]
    {
      if a.Nib(i) != b.Nib(i) {
        break;
      }
      TakeSnoc(a.Nibs(), i);
      TakeSnoc(b.Nibs(), i);
      i := i + 1;
    }
    CommonPrefixUnique(a.Nibs(), b.Nibs(), i);
  }

  /** Hex-prefixes the first n nibbles of a slice. */
  method EncodedLeftmost(slice: NibbleSlice, n: nat, isLeaf: bool) returns (r: bytes)
    requires slice.Valid()
    ensures r == HexPrefix(slice.Nibs()[..if slice.Len() < n then slice.Len() else n], isLeaf)
  {
    var l := if slice.Len() < n then slice.Len() else n;
    var first := FirstByte(slice, l, isLeaf);
    ghost var k := slice.Nibs();
    BehindOdd(k, l, isLeaf);
    r := PackFrom(slice, first, l % 2, l, k, l / 2);
  }

  /** The flag, with the first nibble when there is an odd number. */
  method FirstByte(slice: NibbleSlice, l: nat, isLeaf: bool) returns (first: byte)
    requires slice.Valid() && l <= slice.Len()
    ensures first == HeadByte(slice.Nibs()[..l], isLeaf)
  {
    var flag: nibble := if isLeaf then 2 else 0;
    first := if l % 2 == 1 then ToByte(flag + 1, slice.Nib(0)) else ToByte(flag, 0);
  }

  function HeadByte(k: nibbles, isLeaf: bool): byte {
    if |k| % 2 == 1 then ToByte(if isLeaf then 3 else 1, k[0]) else ToByte(if isLeaf then 2 else 0, 0)
  }

  lemma BehindOdd(k: nibbles, l: nat, isLeaf: bool)
    requires l <= |k|
    ensures HexPrefix(k[..l], isLeaf) == [HeadByte(k[..l], isLeaf)] + Pack(k[l % 2..l])
  {
    assert k[..l][l % 2..] == k[l % 2..l];
    if l % 2 == 0 { assert k[0..l] == k[..l]; }
  }

  /** The nibbles from i to l in pairs, behind a first byte. */
  method PackFrom(slice: NibbleSlice, first: byte, start: nat, l: nat, ghost k: nibbles, ghost n: nat)
    returns (r: bytes)
    requires slice.Valid() && k == slice.Nibs() && start + 2 * n == l <= |k|
    ensures r == [first] + Pack(k[start..l])
  {
    r := [first];
    var i := start;
    ghost var pairs, all := 0, k[start..l];
    while i < l
      invariant i == start + 2 * pairs && pairs <= n
      invariant r == [first] + PackPairs(all, pairs)
      decreases l - i
    {
      var b := PairAt(slice, i, k);
      PackPairsStep(all, pairs);
      r := r + [b];
      i := i + 2;
      pairs := pairs + 1;
    }
    TakeAll(all);
  }

  method PairAt(slice: NibbleSlice, i: nat, ghost k: nibbles) returns (b: byte)
    requires slice.Valid() && k == slice.Nibs() && i + 1 < |k|
    ensures b == ToByte(k[i], k[i + 1])
  {
    b := ToByte(slice.Nib(i), slice.Nib(i + 1));
  }

  ghost function PackPairs(k: nibbles, pairs: nat): bytes
    requires 2 * pairs <= |k|
  {
    Pack(k[..2 * pairs])
  }

  lemma PackPairsStep(k: nibbles, pairs: nat)
    requires 2 * pairs + 2 <= |k|
    ensures PackPairs(k, pairs + 1) == PackPairs(k, pairs) + [ToByte(k[2 * pairs], k[2 * pairs + 1])]
  {
    PackSnoc(k[..2 * pairs], k[2 * pairs], k[2 * pairs + 1]);
    assert k[..2 * pairs] + [k[2 * pairs], k[2 * pairs + 1]] == k[..2 * pairs + 2];
  }

  method Encoded(slice: NibbleSlice, isLeaf: bool) returns (r: bytes)
    requires slice.Valid()
    ensures r == HexPrefix(slice.Nibs(), isLeaf)
  {
    r := EncodedLeftmost(slice, slice.Len(), isLeaf);
    TakeAll(slice.Nibs());
  }
}
