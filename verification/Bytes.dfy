/** Bytes, results and big-endian numbers: what every other module reads and writes. */
module Bytes {
  type byte = x: int | 0 <= x < 256
  type bytes = seq<byte>

  datatype Option<+T> = None | Some(value: T)

  lemma TakeSnoc<T>(s: seq<T>, n: nat)
    requires n < |s|
    ensures s[..n] + [s[n]] == s[..n + 1]
  {
  }

  lemma TakeAll<T>(s: seq<T>)
    ensures s[..|s|] == s
  {
  }

  lemma AppendNothing<T>(s: seq<T>)
    ensures s + [] == s && [] + s == s
  {
  }

  lemma PlusNothing<T>(m: multiset<T>)
    ensures m + multiset{} == m && multiset{} + m == m
  {
  }

  lemma AppendAssociative<T>(a: seq<T>, b: seq<T>, c: seq<T>)
    ensures a + (b + c) == a + b + c
  {
  }

  lemma TailOfAppend<T>(a: seq<T>, b: seq<T>)
    requires a != []
    ensures (a + b)[1..] == a[1..] + b && (a + b)[0] == a[0]
  {
  }

  lemma TailOfTake<T>(s: seq<T>, n: nat)
    requires 0 < n <= |s|
    ensures s[..n][1..] == s[1..][..n - 1] && s[..n][0] == s[0]
  {
  }

  /** The unique big-endian digits of n without a leading zero byte; zero has none. */
  function BigEndian(n: nat): (r: bytes)
    ensures r != [] ==> r[0] != 0
    ensures n > 0 ==> r != []
  {
    if n == 0 then [] else BigEndian(n / 256) + [n % 256]
  }

  function FromBigEndian(b: bytes): nat {
    if b == [] then 0 else FromBigEndian(b[..|b| - 1]) * 256 + b[|b| - 1]
  }

  function Pow256(k: nat): (p: nat)
    ensures p > 0
  {
    if k == 0 then 1 else 256 * Pow256(k - 1)
  }

  lemma {:induction false} FromBigEndianOfBigEndian(n: nat)
    ensures FromBigEndian(BigEndian(n)) == n
  {
    if n > 0 {
      FromBigEndianOfBigEndian(n / 256);
      assert BigEndian(n)[..|BigEndian(n)| - 1] == BigEndian(n / 256);
    }
  }

  /** Digits without a leading zero are the digits of their value. */
  lemma {:induction false} BigEndianOfFromBigEndian(b: bytes)
    requires b != [] ==> b[0] != 0
    ensures BigEndian(FromBigEndian(b)) == b
    ensures b != [] ==> FromBigEndian(b) > 0
  {
    if b != [] {
      var init := b[..|b| - 1];
      BigEndianOfFromBigEndian(init);
      assert b == init + [b[|b| - 1]];
      var n := FromBigEndian(b);
      assert n / 256 == FromBigEndian(init) && n % 256 == b[|b| - 1];
      if init == [] { assert b[|b| - 1] == b[0]; }
    }
  }

  /** n has at most k digits exactly when it is below 256^k. */
  lemma {:induction false} FromBigEndianBound(d: bytes)
    ensures FromBigEndian(d) < Pow256(|d|)
  {
    if d != [] { FromBigEndianBound(d[..|d| - 1]); }
  }

  lemma {:induction false} BigEndianLength(n: nat, k: nat)
    ensures |BigEndian(n)| <= k <==> n < Pow256(k)
  {
    if n == 0 {
    } else if k == 0 {
    } else {
      BigEndianLength(n / 256, k - 1);
    }
  }

  lemma {:induction false} BigEndianInjective(m: nat, n: nat)
    requires BigEndian(m) == BigEndian(n)
    ensures m == n
  {
    FromBigEndianOfBigEndian(m);
    FromBigEndianOfBigEndian(n);
  }

  /** n in exactly k big-endian bytes, high bytes lost when n is too large. */
  function Fixed(n: nat, k: nat): (r: bytes)
    ensures |r| == k
  {
    if k == 0 then [] else Fixed(n / 256, k - 1) + [n % 256]
  }

  /** How many of the k bytes of n are leading zeros: the leading zero bits divided by eight. */
  function LeadingEmptyBytes(n: nat, k: nat): (z: nat)
    ensures z <= k
  {
    if k == 0 || n >= Pow256(k - 1) then 0 else 1 + LeadingEmptyBytes(n, k - 1)
  }

  lemma {:induction false} FixedOfSmall(n: nat, k: nat)
    requires k > 0 && n < Pow256(k - 1)
    ensures Fixed(n, k) == [0] + Fixed(n, k - 1)
  {
    if k > 1 { FixedOfSmall(n / 256, k - 1); }
  }

  lemma {:induction false} FixedFull(n: nat, k: nat)
    requires n < Pow256(k) && (k == 0 || n >= Pow256(k - 1))
    ensures Fixed(n, k) == BigEndian(n)
  {
    if k > 1 { FixedFull(n / 256, k - 1); }
    if k == 1 { assert BigEndian(n / 256) == [] == Fixed(n / 256, 0); }
  }

  /** Dropping the leading empty bytes of a fixed-width number leaves its shortest digits. */
  lemma {:induction false} FixedTrimmed(n: nat, k: nat)
    requires n < Pow256(k)
    ensures Fixed(n, k)[LeadingEmptyBytes(n, k)..] == BigEndian(n)
  {
    if k == 0 || n >= Pow256(k - 1) {
      FixedFull(n, k);
    } else {
      FixedOfSmall(n, k);
      FixedTrimmed(n, k - 1);
    }
  }

  lemma Pow256Values()
    ensures Pow256(1) == 0x100 && Pow256(2) == 0x1_0000 && Pow256(4) == 0x1_0000_0000
    ensures Pow256(8) == 0x1_0000_0000_0000_0000
  {
    assert Pow256(3) == 0x100_0000;
    assert Pow256(5) == 0x100_0000_0000;
    assert Pow256(6) == 0x1_0000_0000_0000;
    assert Pow256(7) == 0x100_0000_0000_0000;
  }
}
