/** The compression function of BLAKE2b, sections 3.1 and 3.2 of RFC 7693, and the state a digest
    starts from. */
module Blake2bCompress {
  type u8 = bv8
  type u64 = bv64

  /** The chained state, eight words. */
  type Chain = s: seq<u64> | |s| == 8 witness [0, 0, 0, 0, 0, 0, 0, 0]

  type Block = b: seq<u8> | |b| == 128 witness seq(128, _ => 0)

  type Work = v: seq<u64> | |v| == 16 witness seq(16, _ => 0)

  const IV: Chain := [
    0x6a09e667f3bcc908, 0xbb67ae8584caa73b, 0x3c6ef372fe94f82b, 0xa54ff53a5f1d36f1,
    0x510e527fade682d1, 0x9b05688c2b3e6c1f, 0x1f83d9abfb41bd6b, 0x5be0cd19137e2179]

  const SIGMA: seq<seq<nat>> := [
    [0, 1, 2, 3, 4, 5, 6, 7, 8, 9, 10, 11, 12, 13, 14, 15],
    [14, 10, 4, 8, 9, 15, 13, 6, 1, 12, 0, 2, 11, 7, 5, 3],
    [11, 8, 12, 0, 5, 2, 15, 13, 10, 14, 3, 6, 7, 1, 9, 4],
    [7, 9, 3, 1, 13, 12, 11, 14, 2, 6, 5, 10, 4, 0, 15, 8],
    [9, 0, 5, 7, 2, 4, 10, 15, 14, 1, 11, 12, 6, 8, 3, 13],
    [2, 12, 6, 10, 0, 11, 8, 3, 4, 13, 7, 5, 15, 14, 1, 9],
    [12, 5, 1, 15, 14, 13, 4, 10, 0, 7, 6, 3, 9, 2, 8, 11],
    [13, 11, 7, 14, 12, 1, 3, 9, 5, 0, 15, 4, 8, 6, 2, 10],
    [6, 15, 14, 9, 11, 3, 0, 8, 12, 2, 13, 7, 1, 4, 10, 5],
    [10, 2, 8, 4, 7, 6, 1, 5, 15, 11, 9, 14, 3, 12, 13, 0],
    [0, 1, 2, 3, 4, 5, 6, 7, 8, 9, 10, 11, 12, 13, 14, 15],
    [14, 10, 4, 8, 9, 15, 13, 6, 1, 12, 0, 2, 11, 7, 5, 3]]

  /** The message word the schedule picks, by its index below sixteen. */
  function Pick(m: Work, round: nat, i: nat): u64 {
    if round < |SIGMA| && i < |SIGMA[round]| && SIGMA[round][i] < 16 then m[SIGMA[round][i]] else 0
  }

  /** Eight little-endian bytes. */
  function Load(b: seq<u8>): u64
    requires |b| >= 8
  {
    (b[0] as u64) | ((b[1] as u64) << 8) | ((b[2] as u64) << 16) | ((b[3] as u64) << 24) |
    ((b[4] as u64) << 32) | ((b[5] as u64) << 40) | ((b[6] as u64) << 48) | ((b[7] as u64) << 56)
  }

  function Words(block: Block): (m: Work)
  {
    seq(16, i requires 0 <= i < 16 => Load(block[8 * i..]))
  }

  /** The mixing function of section 3.1. */
  function Mix(v: Work, a: nat, b: nat, c: nat, d: nat, x: u64, y: u64): Work
    requires a < 16 && b < 16 && c < 16 && d < 16
  {
    var v := v[a := v[a] + v[b] + x];
    var v := v[d := (v[d] ^ v[a]).RotateRight(32)];
    var v := v[c := v[c] + v[d]];
    var v := v[b := (v[b] ^ v[c]).RotateRight(24)];
    var v := v[a := v[a] + v[b] + y];
    var v := v[d := (v[d] ^ v[a]).RotateRight(16)];
    var v := v[c := v[c] + v[d]];
    v[b := (v[b] ^ v[c]).RotateRight(63)]
  }

  /** One round: four columns, four diagonals. */
  function Round(v: Work, m: Work, r: nat): Work {
    var v := Mix(v, 0, 4, 8, 12, Pick(m, r, 0), Pick(m, r, 1));
    var v := Mix(v, 1, 5, 9, 13, Pick(m, r, 2), Pick(m, r, 3));
    var v := Mix(v, 2, 6, 10, 14, Pick(m, r, 4), Pick(m, r, 5));
    var v := Mix(v, 3, 7, 11, 15, Pick(m, r, 6), Pick(m, r, 7));
    var v := Mix(v, 0, 5, 10, 15, Pick(m, r, 8), Pick(m, r, 9));
    var v := Mix(v, 1, 6, 11, 12, Pick(m, r, 10), Pick(m, r, 11));
    var v := Mix(v, 2, 7, 8, 13, Pick(m, r, 12), Pick(m, r, 13));
    Mix(v, 3, 4, 9, 14, Pick(m, r, 14), Pick(m, r, 15))
  }

  function Rounds(v: Work, m: Work, n: nat): Work {
    if n == 0 then v else Round(Rounds(v, m, n - 1), m, n - 1)
  }

  /** The working vector: the state, then the constants with counter and flags. */
  function Start(h: Chain, t0: u64, t1: u64, f0: u64, f1: u64): Work {
    h + [IV[0], IV[1], IV[2], IV[3], t0 ^ IV[4], t1 ^ IV[5], f0 ^ IV[6], f1 ^ IV[7]]
  }

  /** Both halves of the working vector folded into the state. */
  function Fold(h: Chain, v: Work): Chain {
    seq(8, i requires 0 <= i < 8 => h[i] ^ v[i] ^ v[i + 8])
  }

  function Compress(h: Chain, block: Block, t0: u64, t1: u64, f0: u64, f1: u64): Chain {
    Fold(h, Rounds(Start(h, t0, t1, f0, f1), Words(block), 12))
  }

  // ---- parameters and output ----

  const PARAM_BYTES := 64

  /** The parameter block: digest length, key length, fanout 1 and depth 1, the rest zero. */
  function EncodeParams(size: u8, keyLen: u8): (param: seq<u8>)
    ensures |param| == PARAM_BYTES
  {
    [size, keyLen, 1, 1] + seq(PARAM_BYTES - 4, _ => 0)
  }

  /** The constants with the words of a parameter block mixed in. */
  function Mixed(param: seq<u8>): Chain
    requires |param| == PARAM_BYTES
  {
    seq(8, i requires 0 <= i < 8 => IV[i] ^ Load(param[8 * i..]))
  }

  /** The state a digest of the given length starts from, section 3.3 of RFC 7693. */
  function InitialState(size: u8, keyLen: u8): Chain {
    IV[0 := IV[0] ^ (0x0101_0000 ^ ((keyLen as u64) << 8) ^ (size as u64))]
  }

  /** Mixes in the parameter block word by word. */
  method MixParams(param: seq<u8>) returns (state: Chain)
    requires |param| == PARAM_BYTES
    ensures state == Mixed(param)
  {
    state := IV;
    var i := 0;
    while i < |state|
      invariant 0 <= i <= 8
      invariant forall k :: 0 <= k < 8 ==> state[k] == if k < i then Mixed(param)[k] else IV[k]
    {
      state := state[i := state[i] ^ Load(param[8 * i..])];
      i := i + 1;
    }
  }

  /** The parameter block's words change the first constant alone, as the RFC writes it. */
  lemma InitialStateOfRfc(size: u8, keyLen: u8)
    ensures Mixed(EncodeParams(size, keyLen)) == InitialState(size, keyLen)
  {
    var param := EncodeParams(size, keyLen);
    forall i | 0 <= i < 8 ensures Mixed(param)[i] == InitialState(size, keyLen)[i] {
      if i == 0 {
        ParamWord(size as u64, keyLen as u64);
        assert param[0..] == param;
      } else {
        ZeroWord(IV[i], param[8 * i..]);
      }
    }
  }

  lemma ZeroWord(w: u64, b: seq<u8>)
    requires |b| >= 8 && forall k :: 0 <= k < 8 ==> b[k] == 0
    ensures w ^ Load(b) == w
  {
    assert Load(b) == 0;
  }

  lemma ParamWord(size: u64, keyLen: u64)
    requires size <= 0xff && keyLen <= 0xff
    ensures (size | (keyLen << 8) | ((1 as u64) << 16) | ((1 as u64) << 24) | ((0 as u64) << 32) | ((0 as u64) << 40) |
             ((0 as u64) << 48) | ((0 as u64) << 56)) == (0x0101_0000 ^ (keyLen << 8) ^ size)
  {
  }

  /** The n low bytes of a word, lowest first. */
  function Store(w: u64, n: nat): (b: seq<u8>)
    ensures |b| == n
  {
    if n == 0 then [] else [(w & 0xff) as u8] + Store(w >> 8, n - 1)
  }

  /** A word without its n low bytes. */
  function Down(w: u64, n: nat): u64 {
    if n == 0 then w else Down(w >> 8, n - 1)
  }

  lemma {:induction false} StoreByte(w: u64, n: nat, i: nat)
    requires i < n
    ensures Store(w, n)[i] == (Down(w, i) & 0xff) as u8
  {
    if i > 0 { StoreByte(w >> 8, n - 1, i - 1); }
  }

  /** Byte i of the output is byte i % 8 of word i / 8, counted from the low end. */
  lemma OutputByte(h: Chain, n: nat, i: nat)
    requires i < 8 * n <= 64
    ensures StoreAll(h, n)[i] == (Down(h[i / 8], i % 8) & 0xff) as u8
  {
    WordByte(h, n, i / 8, i % 8);
  }

  lemma {:induction false} WordByte(h: Chain, n: nat, word: nat, k: nat)
    requires word < n <= 8 && k < 8
    ensures StoreAll(h, n)[8 * word + k] == (Down(h[word], k) & 0xff) as u8
  {
    var front, last := StoreAll(h, n - 1), Store(h[n - 1], 8);
    if word < n - 1 {
      WordByte(h, n - 1, word, k);
      assert (front + last)[8 * word + k] == front[8 * word + k];
    } else {
      StoreByte(h[word], 8, k);
      assert (front + last)[|front| + k] == last[k];
    }
  }

  /** Byte i of a message word is byte i of what it was read from. */
  lemma LoadByte(b: seq<u8>, i: nat)
    requires i < 8 <= |b|
    ensures (Down(Load(b), i) & 0xff) as u8 == b[i]
  {
    LoadedBytes(b);
    PickByte(Load(b), b, i);
  }

  /** The low bytes of a word and of what is left of it. */
  ghost predicate HasBytes(w: u64, b: seq<u8>)
    requires |b| >= 8
  {
    w & 0xff == b[0] as u64 && (w >> 8) & 0xff == b[1] as u64 && (w >> 8 >> 8) & 0xff == b[2] as u64 &&
    (w >> 8 >> 8 >> 8) & 0xff == b[3] as u64 && (w >> 8 >> 8 >> 8 >> 8) & 0xff == b[4] as u64 &&
    (w >> 8 >> 8 >> 8 >> 8 >> 8) & 0xff == b[5] as u64 && (w >> 8 >> 8 >> 8 >> 8 >> 8 >> 8) & 0xff == b[6] as u64 &&
    (w >> 8 >> 8 >> 8 >> 8 >> 8 >> 8 >> 8) & 0xff == b[7] as u64
  }

  lemma LoadedBytes(b: seq<u8>)
    requires |b| >= 8
    ensures HasBytes(Load(b), b)
  {
    JoinedBytes(b[0] as u64, b[1] as u64, b[2] as u64, b[3] as u64, b[4] as u64, b[5] as u64, b[6] as u64,
                b[7] as u64);
  }

  lemma PickByte(w: u64, b: seq<u8>, i: nat)
    requires i < 8 <= |b| && HasBytes(w, b)
    ensures (Down(w, i) & 0xff) as u8 == b[i]
  {
    DownSteps(w);
    match i {
      case 0 => LowByte(w, b[0]);
      case 1 => LowByte(w >> 8, b[1]);
      case 2 => LowByte(w >> 8 >> 8, b[2]);
      case 3 => LowByte(w >> 8 >> 8 >> 8, b[3]);
      case 4 => LowByte(w >> 8 >> 8 >> 8 >> 8, b[4]);
      case 5 => LowByte(w >> 8 >> 8 >> 8 >> 8 >> 8, b[5]);
      case 6 => LowByte(w >> 8 >> 8 >> 8 >> 8 >> 8 >> 8, b[6]);
      case _ => LowByte(w >> 8 >> 8 >> 8 >> 8 >> 8 >> 8 >> 8, b[7]);
    }
  }

  lemma LowByte(w: u64, b: u8)
    requires w & 0xff == b as u64
    ensures (w & 0xff) as u8 == b
  {
  }

  lemma {:induction false} DownNext(w: u64, n: nat)
    requires n > 0
    ensures Down(w, n) == Down(w, n - 1) >> 8
  {
    if n > 1 { DownNext(w >> 8, n - 1); }
  }

  /** Shifting down one byte at a time, written out. */
  lemma DownSteps(w: u64)
    ensures Down(w, 0) == w && Down(w, 1) == w >> 8 && Down(w, 2) == w >> 8 >> 8 && Down(w, 3) == w >> 8 >> 8 >> 8
    ensures Down(w, 4) == w >> 8 >> 8 >> 8 >> 8 && Down(w, 5) == w >> 8 >> 8 >> 8 >> 8 >> 8
    ensures Down(w, 6) == w >> 8 >> 8 >> 8 >> 8 >> 8 >> 8 && Down(w, 7) == w >> 8 >> 8 >> 8 >> 8 >> 8 >> 8 >> 8
  {
    DownNext(w, 2);
    DownNext(w, 3);
    DownNext(w, 4);
    DownNext(w, 5);
    DownNext(w, 6);
    DownNext(w, 7);
  }

  lemma JoinedBytes(a: u64, b: u64, c: u64, d: u64, e: u64, f: u64, g: u64, h: u64)
    requires a <= 0xff && b <= 0xff && c <= 0xff && d <= 0xff && e <= 0xff && f <= 0xff && g <= 0xff && h <= 0xff
    ensures var w := a | (b << 8) | (c << 16) | (d << 24) | (e << 32) | (f << 40) | (g << 48) | (h << 56);
      w & 0xff == a && (w >> 8) & 0xff == b && (w >> 8 >> 8) & 0xff == c && (w >> 8 >> 8 >> 8) & 0xff == d &&
      (w >> 8 >> 8 >> 8 >> 8) & 0xff == e && (w >> 8 >> 8 >> 8 >> 8 >> 8) & 0xff == f &&
      (w >> 8 >> 8 >> 8 >> 8 >> 8 >> 8) & 0xff == g && (w >> 8 >> 8 >> 8 >> 8 >> 8 >> 8 >> 8) & 0xff == h
  {
  }

  /** The bytes of the first n words. */
  function StoreAll(h: Chain, n: nat): (b: seq<u8>)
    requires n <= 8
    ensures |b| == 8 * n
  {
    if n == 0 then [] else StoreAll(h, n - 1) + Store(h[n - 1], 8)
  }
}
