/** BLAKE2b fed piece by piece through a buffer of two blocks, and the one-shot hash it equals. */
module Blake2bs {
  import opened Bytes
  import opened Blake2bCompress

  const BLOCK_BYTES := 128
  const KEY_BYTES := 64
  const OUT_BYTES := 64
  const WORD_RANGE := 0x1_0000_0000_0000_0000

  /** State, block, the two counter words, and whether this is the last block. */
  type CompressFn = (Chain, Block, nat, nat, bool) -> Chain

  function Rfc(h: Chain, block: Block, t0: nat, t1: nat, last: bool): Chain {
    Compress(h, block, (t0 % WORD_RANGE) as u64, (t1 % WORD_RANGE) as u64, if last then 0xffff_ffff_ffff_ffff else 0, 0)
  }

  // ---- the one-shot hash, section 3.3 of RFC 7693 ----

  function Low(n: nat): nat { n % WORD_RANGE }

  function High(n: nat): nat { n / WORD_RANGE % WORD_RANGE }

  function Padded(b: seq<u8>): Block
    requires |b| <= BLOCK_BYTES
  {
    b + seq(BLOCK_BYTES - |b|, _ => 0)
  }

  /** The state after the first n whole blocks, none of them the last. */
  function Chained(f: CompressFn, start: Chain, m: seq<u8>, n: nat): Chain
    requires BLOCK_BYTES * n <= |m|
  {
    if n == 0 then start
    else f(Chained(f, start, m, n - 1), m[BLOCK_BYTES * (n - 1)..BLOCK_BYTES * n], Low(BLOCK_BYTES * n),
           High(BLOCK_BYTES * n), false)
  }

  /** At least one block, even of nothing. */
  function BlockCount(length: nat): nat {
    if length == 0 then 1 else (length + BLOCK_BYTES - 1) / BLOCK_BYTES
  }

  /** All blocks but the last, then the last one padded, counting the bytes without the padding. */
  function OneShot(f: CompressFn, start: Chain, m: seq<u8>): Chain {
    var dd := BlockCount(|m|);
    f(Chained(f, start, m, dd - 1), Padded(m[BLOCK_BYTES * (dd - 1)..]), Low(|m|), High(|m|), true)
  }

  /** The state as bytes, lowest first in each word. */
  function DigestBytes(h: Chain): (b: seq<u8>)
    ensures |b| == OUT_BYTES
  {
    StoreAll(h, |h|)
  }

  /** A key is a first block of its own. */
  function Keyed(key: seq<u8>, m: seq<u8>): seq<u8>
    requires |key| <= KEY_BYTES
  {
    if key == [] then m else Padded(key) + m
  }

  // ---- what a half-fed hash stands for ----

  /** The n blocks before the buffered bytes are compressed, and the counter counts them. */
  ghost predicate Fed(f: CompressFn, start: Chain, m: seq<u8>, h: Chain, t0: nat, t1: nat, buffered: seq<u8>, n: nat) {
    |m| == BLOCK_BYTES * n + |buffered| && m[BLOCK_BYTES * n..] == buffered && Counts(t0, t1, BLOCK_BYTES * n) &&
    h == Chained(f, start, m, n)
  }

  /** The two counter words stand for p. */
  ghost predicate Counts(t0: nat, t1: nat, p: nat) {
    t0 == Low(p) && t1 == High(p)
  }

  lemma {:induction false} ChainedPrefix(f: CompressFn, start: Chain, m: seq<u8>, x: seq<u8>, n: nat)
    requires BLOCK_BYTES * n <= |m|
    ensures Chained(f, start, m + x, n) == Chained(f, start, m, n)
  {
    if n > 0 {
      ChainedPrefix(f, start, m, x, n - 1);
      assert (m + x)[BLOCK_BYTES * (n - 1)..BLOCK_BYTES * n] == m[BLOCK_BYTES * (n - 1)..BLOCK_BYTES * n];
    }
  }

  /** More bytes in the buffer. */
  lemma FedMore(f: CompressFn, start: Chain, m: seq<u8>, h: Chain, t0: nat, t1: nat, buffered: seq<u8>, n: nat,
                x: seq<u8>)
    requires Fed(f, start, m, h, t0, t1, buffered, n)
    ensures Fed(f, start, m + x, h, t0, t1, buffered + x, n)
  {
    ChainedPrefix(f, start, m, x, n);
    assert (m + x)[BLOCK_BYTES * n..] == m[BLOCK_BYTES * n..] + x;
  }

  /** The two counter words, the second taking the carry of the first. */
  lemma CounterStep(p: nat, inc: nat)
    requires inc < WORD_RANGE
    ensures Low(p + inc) == (Low(p) + inc) % WORD_RANGE
    ensures High(p + inc) == (High(p) + if (Low(p) + inc) % WORD_RANGE < inc then 1 else 0) % WORD_RANGE
  {
    var q, r := p / WORD_RANGE, p % WORD_RANGE;
    assert p + inc == q * WORD_RANGE + (r + inc);
    if r + inc < WORD_RANGE {
      Divided(q, r + inc);
    } else {
      assert p + inc == (q + 1) * WORD_RANGE + (r + inc - WORD_RANGE);
      Divided(q + 1, r + inc - WORD_RANGE);
      Divided(1, r + inc - WORD_RANGE);
      NextModulo(q);
    }
    if r + inc < WORD_RANGE { Divided(0, r + inc); }
  }

  lemma Divided(q: nat, r: nat)
    requires r < WORD_RANGE
    ensures (q * WORD_RANGE + r) / WORD_RANGE == q && (q * WORD_RANGE + r) % WORD_RANGE == r
  {
  }

  lemma NextModulo(q: nat)
    ensures (q + 1) % WORD_RANGE == (q % WORD_RANGE + 1) % WORD_RANGE
  {
  }

  /** The first buffered block compressed. */
  lemma FedBlock(f: CompressFn, start: Chain, m: seq<u8>, h: Chain, t0: nat, t1: nat, buffered: seq<u8>, n: nat,
                 next: Chain, low: nat, high: nat)
    requires Fed(f, start, m, h, t0, t1, buffered, n) && |buffered| >= BLOCK_BYTES
    requires Counts(low, high, BLOCK_BYTES * (n + 1)) && next == f(h, buffered[..BLOCK_BYTES], low, high, false)
    ensures Fed(f, start, m, next, low, high, buffered[BLOCK_BYTES..], n + 1)
  {
    var p := BLOCK_BYTES * n;
    assert m[p..BLOCK_BYTES * (n + 1)] == m[p..][..BLOCK_BYTES];
    assert m[p + BLOCK_BYTES..] == m[p..][BLOCK_BYTES..];
  }

  /** With only the last block left in the buffer, compressing it finishes the hash. */
  lemma FedLast(f: CompressFn, start: Chain, m: seq<u8>, h: Chain, t0: nat, t1: nat, buffered: seq<u8>, n: nat)
    requires Fed(f, start, m, h, t0, t1, buffered, n) && |buffered| <= BLOCK_BYTES
    requires buffered == [] ==> m == []
    ensures f(h, Padded(buffered), Low(|m|), High(|m|), true) == OneShot(f, start, m)
  {
    if m != [] {
      assert |m| + BLOCK_BYTES - 1 == BLOCK_BYTES * (n + 1) + (|buffered| - 1);
      assert BlockCount(|m|) == n + 1;
    }
  }

  class Blake2b {
    const f: CompressFn
    var h: Chain
    var t0: nat
    var t1: nat
    var last: bool
    const buf: array<u8>
    var bufLen: nat
    ghost const start: Chain
    /** All bytes so far, a key's block first. */
    ghost var input: seq<u8>
    /** How many blocks of them are compressed. */
    ghost var blocks: nat

    ghost predicate Sound()
      reads this, buf
    {
      buf.Length == 2 * BLOCK_BYTES && bufLen <= buf.Length && !last &&
      Fed(f, start, input, h, t0, t1, buf[..bufLen], blocks)
    }

    /** Between calls: compression lags behind, so that the last block is always still buffered. */
    ghost predicate Valid()
      reads this, buf
    {
      Sound() && (blocks > 0 ==> bufLen > BLOCK_BYTES)
    }

    /** Without a key; the state depends on the digest's length. */
    constructor (f: CompressFn, size: nat)
      requires 0 < size <= OUT_BYTES
      ensures Valid() && input == [] && this.f == f && start == InitialState(size as u8, 0) && fresh(buf)
    {
      InitialStateOfRfc(size as u8, 0);
      var state := MixParams(EncodeParams(size as u8, 0));
      this.f, h, start := f, state, state;
      t0, t1, last, bufLen, input, blocks := 0, 0, false, 0, [], 0;
      buf := new u8[2 * BLOCK_BYTES](_ => 0);
    }

    /** Starts with the key, padded to a whole block. */
    constructor NewWithKey(f: CompressFn, size: nat, key: seq<u8>)
      requires 0 < size <= OUT_BYTES && 0 < |key| <= KEY_BYTES
      ensures Valid() && input == Keyed(key, []) && this.f == f && fresh(buf)
      ensures start == InitialState(size as u8, |key| as u8)
    {
      InitialStateOfRfc(size as u8, |key| as u8);
      var state := MixParams(EncodeParams(size as u8, |key| as u8));
      this.f, h, start := f, state, state;
      t0, t1, last, bufLen, input, blocks := 0, 0, false, 0, [], 0;
      buf := new u8[2 * BLOCK_BYTES](_ => 0);
      new;
      var block := PadKey(key);
      Update(block);
    }

    /** From a whole parameter block, whose first byte is the digest's length. */
    constructor WithParams(f: CompressFn, param: seq<u8>)
      requires |param| == PARAM_BYTES && 0 < param[0] && param[0] as nat <= OUT_BYTES
      ensures Valid() && input == [] && this.f == f && start == Mixed(param) && fresh(buf)
    {
      var state := MixParams(param);
      this.f, h, start := f, state, state;
      t0, t1, last, bufLen, input, blocks := 0, 0, false, 0, [], 0;
      buf := new u8[2 * BLOCK_BYTES](_ => 0);
    }

    /** Takes in any bytes; a block is compressed only when more than two are there. */
    method Update(m: seq<u8>)
      requires Valid()
      modifies this, buf
      ensures Valid() && input == old(input) + m
    {
      var rest := m;
      ghost var before := input;
      NothingTaken(before, m);
      while |rest| > 0
        invariant Sound() && Took(before, m, rest, input)
        invariant blocks > 0 ==> bufLen > BLOCK_BYTES || (bufLen == BLOCK_BYTES && rest != [])
        decreases |rest|, bufLen
      {
        var fill := 2 * BLOCK_BYTES - bufLen;
        if |rest| > fill {
          TookMore(before, m, rest, input, fill);
          FillUp(rest[..fill]);
          rest := rest[fill..];
        } else {
          TookAll(before, m, rest, input);
          Fill(rest);
          rest := [];
        }
      }
      AppendNothing(input);
    }

    /** Fills the buffer and makes room again. */
    method FillUp(x: seq<u8>)
      requires Sound() && bufLen + |x| == buf.Length
      modifies this`h, this`t0, this`t1, this`bufLen, this`input, this`blocks, buf
      ensures Sound() && bufLen == BLOCK_BYTES && input == old(input) + x
    {
      Fill(x);
      CompressFirst();
    }

    /** Copies bytes that fit behind the buffered ones. */
    method Fill(x: seq<u8>)
      requires Sound() && bufLen + |x| <= buf.Length
      modifies this`bufLen, this`input, buf
      ensures Sound() && bufLen == old(bufLen) + |x| && input == old(input) + x
    {
      FedMore(f, start, input, h, t0, t1, buf[..bufLen], blocks, x);
      Copy(x);
      bufLen := bufLen + |x|;
      input := input + x;
    }

    method Copy(x: seq<u8>)
      requires bufLen + |x| <= buf.Length
      modifies buf
      ensures buf[..bufLen + |x|] == old(buf[..bufLen]) + x
    {
      ghost var before := buf[..];
      var i := 0;
      while i < |x|
        invariant 0 <= i <= |x|
        invariant forall k :: 0 <= k < bufLen ==> buf[k] == before[k]
        invariant forall k :: 0 <= k < i ==> buf[bufLen + k] == x[k]
        modifies buf
      {
        buf[bufLen + i] := x[i];
        i := i + 1;
      }
      Filled(before, buf[..], bufLen, x);
    }

    method IncrementCounter(inc: nat)
      requires inc < WORD_RANGE
      modifies this`t0, this`t1
      ensures Counted(old(t0), old(t1), inc, t0, t1)
    {
      t0 := (t0 + inc) % WORD_RANGE;
      t1 := (t1 + if t0 < inc then 1 else 0) % WORD_RANGE;
    }

    /** Compresses the first buffered block and moves the second to its place. */
    method CompressFirst()
      requires Sound() && bufLen >= BLOCK_BYTES
      modifies this`h, this`t0, this`t1, this`bufLen, this`blocks, buf
      ensures Sound() && bufLen == old(bufLen) - BLOCK_BYTES
    {
      ghost var all, n, before, low, high := buf[..], bufLen, h, t0, t1;
      assert buf[..n] == all[..n] && buf[..BLOCK_BYTES] == all[..BLOCK_BYTES] &&
        buf[BLOCK_BYTES..] == all[BLOCK_BYTES..];
      IncrementCounter(BLOCK_BYTES);
      h := f(h, buf[..BLOCK_BYTES], t0, t1, last);
      Shift();
      ghost var after := buf[..];
      assert after[..BLOCK_BYTES] == buf[..BLOCK_BYTES];
      AfterBlock(f, start, input, before, low, high, all, n, blocks, h, t0, t1, after);
      blocks := blocks + 1;
      bufLen := bufLen - BLOCK_BYTES;
      assert after[..bufLen] == buf[..bufLen];
    }

    /** Moves the second block to the place of the first. */
    method Shift()
      requires buf.Length == 2 * BLOCK_BYTES
      modifies buf
      ensures buf[..BLOCK_BYTES] == old(buf[BLOCK_BYTES..])
    {
      var i := 0;
      while i < BLOCK_BYTES
        invariant 0 <= i <= BLOCK_BYTES
        invariant forall k :: 0 <= k < i ==> buf[k] == old(buf[k + BLOCK_BYTES])
        invariant forall k :: BLOCK_BYTES <= k < 2 * BLOCK_BYTES ==> buf[k] == old(buf[k])
      {
        buf[i] := buf[i + BLOCK_BYTES];
        i := i + 1;
      }
    }

    /** Finishes: the state is the one-shot hash of all bytes, and as many of its bytes as fit are written. */
    method Finalize(out: array<u8>)
      requires Valid() && out != buf
      modifies this, buf, out
      ensures h == OneShot(f, start, old(input))
      ensures forall i :: 0 <= i < out.Length && i < OUT_BYTES ==> out[i] == DigestBytes(h)[i]
      ensures forall i :: OUT_BYTES <= i < out.Length ==> out[i] == old(out[i])
    {
      if bufLen > BLOCK_BYTES {
        CompressFirst();
      }
      CompressLast();
      var bytes := DigestBytes(h);
      var i := 0;
      while i < out.Length && i < OUT_BYTES
        invariant 0 <= i <= out.Length && i <= OUT_BYTES
        invariant forall k :: 0 <= k < i ==> out[k] == bytes[k]
        invariant forall k :: i <= k < out.Length ==> out[k] == old(out[k])
        modifies out
      {
        out[i] := bytes[i];
        i := i + 1;
      }
    }

    /** Counts and pads the last block, and compresses it as the last. */
    method CompressLast()
      requires Sound() && bufLen <= BLOCK_BYTES && (bufLen == 0 ==> input == [])
      modifies this`h, this`t0, this`t1, this`last, buf
      ensures h == OneShot(f, start, input)
    {
      ghost var buffered, before, low, high := buf[..bufLen], h, t0, t1;
      IncrementCounter(bufLen);
      last := true;
      Clear();
      AfterLast(f, start, input, before, low, high, buffered, blocks, t0, t1);
      h := f(h, buf[..BLOCK_BYTES], t0, t1, last);
    }

    /** Zeros behind the buffered bytes. */
    method Clear()
      requires buf.Length == 2 * BLOCK_BYTES && bufLen <= BLOCK_BYTES
      modifies buf
      ensures buf[..BLOCK_BYTES] == Padded(old(buf[..bufLen]))
    {
      var i := bufLen;
      while i < buf.Length
        invariant bufLen <= i <= buf.Length
        invariant forall k :: 0 <= k < bufLen ==> buf[k] == old(buf[k])
        invariant forall k :: bufLen <= k < i ==> buf[k] == 0
      {
        buf[i] := 0;
        i := i + 1;
      }
    }
  }

  /** The two words after counting inc bytes more. */
  ghost predicate Counted(t0: nat, t1: nat, inc: nat, low: nat, high: nat) {
    low == (t0 + inc) % WORD_RANGE && high == (t1 + if low < inc then 1 else 0) % WORD_RANGE
  }

  lemma CountedOn(t0: nat, t1: nat, p: nat, inc: nat, low: nat, high: nat)
    requires inc < WORD_RANGE && Counts(t0, t1, p) && Counted(t0, t1, inc, low, high)
    ensures Counts(low, high, p + inc)
  {
    CounterStep(p, inc);
  }

  /** The buffer all, of which used bytes were in use, after its first block was compressed and its
      second moved. */
  lemma AfterBlock(f: CompressFn, start: Chain, m: seq<u8>, h: Chain, t0: nat, t1: nat, all: seq<u8>, used: nat, n: nat,
                   next: Chain, low: nat, high: nat, after: seq<u8>)
    requires |all| == |after| == 2 * BLOCK_BYTES && BLOCK_BYTES <= used <= |all| &&
      after[..BLOCK_BYTES] == all[BLOCK_BYTES..]
    requires Fed(f, start, m, h, t0, t1, all[..used], n) && Counted(t0, t1, BLOCK_BYTES, low, high)
    requires next == f(h, all[..BLOCK_BYTES], low, high, false)
    ensures Fed(f, start, m, next, low, high, after[..used - BLOCK_BYTES], n + 1)
  {
    FirstBlock(all, used);
    CountedOn(t0, t1, BLOCK_BYTES * n, BLOCK_BYTES, low, high);
    FedBlock(f, start, m, h, t0, t1, all[..used], n, next, low, high);
    Shifted(all, after, used);
  }

  lemma AfterLast(f: CompressFn, start: Chain, m: seq<u8>, h: Chain, t0: nat, t1: nat, buffered: seq<u8>, n: nat,
                  low: nat, high: nat)
    requires Fed(f, start, m, h, t0, t1, buffered, n) && |buffered| <= BLOCK_BYTES && (buffered == [] ==> m == [])
    requires Counted(t0, t1, |buffered|, low, high)
    ensures f(h, Padded(buffered), low, high, true) == OneShot(f, start, m)
  {
    CountedOn(t0, t1, BLOCK_BYTES * n, |buffered|, low, high);
    FedLast(f, start, m, h, t0, t1, buffered, n);
  }

  lemma Filled(before: seq<u8>, after: seq<u8>, n: nat, x: seq<u8>)
    requires |before| == |after| && n + |x| <= |after|
    requires (forall k :: 0 <= k < n ==> after[k] == before[k]) && (forall k :: 0 <= k < |x| ==> after[n + k] == x[k])
    ensures after[..n + |x|] == before[..n] + x
  {
    forall k | 0 <= k < n + |x| ensures after[..n + |x|][k] == (before[..n] + x)[k] {
      if k >= n { assert after[n + (k - n)] == x[k - n]; }
    }
  }

  lemma Shifted(before: seq<u8>, after: seq<u8>, n: nat)
    requires |before| == |after| == 2 * BLOCK_BYTES && BLOCK_BYTES <= n <= |before|
    requires after[..BLOCK_BYTES] == before[BLOCK_BYTES..]
    ensures after[..n - BLOCK_BYTES] == before[..n][BLOCK_BYTES..]
  {
    assert after[..BLOCK_BYTES][..n - BLOCK_BYTES] == after[..n - BLOCK_BYTES];
    FirstBlock(before, n);
  }

  /** The buffer's first block, and what remains of its used part. */
  lemma FirstBlock(buf: seq<u8>, n: nat)
    requires BLOCK_BYTES <= n <= |buf|
    ensures buf[..n][..BLOCK_BYTES] == buf[..BLOCK_BYTES]
    ensures buf[BLOCK_BYTES..][..n - BLOCK_BYTES] == buf[..n][BLOCK_BYTES..]
  {
  }

  /** Of m all but rest is taken in. */
  ghost predicate Took(before: seq<u8>, m: seq<u8>, rest: seq<u8>, now: seq<u8>) {
    now + rest == before + m
  }

  lemma NothingTaken(before: seq<u8>, m: seq<u8>)
    ensures Took(before, m, m, before)
  {
  }

  lemma TookMore(before: seq<u8>, m: seq<u8>, rest: seq<u8>, now: seq<u8>, n: nat)
    requires Took(before, m, rest, now) && n <= |rest|
    ensures Took(before, m, rest[n..], now + rest[..n])
  {
    assert now + rest[..n] + rest[n..] == now + rest;
  }

  lemma TookAll(before: seq<u8>, m: seq<u8>, rest: seq<u8>, now: seq<u8>)
    requires Took(before, m, rest, now)
    ensures Took(before, m, [], now + rest)
  {
    AppendNothing(now + rest);
  }

  /** The key in a block of zeros. */
  method PadKey(key: seq<u8>) returns (block: seq<u8>)
    requires |key| <= KEY_BYTES
    ensures block == Padded(key)
  {
    block := seq(BLOCK_BYTES, _ => 0);
    var i := 0;
    while i < |key|
      invariant 0 <= i <= |key| && |block| == BLOCK_BYTES
      invariant forall k :: 0 <= k < BLOCK_BYTES ==> block[k] == if k < i then key[k] else 0
    {
      block := block[i := key[i]];
      i := i + 1;
    }
  }

  // ---- every way of cutting the input ----

  function Joined(parts: seq<seq<u8>>): seq<u8> {
    if parts == [] then [] else Joined(parts[..|parts| - 1]) + parts[|parts| - 1]
  }

  /** BLAKE2b of RFC 7693: the digest of the given length of a message under a key, empty for none. */
  function Blake2bOf(f: CompressFn, size: nat, key: seq<u8>, m: seq<u8>): (digest: seq<u8>)
    requires 0 < size <= OUT_BYTES && |key| <= KEY_BYTES
    ensures |digest| == size
  {
    DigestBytes(OneShot(f, InitialState(size as u8, |key| as u8), Keyed(key, m)))[..size]
  }

  /** Feeding the parts one by one hashes what they make up together, with or without a key. */
  method HashParts(f: CompressFn, size: nat, key: seq<u8>, parts: seq<seq<u8>>) returns (out: array<u8>)
    requires 0 < size <= OUT_BYTES && |key| <= KEY_BYTES
    ensures fresh(out) && out[..] == Blake2bOf(f, size, key, Joined(parts))
  {
    out := new u8[size](_ => 0);
    var b := StartHash(f, size, key);
    FeedAll(b, parts);
    KeyedAppend(key, Joined(parts));
    b.Finalize(out);
  }

  method StartHash(f: CompressFn, size: nat, key: seq<u8>) returns (b: Blake2b)
    requires 0 < size <= OUT_BYTES && |key| <= KEY_BYTES
    ensures fresh(b) && fresh(b.buf) && b.Valid() && b.input == Keyed(key, []) && b.f == f
    ensures b.start == InitialState(size as u8, |key| as u8)
  {
    if key == [] {
      b := new Blake2b(f, size);
    } else {
      b := new Blake2b.NewWithKey(f, size, key);
    }
  }

  /** With the compression function of the RFC: its keyed hash, however the input is cut. */
  method KeyedHash(size: nat, key: seq<u8>, parts: seq<seq<u8>>) returns (out: array<u8>)
    requires 0 < size <= OUT_BYTES && |key| <= KEY_BYTES
    ensures fresh(out) && out[..] == Blake2bOf(Rfc, size, key, Joined(parts))
  {
    out := HashParts(Rfc, size, key, parts);
  }

  method FeedAll(b: Blake2b, parts: seq<seq<u8>>)
    requires b.Valid()
    modifies b, b.buf
    ensures b.Valid() && b.input == old(b.input) + Joined(parts)
  {
    var i := 0;
    AppendNothing(b.input);
    while i < |parts|
      invariant 0 <= i <= |parts| && b.Valid() && b.input == old(b.input) + Joined(parts[..i])
    {
      JoinedStep(old(b.input), parts, i);
      b.Update(parts[i]);
      i := i + 1;
    }
    assert parts[..|parts|] == parts;
  }

  lemma JoinedStep(front: seq<u8>, parts: seq<seq<u8>>, i: nat)
    requires i < |parts|
    ensures front + Joined(parts[..i]) + parts[i] == front + Joined(parts[..i + 1])
  {
    assert parts[..i + 1][..i] == parts[..i];
  }

  lemma KeyedAppend(key: seq<u8>, m: seq<u8>)
    requires |key| <= KEY_BYTES
    ensures Keyed(key, []) + m == Keyed(key, m)
  {
  }

  /** The 32-byte digest used throughout the repository, for any compression function. */
  method Hash256(f: CompressFn, input: seq<u8>) returns (out: array<u8>)
    ensures fresh(out) && out[..] == Blake2bOf(f, 32, [], input)
  {
    out := new u8[32](_ => 0);
    var b := new Blake2b(f, 32);
    b.Update(input);
    AppendNothing(input);
    b.Finalize(out);
  }

  /** That of RFC 7693, without a key. */
  method Blake2b256(input: seq<u8>) returns (out: array<u8>)
    ensures fresh(out) && out[..] == Blake2bOf(Rfc, 32, [], input)
  {
    out := Hash256(Rfc, input);
  }
}
