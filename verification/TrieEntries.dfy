/** The entries of a trie from left to right: in order, complete, each once. */
module TrieEntries {
  import opened Bytes
  import opened Nibbles
  import opened Trie
  import opened TrieBuild
  import opened TrieRoot

  /** Every key under a prefix. */
  function Prefixed(p: nibbles, e: seq<Entry>): (r: seq<Entry>)
    ensures |r| == |e| && forall i :: 0 <= i < |e| ==> r[i] == (p + e[i].0, e[i].1)
  {
    seq(|e|, i requires 0 <= i < |e| => (p + e[i].0, e[i].1))
  }

  /** A node's own value first, then its children from left to right. */
  function Entries(t: Tree): seq<Entry>
    decreases t, 17
  {
    match t
    case Empty => []
    case Leaf(key, v) => [(key, v)]
    case Extension(key, child) => Prefixed(key, Entries(child))
    case Branch(children, value) => OwnEntry(value) + KidEntries(children, 0)
  }

  function OwnEntry(value: Option<bytes>): seq<Entry> {
    if value.Some? then [([], value.value)] else []
  }

  /** The entries below children i to 15. */
  function KidEntries(children: seq<Tree>, i: nat): seq<Entry>
    requires i <= 16
    decreases children, 16 - i
  {
    if i == 16 || i >= |children| then [] else Prefixed([i], Entries(children[i])) + KidEntries(children, i + 1)
  }

  lemma PrefixedAppend(p: nibbles, a: seq<Entry>, b: seq<Entry>)
    ensures Prefixed(p, a + b) == Prefixed(p, a) + Prefixed(p, b)
  {
  }

  lemma PrefixedTwice(p: nibbles, q: nibbles, e: seq<Entry>)
    ensures Prefixed(p, Prefixed(q, e)) == Prefixed(p + q, e)
  {
    forall i | 0 <= i < |e| ensures p + (q + e[i].0) == (p + q) + e[i].0 { }
  }

  lemma PrefixedNone(p: nibbles, e: seq<Entry>)
    ensures Prefixed(p, []) == [] && Prefixed([], e) == e
  {
    forall i | 0 <= i < |e| ensures [] + e[i].0 == e[i].0 { }
  }

  // ---- soundness ----

  lemma {:induction false} EntryAnswers(t: Tree, n: nat)
    requires WellFormed(t) && n < |Entries(t)|
    ensures Lookup(t, Entries(t)[n].0) == Some(Entries(t)[n].1)
    decreases t, 17
  {
    match t {
      case Extension(key, child) =>
        EntryAnswers(child, n);
        var q := Entries(child)[n].0;
        assert (key + q)[|key|..] == q;
      case Branch(children, value) =>
        var own := |OwnEntry(value)|;
        if n >= own { KidAnswers(t, 0, n - own); }
      case _ =>
    }
  }

  lemma {:induction false} KidAnswers(t: Tree, i: nat, n: nat)
    requires t.Branch? && WellFormed(t) && i <= 16 && n < |KidEntries(t.children, i)|
    ensures Lookup(t, KidEntries(t.children, i)[n].0) == Some(KidEntries(t.children, i)[n].1)
    ensures KidEntries(t.children, i)[n].0 != [] && KidEntries(t.children, i)[n].0[0] >= i
    decreases t.children, 16 - i
  {
    var here := Entries(t.children[i]);
    if n < |here| {
      EntryAnswers(t.children[i], n);
      assert ([i] + here[n].0)[1..] == here[n].0;
    } else {
      KidAnswers(t, i + 1, n - |here|);
    }
  }

  // ---- completeness ----

  lemma {:induction false} AnswerListed(t: Tree, k: nibbles) returns (n: nat)
    requires WellFormed(t) && Lookup(t, k).Some?
    ensures n < |Entries(t)| && Entries(t)[n] == (k, Lookup(t, k).value)
    decreases t, 17
  {
    match t {
      case Leaf(_, _) => n := 0;
      case Extension(key, child) =>
        n := AnswerListed(child, k[|key|..]);
        assert key + k[|key|..] == k;
      case Branch(children, value) =>
        if k == [] {
          n := 0;
        } else {
          n := KidListed(t, 0, k);
          n := n + |OwnEntry(value)|;
        }
    }
  }

  lemma {:induction false} KidListed(t: Tree, i: nat, k: nibbles) returns (n: nat)
    requires t.Branch? && WellFormed(t) && k != [] && i <= k[0] && Lookup(t, k).Some?
    ensures n < |KidEntries(t.children, i)| && KidEntries(t.children, i)[n] == (k, Lookup(t, k).value)
    decreases t.children, 16 - i
  {
    if i == k[0] {
      n := AnswerListed(t.children[i], k[1..]);
      assert [k[0]] + k[1..] == k;
    } else {
      n := KidListed(t, i + 1, k);
      n := n + |Entries(t.children[i])|;
    }
  }

  // ---- order ----

  lemma {:induction false} LessPrefixed(p: nibbles, a: nibbles, b: nibbles)
    requires Less(a, b)
    ensures Less(p + a, p + b)
  {
    if p == [] {
      assert p + a == a && p + b == b;
    } else {
      LessPrefixed(p[1..], a, b);
      assert (p + a)[1..] == p[1..] + a && (p + b)[1..] == p[1..] + b;
    }
  }

  lemma {:induction false} EntriesOrdered(t: Tree, m: nat, n: nat)
    requires WellFormed(t) && m < n < |Entries(t)|
    ensures Less(Entries(t)[m].0, Entries(t)[n].0)
    decreases t, 17
  {
    match t {
      case Extension(key, child) =>
        EntriesOrdered(child, m, n);
        LessPrefixed(key, Entries(child)[m].0, Entries(child)[n].0);
      case Branch(children, value) =>
        var own := |OwnEntry(value)|;
        KidAnswers(t, 0, n - own);
        if m >= own { KidsOrdered(t, 0, m - own, n - own); }
      case _ =>
    }
  }

  lemma {:induction false} KidsOrdered(t: Tree, i: nat, m: nat, n: nat)
    requires t.Branch? && WellFormed(t) && i <= 16 && m < n < |KidEntries(t.children, i)|
    ensures Less(KidEntries(t.children, i)[m].0, KidEntries(t.children, i)[n].0)
    decreases t.children, 16 - i
  {
    var here := Entries(t.children[i]);
    if n < |here| {
      EntriesOrdered(t.children[i], m, n);
      LessPrefixed([i], here[m].0, here[n].0);
    } else if m < |here| {
      KidAnswers(t, i + 1, n - |here|);
    } else {
      KidsOrdered(t, i + 1, m - |here|, n - |here|);
    }
  }

  // ---- as byte strings ----

  /** Pairs of nibbles to bytes; an odd nibble at the end is dropped. */
  function KeyOf(k: nibbles): bytes {
    Pack(k[..2 * (|k| / 2)])
  }

  function ToPairs(e: seq<Entry>): (v: seq<Pair>)
    ensures |v| == |e| && forall i :: 0 <= i < |e| ==> v[i] == (KeyOf(e[i].0), e[i].1)
  {
    seq(|e|, i requires 0 <= i < |e| => (KeyOf(e[i].0), e[i].1))
  }

  lemma KeyOfNibbles(b: bytes)
    ensures KeyOf(AsNibbles(b)) == b
  {
    PackAsNibbles(b);
    TakeAll(AsNibbles(b));
  }

  lemma {:induction false} LessAsymmetric(a: nibbles, b: nibbles)
    requires Less(a, b)
    ensures !Less(b, a)
  {
    if a != [] && a[0] == b[0] { LessAsymmetric(a[1..], b[1..]); }
  }

  lemma LessIsLessBytes(a: bytes, b: bytes)
    requires Less(AsNibbles(a), AsNibbles(b))
    ensures LessBytes(a, b)
  {
    LessBytesTotal(a, b);
    if a == b { LessIrreflexive(AsNibbles(a)); }
    if LessBytes(b, a) {
      LessBytesIsLess(b, a);
      LessAsymmetric(AsNibbles(a), AsNibbles(b));
    }
  }

  /** The byte string behind an entry of a trie of byte strings. */
  lemma EntryKey(t: Tree, m: Contents, n: nat)
    requires WellFormed(t) && Represents(t, m) && n < |Entries(t)|
    ensures AsNibbles(ToPairs(Entries(t))[n].0) == Entries(t)[n].0
    ensures TrieRoot.Get(m, ToPairs(Entries(t))[n].0) == Some(Entries(t)[n].1)
  {
    EntryAnswers(t, n);
    var k: bytes :| AsNibbles(k) == Entries(t)[n].0;
    KeyOfNibbles(k);
  }

  /** From left to right a trie lists its map: every pair once, in byte order. */
  lemma EntriesListMap(t: Tree, m: Contents)
    requires WellFormed(t) && Represents(t, m)
    ensures Lists(ToPairs(Entries(t)), m)
  {
    var e := Entries(t);
    var v := ToPairs(e);
    forall i, j | 0 <= i < j < |v| ensures LessBytes(v[i].0, v[j].0) {
      EntriesOrdered(t, i, j);
      EntryKey(t, m, i);
      EntryKey(t, m, j);
      LessIsLessBytes(v[i].0, v[j].0);
    }
    forall i | 0 <= i < |v| ensures v[i].0 in m && m[v[i].0] == v[i].1 {
      EntryKey(t, m, i);
    }
    forall k | k in m ensures exists i :: 0 <= i < |v| && v[i].0 == k {
      assert Lookup(t, AsNibbles(k)) == TrieRoot.Get(m, k);
      var n := AnswerListed(t, AsNibbles(k));
      KeyOfNibbles(k);
      assert v[n].0 == k;
    }
  }
}
