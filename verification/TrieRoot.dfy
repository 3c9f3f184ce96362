/** Whole runs of edits: the trie reached stands for the map reached, and its root is the root of
    that map's key-value list, whatever the order of the edits was. */
module TrieRoot {
  import opened Bytes
  import opened Nibbles
  import opened Trie
  import opened TrieMap
  import opened TrieShape
  import opened TrieNode
  import opened TrieBuild
  import opened TrieHash

  type Contents = map<bytes, bytes>

  function Get(m: Contents, k: bytes): Option<bytes> {
    if k in m then Some(m[k]) else None
  }

  /** t answers every key as m does, and nothing but whole bytes is a key. */
  ghost predicate Represents(t: Tree, m: Contents) {
    (forall k: bytes :: Lookup(t, AsNibbles(k)) == Get(m, k)) &&
    (forall q :: Lookup(t, q).Some? ==> exists k: bytes :: AsNibbles(k) == q)
  }

  ghost predicate NoEmptyValue(m: Contents) {
    forall k :: k in m ==> m[k] != []
  }

  // ---- edits ----

  datatype Edit = SetValue(key: bytes, value: bytes) | DropKey(key: bytes)

  /** Putting an empty value removes the key. */
  function EditMap(m: Contents, edit: Edit): Contents {
    if edit.SetValue? && edit.value != [] then m[edit.key := edit.value] else m - {edit.key}
  }

  function EditTree(t: Tree, edit: Edit): Tree
    requires WellFormed(t)
  {
    if edit.SetValue? && edit.value != [] then Insert(t, AsNibbles(edit.key), edit.value)
    else Remove(t, AsNibbles(edit.key))
  }

  lemma EditKeeps(t: Tree, m: Contents, edit: Edit)
    requires Canonical(t) && WellFormed(t) && Represents(t, m) && NoEmptyValue(m)
    ensures Canonical(EditTree(t, edit)) && WellFormed(EditTree(t, edit))
    ensures Represents(EditTree(t, edit), EditMap(m, edit)) && NoEmptyValue(EditMap(m, edit))
  {
    var q := AsNibbles(edit.key);
    if edit.SetValue? && edit.value != [] {
      InsertCanonical(t, q, edit.value);
      InsertRepresents(t, m, edit.key, edit.value);
    } else {
      RemoveCanonical(t, q);
      RemoveRepresents(t, m, edit.key);
    }
    CanonicalIsWellFormed(EditTree(t, edit));
  }

  lemma InsertRepresents(t: Tree, m: Contents, key: bytes, v: bytes)
    requires WellFormed(t) && Represents(t, m)
    ensures Represents(Insert(t, AsNibbles(key), v), m[key := v])
  {
    var q := AsNibbles(key);
    forall k: bytes
      ensures Lookup(Insert(t, q, v), AsNibbles(k)) == Get(m[key := v], k)
    {
      LookupInsert(t, q, v, AsNibbles(k));
      if AsNibbles(k) == q { AsNibblesInjective(k, key); }
    }
    forall p | Lookup(Insert(t, q, v), p).Some?
      ensures exists k: bytes :: AsNibbles(k) == p
    {
      LookupInsert(t, q, v, p);
    }
  }

  lemma RemoveRepresents(t: Tree, m: Contents, key: bytes)
    requires WellFormed(t) && Represents(t, m)
    ensures Represents(Remove(t, AsNibbles(key)), m - {key})
  {
    var q := AsNibbles(key);
    forall k: bytes
      ensures Lookup(Remove(t, q), AsNibbles(k)) == Get(m - {key}, k)
    {
      LookupRemove(t, q, AsNibbles(k));
      if AsNibbles(k) == q { AsNibblesInjective(k, key); }
    }
    forall p | Lookup(Remove(t, q), p).Some?
      ensures exists k: bytes :: AsNibbles(k) == p
    {
      LookupRemove(t, q, p);
    }
  }

  function RunMap(edits: seq<Edit>): Contents {
    if edits == [] then map[] else EditMap(RunMap(edits[..|edits| - 1]), edits[|edits| - 1])
  }

  /** The trie after a run of edits from the empty trie. */
  function RunTree(edits: seq<Edit>): (t: Tree)
    ensures WellFormed(t) && Canonical(t) && Represents(t, RunMap(edits)) && NoEmptyValue(RunMap(edits))
  {
    if edits == [] then Empty
    else
      EditKeeps(RunTree(edits[..|edits| - 1]), RunMap(edits[..|edits| - 1]), edits[|edits| - 1]);
      EditTree(RunTree(edits[..|edits| - 1]), edits[|edits| - 1])
  }

  lemma SameAnswer(s: Tree, t: Tree, m: Contents, q: nibbles)
    requires Represents(s, m) && Represents(t, m)
    ensures Lookup(s, q).Some? ==> Lookup(t, q) == Lookup(s, q)
  {
    if Lookup(s, q).Some? {
      var k :| AsNibbles(k) == q;
      assert Lookup(s, AsNibbles(k)) == Get(m, k) == Lookup(t, AsNibbles(k));
    }
  }

  lemma RepresentsUnique(s: Tree, t: Tree, m: Contents)
    requires Canonical(s) && Canonical(t) && Represents(s, m) && Represents(t, m)
    ensures s == t
  {
    forall q ensures Lookup(s, q) == Lookup(t, q) {
      SameAnswer(s, t, m, q);
      SameAnswer(t, s, m, q);
    }
    CanonicalUnique(s, t);
  }

  /** Runs that reach the same map reach the same trie. */
  lemma OrderDoesNotMatter(a: seq<Edit>, b: seq<Edit>)
    ensures RunTree(a) == RunTree(b) <==> RunMap(a) == RunMap(b)
  {
    if RunMap(a) == RunMap(b) {
      RepresentsUnique(RunTree(a), RunTree(b), RunMap(a));
    } else if RunTree(a) == RunTree(b) {
      RepresentedUnique(RunTree(a), RunMap(a), RunMap(b));
    }
  }

  lemma RepresentedUnique(t: Tree, m: Contents, n: Contents)
    requires Represents(t, m) && Represents(t, n)
    ensures m == n
  {
    forall k: bytes
      ensures k in m <==> k in n
      ensures k in m ==> m[k] == n[k]
    {
      assert Get(m, k) == Lookup(t, AsNibbles(k)) == Get(n, k);
    }
  }

  // ---- the list behind a map ----

  predicate LessBytes(a: bytes, b: bytes) {
    b != [] && (a == [] || a[0] < b[0] || (a[0] == b[0] && LessBytes(a[1..], b[1..])))
  }

  /** Byte order is nibble order. */
  lemma {:induction false} LessBytesIsLess(a: bytes, b: bytes)
    requires LessBytes(a, b)
    ensures Less(AsNibbles(a), AsNibbles(b))
  {
    if a != [] {
      var x, y := AsNibbles(a), AsNibbles(b);
      assert x[1..] == [a[0] % 16] + AsNibbles(a[1..]) && y[1..] == [b[0] % 16] + AsNibbles(b[1..]);
      assert x[1..][1..] == AsNibbles(a[1..]) && y[1..][1..] == AsNibbles(b[1..]);
      if a[0] == b[0] { LessBytesIsLess(a[1..], b[1..]); }
    }
  }

  lemma {:induction false} LessBytesTotal(a: bytes, b: bytes)
    ensures a == b || LessBytes(a, b) || LessBytes(b, a)
  {
    if a != [] && b != [] && a[0] == b[0] {
      LessBytesTotal(a[1..], b[1..]);
      assert a == [a[0]] + a[1..] && b == [b[0]] + b[1..];
    }
  }

  lemma {:induction false} LessBytesTransitive(a: bytes, b: bytes, c: bytes)
    requires LessBytes(a, b) && LessBytes(b, c)
    ensures LessBytes(a, c)
  {
    if a != [] && a[0] == b[0] == c[0] { LessBytesTransitive(a[1..], b[1..], c[1..]); }
  }

  lemma {:induction false} LessBytesIrreflexive(a: bytes)
    ensures !LessBytes(a, a)
  {
    if a != [] { LessBytesIrreflexive(a[1..]); }
  }

  type Pair = (bytes, bytes)

  ghost predicate Ordered(v: seq<Pair>) {
    forall i, j :: 0 <= i < j < |v| ==> LessBytes(v[i].0, v[j].0)
  }

  /** An ordered list of exactly the map's pairs. */
  ghost predicate Lists(v: seq<Pair>, m: Contents) {
    Ordered(v) && (forall i :: 0 <= i < |v| ==> v[i].0 in m && m[v[i].0] == v[i].1) &&
    (forall k :: k in m ==> exists i :: 0 <= i < |v| && v[i].0 == k)
  }

  /** Insertion into the ordered list, overwriting an equal key. */
  function BTreeInsert(v: seq<Pair>, k: bytes, x: bytes): seq<Pair> {
    if v == [] then [(k, x)]
    else if v[0].0 == k then [(k, x)] + v[1..]
    else if LessBytes(k, v[0].0) then [(k, x)] + v
    else [v[0]] + BTreeInsert(v[1..], k, x)
  }

  /** Collecting a list: later pairs overwrite earlier ones. */
  function MapOf(input: seq<Pair>): Contents {
    if input == [] then map[]
    else MapOf(input[..|input| - 1])[input[|input| - 1].0 := input[|input| - 1].1]
  }

  lemma ListsTail(v: seq<Pair>, m: Contents)
    requires Lists(v, m) && v != []
    ensures Lists(v[1..], m - {v[0].0})
  {
    var n := m - {v[0].0};
    LessBytesIrreflexive(v[0].0);
    forall i | 0 <= i < |v[1..]| ensures v[1..][i].0 in n && n[v[1..][i].0] == v[1..][i].1 {
      assert v[1..][i] == v[i + 1];
    }
    forall k | k in n ensures exists i :: 0 <= i < |v[1..]| && v[1..][i].0 == k {
      var i :| 0 <= i < |v| && v[i].0 == k;
      assert v[1..][i - 1] == v[i];
    }
  }

  lemma ListsCons(p: Pair, v: seq<Pair>, m: Contents)
    requires Lists(v, m) && p.0 !in m
    requires v != [] ==> LessBytes(p.0, v[0].0)
    ensures Lists([p] + v, m[p.0 := p.1])
  {
    var w, n := [p] + v, m[p.0 := p.1];
    forall i, j | 0 <= i < j < |w| ensures LessBytes(w[i].0, w[j].0) {
      if i == 0 && j > 1 { LessBytesTransitive(p.0, v[0].0, v[j - 1].0); }
    }
    forall k | k in n ensures exists i :: 0 <= i < |w| && w[i].0 == k {
      if k == p.0 {
        assert w[0].0 == k;
      } else {
        var i :| 0 <= i < |v| && v[i].0 == k;
        assert w[i + 1] == v[i];
      }
    }
  }

  lemma {:induction false} BTreeInsertLists(v: seq<Pair>, m: Contents, k: bytes, x: bytes)
    requires Lists(v, m)
    ensures Lists(BTreeInsert(v, k, x), m[k := x])
    ensures forall p :: (v != [] ==> LessBytes(p, v[0].0)) && LessBytes(p, k) ==>
      LessBytes(p, BTreeInsert(v, k, x)[0].0)
    decreases v, 1
  {
    if v == [] {
      ListsCons((k, x), v, m);
      assert [(k, x)] + v == [(k, x)];
    } else if v[0].0 == k {
      ListsTail(v, m);
      if |v| > 1 { assert v[1..][0] == v[1]; }
      ListsCons((k, x), v[1..], m - {k});
      assert (m - {k})[k := x] == m[k := x];
    } else if LessBytes(k, v[0].0) {
      FirstIsLeast(v, m, k);
      ListsCons((k, x), v, m);
    } else {
      BTreeInsertDeeper(v, m, k, x);
    }
  }

  lemma {:induction false} BTreeInsertDeeper(v: seq<Pair>, m: Contents, k: bytes, x: bytes)
    requires Lists(v, m) && v != [] && v[0].0 != k && !LessBytes(k, v[0].0)
    ensures Lists(BTreeInsert(v, k, x), m[k := x])
    decreases v, 0
  {
    LessBytesTotal(k, v[0].0);
    ListsTail(v, m);
    var rest := m - {v[0].0};
    BTreeInsertLists(v[1..], rest, k, x);
    if |v| > 1 { assert v[1..][0] == v[1]; }
    ListsCons(v[0], BTreeInsert(v[1..], k, x), rest[k := x]);
    assert rest[k := x][v[0].0 := v[0].1] == m[k := x];
  }

  lemma FirstIsLeast(v: seq<Pair>, m: Contents, k: bytes)
    requires Lists(v, m) && v != [] && LessBytes(k, v[0].0)
    ensures k !in m
  {
    if k in m {
      var i :| 0 <= i < |v| && v[i].0 == k;
      if i > 0 { LessBytesTransitive(k, v[0].0, k); }
      LessBytesIrreflexive(k);
    }
  }

  method Collect(input: seq<Pair>) returns (v: seq<Pair>)
    ensures Lists(v, MapOf(input))
  {
    v := [];
    var i := 0;
    while i < |input|
      invariant 0 <= i <= |input|
      invariant Lists(v, MapOf(input[..i]))
    {
      BTreeInsertLists(v, MapOf(input[..i]), input[i].0, input[i].1);
      assert input[..i + 1][..i] == input[..i];
      v := BTreeInsert(v, input[i].0, input[i].1);
      i := i + 1;
    }
    TakeAll(input);
  }

  /** The pairs with their keys in nibbles. */
  function ToEntries(v: seq<Pair>): (e: seq<Entry>)
    ensures |e| == |v| && forall i :: 0 <= i < |v| ==> e[i] == (AsNibbles(v[i].0), v[i].1)
  {
    seq(|v|, i requires 0 <= i < |v| => (AsNibbles(v[i].0), v[i].1))
  }

  lemma EntriesProper(v: seq<Pair>, m: Contents)
    requires Lists(v, m)
    ensures Proper(ToEntries(v), 0)
    ensures NoEmptyValue(m) ==> Valued(ToEntries(v))
  {
    var e := ToEntries(v);
    forall i, j | 0 <= i < j < |e| ensures Less(e[i].0, e[j].0) { LessBytesIsLess(v[i].0, v[j].0); }
  }

  lemma BuildRepresents(v: seq<Pair>, m: Contents)
    requires Lists(v, m) && Proper(ToEntries(v), 0)
    ensures Represents(Build(ToEntries(v), 0), m)
  {
    var e := ToEntries(v);
    var t := Build(e, 0);
    BuildAnswers(e, 0);
    forall i | 0 <= i < |e| ensures Lookup(t, AsNibbles(v[i].0)) == Some(v[i].1) {
      assert e[i].0[0..] == AsNibbles(v[i].0);
    }
    forall k: bytes
      ensures Lookup(t, AsNibbles(k)) == Get(m, k)
    {
      if k in m {
        var i :| 0 <= i < |v| && v[i].0 == k;
      } else if Lookup(t, AsNibbles(k)).Some? {
        var i :| 0 <= i < |e| && e[i].0[0..] == AsNibbles(k);
        assert AsNibbles(v[i].0) == AsNibbles(k);
        AsNibblesInjective(v[i].0, k);
      }
    }
    forall q | Lookup(t, q).Some?
      ensures exists k: bytes :: AsNibbles(k) == q
    {
      var i :| 0 <= i < |e| && e[i].0[0..] == q;
      assert AsNibbles(v[i].0) == q;
    }
  }

  /** The canonical trie of a map is the trie its ordered list splits into. */
  lemma ListTrieIsTheTrie(t: Tree, m: Contents, v: seq<Pair>)
    requires Canonical(t) && Represents(t, m) && NoEmptyValue(m) && Lists(v, m)
    ensures Proper(ToEntries(v), 0) && Build(ToEntries(v), 0) == t
  {
    EntriesProper(v, m);
    BuildRepresents(v, m);
    BuildCanonical(ToEntries(v), 0);
    RepresentsUnique(t, Build(ToEntries(v), 0), m);
  }

  ghost predicate ShortContents(m: Contents) {
    forall k :: k in m ==> 2 * |k| <= MAX_KEY && |m[k]| <= MAX_VALUE
  }

  /** The root of a key-value list is the root of every canonical trie of its map; above all, of
      the trie any run of edits leaves that reaches this map. */
  method RootOfList(h: HashFn, input: seq<Pair>) returns (root: H256)
    requires ShortContents(MapOf(input))
    ensures NoEmptyValue(MapOf(input)) ==>
      forall t :: Canonical(t) && Represents(t, MapOf(input)) ==> root == RootHash(h, t)
    ensures forall edits :: RunMap(edits) == MapOf(input) ==> root == RootHash(h, RunTree(edits))
  {
    ghost var m := MapOf(input);
    var v := Collect(input);
    EntriesProper(v, m);
    root := GenTrieRoot(h, ToEntries(v));
    forall t | NoEmptyValue(m) && Canonical(t) && Represents(t, m)
      ensures root == RootHash(h, t)
    {
      ListTrieIsTheTrie(t, m, v);
    }
  }
}
