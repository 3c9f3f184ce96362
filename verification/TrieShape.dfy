/** Every trie reached by insertions and removals is canonical, and canonical tries with the same
    contents are the same trie. */
module TrieShape {
  import opened Bytes
  import opened Nibbles
  import opened Trie

  // ---- insertion keeps the shape ----

  lemma RestDiverges(k: nibbles, key: nibbles)
    requires CommonPrefix(k, key) < |key|
    ensures var cp := CommonPrefix(k, key); CommonPrefix(k[cp..], key[cp..]) == 0
  {
    var cp := CommonPrefix(k, key);
    CommonPrefixUnique(k[cp..], key[cp..], 0);
  }

  /** Two subtrees behind different first nibbles make a branch. */
  lemma TwoChildrenBranch(i: nibble, a: Tree, j: nibble, b: Tree)
    requires i != j && a != Empty && b != Empty && Canonical(a) && Canonical(b)
    ensures Canonical(Branch(NO_CHILDREN[i as int := a][j as int := b], None))
  {
    var children := NO_CHILDREN[i as int := a][j as int := b];
    assert children[i] == a && children[j] == b;
    assert TwoChildren(children) by {
      if i < j { assert children[i] != Empty && children[j] != Empty; }
      else { assert children[j] != Empty && children[i] != Empty; }
    }
    forall x | 0 <= x < 16 ensures Canonical(children[x]) { }
  }

  lemma OneChildBranch(i: nibble, a: Tree, v: bytes)
    requires a != Empty && Canonical(a) && v != []
    ensures Canonical(Branch(NO_CHILDREN[i as int := a], Some(v)))
  {
    assert NO_CHILDREN[i as int := a][i] == a;
  }

  lemma InsertIntoStub(i: nibble, a: Tree, k: nibbles, v: bytes)
    requires a != Empty && Canonical(a) && v != []
    requires k == [] || k[0] != i
    ensures WellFormed(Branch(NO_CHILDREN[i as int := a], None))
    ensures Insert(Branch(NO_CHILDREN[i as int := a], None), k, v).Branch?
    ensures Canonical(Insert(Branch(NO_CHILDREN[i as int := a], None), k, v))
  {
    CanonicalIsWellFormed(a);
    if k == [] { OneChildBranch(i, a, v); } else { TwoChildrenBranch(i, a, k[0], Leaf(k[1..], v)); }
  }

  lemma InsertBesideValue(lv: bytes, k: nibbles, v: bytes)
    requires k != [] && v != [] && lv != []
    ensures WellFormed(Branch(NO_CHILDREN, Some(lv)))
    ensures Insert(Branch(NO_CHILDREN, Some(lv)), k, v) == Branch(NO_CHILDREN[k[0] as int := Leaf(k[1..], v)], Some(lv))
    ensures Canonical(Insert(Branch(NO_CHILDREN, Some(lv)), k, v))
  {
    assert NO_CHILDREN[k[0]] == Empty;
    OneChildBranch(k[0], Leaf(k[1..], v), lv);
  }

  /** A leaf or an extension and a key without common start become a branch of both. */
  lemma InsertDiverging(t: Tree, k: nibbles, v: bytes)
    requires Canonical(t) && (t.Leaf? || t.Extension?) && v != []
    requires WellFormed(t) && CommonPrefix(k, t.key) == 0 && !(k == [] && t.key == [])
    ensures Insert(t, k, v).Branch? && Canonical(Insert(t, k, v))
  {
    match t {
      case Leaf(key, lv) =>
        if key == [] {
          InsertBesideValue(lv, k, v);
        } else {
          InsertIntoStub(key[0], Leaf(key[1..], lv), k, v);
        }
      case Extension(key, child) =>
        InsertIntoStub(key[0], Shortened(key, child), k, v);
    }
  }

  lemma {:induction false} InsertCanonical(t: Tree, k: nibbles, v: bytes)
    requires Canonical(t) && WellFormed(t) && v != []
    ensures Canonical(Insert(t, k, v)) && Insert(t, k, v) != Empty
    ensures t.Branch? ==> Insert(t, k, v).Branch?
    decreases |k|, Rank(t)
  {
    match t {
      case Empty =>
      case Branch(children, value) =>
        if k != [] {
          InsertCanonical(children[k[0]], k[1..], v);
          BranchUpdate(children, value, k[0], Insert(children[k[0]], k[1..], v));
        }
      case Leaf(key, lv) =>
        var cp := CommonPrefix(k, key);
        if cp == |key| && cp == |k| {
        } else if cp == 0 {
          InsertDiverging(t, k, v);
        } else if cp == |key| {
          InsertBesideValue(lv, k[cp..], v);
        } else {
          RestDiverges(k, key);
          InsertDiverging(Leaf(key[cp..], lv), k[cp..], v);
        }
      case Extension(key, child) =>
        var cp := CommonPrefix(k, key);
        if cp == 0 {
          InsertDiverging(t, k, v);
        } else if cp == |key| {
          InsertCanonical(child, k[cp..], v);
        } else {
          RestDiverges(k, key);
          InsertDiverging(Extension(key[cp..], child), k[cp..], v);
        }
    }
  }

  /** Putting a subtree into a branch never takes an entry away. */
  lemma BranchUpdate(children: seq<Tree>, value: Option<bytes>, i: nibble, c: Tree)
    requires Canonical(Branch(children, value)) && Canonical(c) && c != Empty
    ensures Canonical(Branch(children[i as int := c], value))
  {
    var updated := children[i as int := c];
    assert forall j :: 0 <= j < 16 && children[j] != Empty ==> updated[j] != Empty;
    if TwoChildren(children) {
      var a, b :| 0 <= a < b < |children| && children[a] != Empty && children[b] != Empty;
      assert updated[a] != Empty && updated[b] != Empty;
    } else {
      assert updated[i] != Empty;
    }
  }

  // ---- removal keeps the shape ----

  lemma FixExtensionCanonical(key: nibbles, child: Tree)
    requires key != [] && Canonical(child) && child != Empty
    ensures Canonical(FixExtension(key, child)) && FixExtension(key, child) != Empty
  {
  }

  lemma FixBranchCanonical(children: seq<Tree>, value: Option<bytes>)
    requires |children| == 16 && forall i :: 0 <= i < 16 ==> Canonical(children[i])
    requires value.Some? ==> value.value != []
    requires value.Some? || OneChild(children)
    ensures Canonical(FixBranch(children, value)) && FixBranch(children, value) != Empty
  {
    UsedBound(children, 16);
    UsedMany(children, 16);
    match (Used(children, 16), value) {
      case (One(a), None) => FixExtensionCanonical([a], children[a]);
      case (One(a), Some(_)) => assert children[a] != Empty;
      case _ =>
    }
  }

  lemma OtherChild(children: seq<Tree>, i: nat)
    requires i < |children| && TwoChildren(children)
    ensures OneChild(children[i := Empty])
  {
    var a, b :| 0 <= a < b < |children| && children[a] != Empty && children[b] != Empty;
    var j := if a == i then b else a;
    assert children[i := Empty][j] != Empty;
  }

  lemma {:induction false} RemoveCanonical(t: Tree, k: nibbles)
    requires Canonical(t) && WellFormed(t)
    ensures Canonical(Remove(t, k))
    ensures t.Branch? || t.Extension? ==> Remove(t, k) != Empty
  {
    match t {
      case Empty =>
      case Leaf(_, _) =>
      case Extension(key, child) =>
        if key <= k {
          RemoveCanonical(child, k[|key|..]);
          if Remove(child, k[|key|..]) != child { FixExtensionCanonical(key, Remove(child, k[|key|..])); }
        }
      case Branch(children, value) =>
        if k == [] {
          if value.Some? { FixBranchCanonical(children, None); }
        } else if children[k[0]] != Empty {
          RemoveCanonical(children[k[0]], k[1..]);
          var r := Remove(children[k[0]], k[1..]);
          if r != Empty {
            BranchUpdate(children, value, k[0], r);
          } else {
            if TwoChildren(children) { OtherChild(children, k[0]); }
            FixBranchCanonical(children[k[0] as int := Empty], value);
          }
        }
    }
  }

  // ---- equal contents, equal tries ----

  ghost predicate SameContents(s: Tree, t: Tree) {
    forall k :: Lookup(s, k) == Lookup(t, k)
  }

  /** A trie with anything in it answers some key. */
  lemma {:induction false} SomeKey(t: Tree) returns (k: nibbles)
    requires Canonical(t) && t != Empty
    ensures Lookup(t, k).Some?
    decreases t, 0
  {
    match t {
      case Leaf(key, _) => k := key;
      case Extension(key, child) =>
        var rest := SomeKey(child);
        k := key + rest;
        assert k[|key|..] == rest;
      case Branch(children, value) =>
        var i :| 0 <= i < 16 && children[i] != Empty;
        k := SomeKeyBehind(t, i);
    }
  }

  lemma {:induction false} SomeKeyBehind(t: Tree, i: nat) returns (k: nibbles)
    requires Canonical(t) && t.Branch? && i < 16 && t.children[i] != Empty
    ensures k != [] && k[0] == i && Lookup(t, k).Some?
    decreases t.children[i], 1
  {
    var rest := SomeKey(t.children[i]);
    k := [i] + rest;
    assert k[1..] == rest;
  }

  /** A branch answers two keys that part at once. */
  lemma PartingKeys(t: Tree) returns (a: nibbles, b: nibbles)
    requires Canonical(t) && t.Branch?
    ensures Lookup(t, a).Some? && Lookup(t, b).Some?
    ensures a != [] && (b == [] || a[0] != b[0])
  {
    if TwoChildren(t.children) {
      var i, j :| 0 <= i < j < 16 && t.children[i] != Empty && t.children[j] != Empty;
      a := SomeKeyBehind(t, i);
      b := SomeKeyBehind(t, j);
    } else {
      var i :| 0 <= i < 16 && t.children[i] != Empty;
      a := SomeKeyBehind(t, i);
      b := [];
    }
  }

  /** Below an extension all keys start with its key. */
  lemma ExtensionLookup(key: nibbles, child: Tree, q: nibbles)
    ensures Lookup(Extension(key, child), key + q) == Lookup(child, q)
  {
    assert (key + q)[|key|..] == q;
  }

  lemma BranchLookup(t: Tree, i: nibble, q: nibbles)
    requires t.Branch? && |t.children| == 16
    ensures Lookup(t, [i] + q) == Lookup(t.children[i], q)
  {
    assert ([i] + q)[1..] == q;
  }

  /** A key the larger trie answers and the leaf does not. */
  lemma LeafDiffers(s: Tree, t: Tree) returns (k: nibbles)
    requires s.Leaf? && Canonical(t) && (t.Extension? || t.Branch?)
    ensures Lookup(s, k) != Lookup(t, k)
  {
    var branch := if t.Branch? then t else t.child;
    var p := if t.Branch? then [] else t.key;
    var a, b := PartingKeys(branch);
    var c := if p + a == s.key then b else a;
    assert p + a != p + b by {
      if a != [] && b != [] { assert (p + a)[|p|] == a[0] && (p + b)[|p|] == b[0]; }
    }
    k := p + c;
    if t.Extension? { ExtensionLookup(p, branch, c); } else { assert k == c; }
  }

  lemma BranchDiffers(s: Tree, t: Tree) returns (k: nibbles)
    requires Canonical(s) && s.Extension? && Canonical(t) && t.Branch?
    ensures Lookup(s, k) != Lookup(t, k)
  {
    var a, b := PartingKeys(t);
    k := if a[0] == s.key[0] then b else a;
  }

  /** A key of s that does not start with t's key. */
  lemma ExtensionDiffers(s: Tree, t: Tree) returns (k: nibbles)
    requires Canonical(s) && s.Extension? && t.Extension? && !(t.key <= s.key)
    ensures Lookup(s, k) != Lookup(t, k)
  {
    var a, b := PartingKeys(s.child);
    var n := |s.key|;
    var c := if n < |t.key| && a[0] == t.key[n] then b else a;
    k := s.key + c;
    ExtensionLookup(s.key, s.child, c);
    NoPrefixOfLonger(t.key, s.key, c);
  }

  /** p stays no prefix of q when q is continued away from p. */
  lemma NoPrefixOfLonger(p: nibbles, q: nibbles, c: nibbles)
    requires !(p <= q) && (|q| >= |p| || c == [] || c[0] != p[|q|])
    ensures !(p <= q + c)
  {
    if |q| >= |p| {
      assert (q + c)[..|p|] == q[..|p|];
    } else if c == [] {
      assert q + c == q;
    } else {
      assert (q + c)[|q|] == c[0];
    }
  }

  /** Different canonical tries answer some key differently. */
  lemma {:induction false} Distinguish(s: Tree, t: Tree) returns (k: nibbles)
    requires Canonical(s) && Canonical(t) && s != t
    ensures Lookup(s, k) != Lookup(t, k)
    decreases s, 1
  {
    if s == Empty {
      k := SomeKey(t);
    } else if t == Empty {
      k := SomeKey(s);
    } else if s.Leaf? && t.Leaf? {
      k := s.key;
    } else if s.Leaf? {
      k := LeafDiffers(s, t);
    } else if t.Leaf? {
      k := LeafDiffers(t, s);
    } else if s.Extension? && t.Extension? {
      k := DistinguishExtensions(s, t);
    } else if s.Branch? && t.Branch? {
      k := DistinguishBranches(s, t);
    } else if s.Extension? {
      k := BranchDiffers(s, t);
    } else {
      k := BranchDiffers(t, s);
    }
  }

  lemma {:induction false} DistinguishExtensions(s: Tree, t: Tree) returns (k: nibbles)
    requires Canonical(s) && Canonical(t) && s != t && s.Extension? && t.Extension?
    ensures Lookup(s, k) != Lookup(t, k)
    decreases s, 0
  {
    if !(t.key <= s.key) {
      k := ExtensionDiffers(s, t);
    } else if !(s.key <= t.key) {
      k := ExtensionDiffers(t, s);
    } else {
      var rest := Distinguish(s.child, t.child);
      k := s.key + rest;
      ExtensionLookup(s.key, s.child, rest);
      ExtensionLookup(t.key, t.child, rest);
    }
  }

  lemma {:induction false} DistinguishBranches(s: Tree, t: Tree) returns (k: nibbles)
    requires Canonical(s) && Canonical(t) && s != t && s.Branch? && t.Branch?
    ensures Lookup(s, k) != Lookup(t, k)
    decreases s, 0
  {
    if s.value != t.value {
      k := [];
    } else {
      assert s.children != t.children;
      var i :| 0 <= i < 16 && s.children[i] != t.children[i];
      var rest := Distinguish(s.children[i], t.children[i]);
      BranchLookup(s, i, rest);
      BranchLookup(t, i, rest);
      k := [i] + rest;
    }
  }

  /** Only one canonical trie holds a given map. */
  lemma CanonicalUnique(s: Tree, t: Tree)
    requires Canonical(s) && Canonical(t)
    ensures s == t <==> SameContents(s, t)
  {
    if s != t { var k := Distinguish(s, t); }
  }

  // ---- heights ----

  /** The number of nodes above the deepest one. */
  ghost function Height(t: Tree): nat {
    match t
    case Extension(_, child) => 1 + Height(child)
    case Branch(children, _) => 1 + Tallest(children)
    case _ => 0
  }

  ghost function Tallest(children: seq<Tree>): nat {
    if children == [] then 0
    else
      var last, others := Height(children[|children| - 1]), Tallest(children[..|children| - 1]);
      if last > others then last else others
  }

  lemma {:induction false} TallestIsTallest(children: seq<Tree>, n: nat)
    ensures Tallest(children) <= n <==> forall i :: 0 <= i < |children| ==> Height(children[i]) <= n
  {
    if children != [] {
      var front := children[..|children| - 1];
      TallestIsTallest(front, n);
      assert forall i :: 0 <= i < |front| ==> front[i] == children[i];
    }
  }

  lemma ChildIsLower(t: Tree, i: nat)
    requires t.Branch? && i < |t.children|
    ensures Height(t.children[i]) < Height(t)
  {
    TallestIsTallest(t.children, Tallest(t.children));
  }

  /** A canonical trie is no higher than its longest key is long. */
  lemma {:induction false} HeightBelow(t: Tree, n: nat)
    requires Canonical(t) && forall q :: Lookup(t, q).Some? ==> |q| <= n
    ensures Height(t) <= n
  {
    match t {
      case Extension(key, child) =>
        var k := SomeKey(child);
        ExtensionLookup(key, child, k);
        forall q | Lookup(child, q).Some? ensures |q| <= n - |key| { ExtensionLookup(key, child, q); }
        HeightBelow(child, n - |key|);
      case Branch(children, _) =>
        var a, b := PartingKeys(t);
        forall i: nat | i < 16 ensures Height(children[i]) <= n - 1 {
          forall q | Lookup(children[i], q).Some? ensures |q| <= n - 1 { BranchLookup(t, i, q); }
          HeightBelow(children[i], n - 1);
        }
        TallestIsTallest(children, n - 1);
      case _ =>
    }
  }
}
