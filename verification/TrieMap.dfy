/** Insertion and removal act on the trie as on a map, keep it canonical, and say truthfully
    whether they changed it. */
module TrieMap {
  import opened Bytes
  import opened Nibbles
  import opened Trie

  // ---- keys ----

  lemma HeadTail(a: nibbles, b: nibbles)
    requires a != [] && b != [] && a[0] == b[0]
    ensures a == b <==> a[1..] == b[1..]
    ensures a <= b <==> a[1..] <= b[1..]
    ensures a <= b ==> b[1..][|a| - 1..] == b[|a|..]
  {
    assert a == [a[0]] + a[1..] && b == [b[0]] + b[1..];
  }

  lemma PrefixSplit(p: nibbles, cp: nat, q: nibbles)
    requires cp <= |p|
    ensures p <= q <==> p[..cp] <= q && p[cp..] <= q[cp..]
    ensures p == q <==> p[..cp] <= q && p[cp..] == q[cp..]
    ensures p <= q ==> q[cp..][|p| - cp..] == q[|p|..]
  {
    assert p == p[..cp] + p[cp..];
    if p[..cp] <= q { assert q == p[..cp] + q[cp..]; }
  }

  // ---- lookup after insertion ----

  lemma LookupLeafToBranch(key: nibbles, v: bytes, q: nibbles)
    ensures Lookup(LeafToBranch(key, v), q) == Lookup(Leaf(key, v), q)
  {
    if key != [] && q != [] && q[0] == key[0] { HeadTail(key, q); }
  }

  lemma LookupExtensionToBranch(key: nibbles, child: Tree, q: nibbles)
    requires key != []
    ensures Lookup(ExtensionToBranch(key, child), q) == Lookup(Extension(key, child), q)
  {
    if q != [] && q[0] == key[0] {
      HeadTail(key, q);
      if |key| == 1 { assert key[1..] == []; }
    }
  }

  /** A key that splits at cp is found under the split as it was found whole. */
  lemma LookupSplitExtension(key: nibbles, cp: nat, child: Tree, q: nibbles)
    requires cp <= |key|
    ensures Lookup(Extension(key, child), q) == Lookup(Extension(key[..cp], Extension(key[cp..], child)), q)
  {
    PrefixSplit(key, cp, q);
  }

  lemma LookupSplitLeaf(key: nibbles, cp: nat, v: bytes, q: nibbles)
    requires cp <= |key|
    ensures Lookup(Leaf(key, v), q) == Lookup(Extension(key[..cp], Leaf(key[cp..], v)), q)
  {
    PrefixSplit(key, cp, q);
  }

  lemma {:induction false} LookupInsert(t: Tree, k: nibbles, v: bytes, q: nibbles)
    requires WellFormed(t)
    ensures Lookup(Insert(t, k, v), q) == if q == k then Some(v) else Lookup(t, q)
    decreases |k|, Rank(t), 1
  {
    match t {
      case Empty =>
      case Branch(children, value) =>
        if k != [] && q != [] && q[0] == k[0] {
          LookupInsert(children[k[0]], k[1..], v, q[1..]);
          HeadTail(k, q);
        }
      case Leaf(key, lv) => LookupInsertLeaf(key, lv, k, v, q);
      case Extension(key, child) => LookupInsertExtension(key, child, k, v, q);
    }
  }

  lemma {:induction false} LookupInsertLeaf(key: nibbles, lv: bytes, k: nibbles, v: bytes, q: nibbles)
    ensures Lookup(Insert(Leaf(key, lv), k, v), q) == if q == k then Some(v) else Lookup(Leaf(key, lv), q)
    decreases |k|, 1, 0
  {
    var cp := CommonPrefix(k, key);
    if cp == |key| && cp == |k| {
      assert key == key[..cp] == k[..cp] == k;
    } else if cp == 0 {
      LookupInsert(LeafToBranch(key, lv), k, v, q);
      LookupLeafToBranch(key, lv, q);
    } else {
      var low := if cp == |key| then Branch(NO_CHILDREN, Some(lv)) else Leaf(key[cp..], lv);
      LookupLow(key, lv, cp, q);
      if key[..cp] <= q { LookupInsert(low, k[cp..], v, q[cp..]); }
      InsertUnder(key[..cp], low, Insert(low, k[cp..], v), k, v, q);
      if cp == |key| { TakeAll(key); }
    }
  }

  lemma {:induction false} LookupInsertExtension(key: nibbles, child: Tree, k: nibbles, v: bytes, q: nibbles)
    requires WellFormed(Extension(key, child))
    ensures Lookup(Insert(Extension(key, child), k, v), q) ==
      if q == k then Some(v) else Lookup(Extension(key, child), q)
    decreases |k|, 1, 0
  {
    var cp := CommonPrefix(k, key);
    if cp == 0 {
      LookupInsert(ExtensionToBranch(key, child), k, v, q);
      LookupExtensionToBranch(key, child, q);
    } else {
      var low := if cp == |key| then child else Extension(key[cp..], child);
      LookupSplitExtension(key, cp, child, q);
      if key[..cp] <= q { LookupInsert(low, k[cp..], v, q[cp..]); }
      InsertUnder(key[..cp], low, Insert(low, k[cp..], v), k, v, q);
      if cp == |key| { TakeAll(key); }
    }
  }

  lemma LookupStub(v: bytes, q: nibbles)
    ensures Lookup(Branch(NO_CHILDREN, Some(v)), q) == if q == [] then Some(v) else None
  {
    if q != [] { assert NO_CHILDREN[q[0]] == Empty; }
  }

  /** What a leaf becomes below the shared start of its key. */
  lemma LookupLow(key: nibbles, lv: bytes, cp: nat, q: nibbles)
    requires cp <= |key|
    ensures var low := if cp == |key| then Branch(NO_CHILDREN, Some(lv)) else Leaf(key[cp..], lv);
      Lookup(Extension(key[..cp], low), q) == Lookup(Leaf(key, lv), q)
  {
    if cp == |key| {
      TakeAll(key);
      if key <= q {
        LookupStub(lv, q[cp..]);
        PrefixSplit(key, cp, q);
      }
    } else {
      LookupSplitLeaf(key, cp, lv, q);
    }
  }

  /** An insertion below p is an insertion of the longer key. */
  lemma InsertUnder(p: nibbles, before: Tree, after: Tree, k: nibbles, v: bytes, q: nibbles)
    requires p <= k
    requires p <= q ==> Lookup(after, q[|p|..]) == if q[|p|..] == k[|p|..] then Some(v) else Lookup(before, q[|p|..])
    ensures Lookup(Extension(p, after), q) == if q == k then Some(v) else Lookup(Extension(p, before), q)
  {
    PrefixSplit(k, |p|, q);
    assert k[..|p|] == p;
  }

  // ---- lookup after removal ----

  lemma {:induction false} LookupFixExtension(key: nibbles, child: Tree, q: nibbles)
    ensures Lookup(FixExtension(key, child), q) == Lookup(Extension(key, child), q)
    decreases child
  {
    match child {
      case Extension(subKey, subChild) =>
        LookupFixExtension(key + subKey, subChild, q);
        LookupSplitExtension(key + subKey, |key|, subChild, q);
        assert (key + subKey)[..|key|] == key && (key + subKey)[|key|..] == subKey;
      case Leaf(subKey, v) =>
        LookupSplitLeaf(key + subKey, |key|, v, q);
        assert (key + subKey)[..|key|] == key && (key + subKey)[|key|..] == subKey;
      case _ =>
    }
  }

  lemma LookupFixBranch(children: seq<Tree>, value: Option<bytes>, q: nibbles)
    requires |children| == 16
    ensures Lookup(FixBranch(children, value), q) == Lookup(Branch(children, value), q)
  {
    UsedBound(children, 16);
    match (Used(children, 16), value) {
      case (One(a), None) =>
        LookupFixExtension([a], children[a], q);
        if q != [] { assert [a] <= q <==> q[0] == a; }
      case (NoneUsed, Some(v)) =>
      case _ =>
    }
  }

  lemma {:induction false} LookupRemove(t: Tree, k: nibbles, q: nibbles)
    requires WellFormed(t)
    ensures Lookup(Remove(t, k), q) == if q == k then None else Lookup(t, q)
    decreases t, 1
  {
    match t {
      case Empty =>
      case Leaf(key, _) =>
      case Extension(key, child) =>
        if key <= k {
          var r := Remove(child, k[|key|..]);
          PrefixSplit(k, |key|, q);
          if key <= q { LookupRemove(child, k[|key|..], q[|key|..]); }
          if r != Empty && r != child { LookupFixExtension(key, r, q); }
        }
      case Branch(children, value) =>
        if k == [] {
          if value.Some? { LookupFixBranch(children, None, q); }
        } else if children[k[0]] != Empty {
          LookupRemoveChild(children, value, k, q);
        } else if q != [] && q[0] == k[0] {
          HeadTail(k, q);
        }
    }
  }

  lemma {:induction false} LookupRemoveChild(children: seq<Tree>, value: Option<bytes>, k: nibbles, q: nibbles)
    requires WellFormed(Branch(children, value)) && k != [] && children[k[0]] != Empty
    ensures Lookup(Remove(Branch(children, value), k), q) == if q == k then None else Lookup(Branch(children, value), q)
    decreases Branch(children, value), 0
  {
    var r := Remove(children[k[0]], k[1..]);
    if q != [] && q[0] == k[0] {
      LookupRemove(children[k[0]], k[1..], q[1..]);
      HeadTail(k, q);
    }
    if r == Empty { LookupFixBranch(children[k[0] as int := Empty], value, q); }
  }

  // ---- the changed flag ----

  lemma {:induction false} InsertSameValue(t: Tree, k: nibbles, v: bytes)
    requires WellFormed(t) && Lookup(t, k) == Some(v)
    ensures Insert(t, k, v) == t
    decreases |k|, Rank(t)
  {
    match t {
      case Branch(children, value) =>
        if k != [] {
          InsertSameValue(children[k[0]], k[1..], v);
          assert children[k[0] as int := children[k[0]]] == children;
        }
      case Leaf(key, lv) => CommonPrefixUnique(k, key, |k|);
      case Extension(key, child) =>
        CommonPrefixUnique(k, key, |key|);
        InsertSameValue(child, k[|key|..], v);
    }
  }

  /** Insertion leaves the trie as it is exactly when the value was there already. */
  lemma InsertChanged(t: Tree, k: nibbles, v: bytes)
    requires WellFormed(t)
    ensures Insert(t, k, v) == t <==> Lookup(t, k) == Some(v)
  {
    LookupInsert(t, k, v, k);
    if Lookup(t, k) == Some(v) { InsertSameValue(t, k, v); }
  }

  lemma {:induction false} RemoveAbsent(t: Tree, k: nibbles)
    requires WellFormed(t) && Lookup(t, k) == None
    ensures Remove(t, k) == t
  {
    match t {
      case Empty =>
      case Leaf(_, _) =>
      case Extension(key, child) =>
        if key <= k { RemoveAbsent(child, k[|key|..]); }
      case Branch(children, value) =>
        if k != [] {
          RemoveAbsent(children[k[0]], k[1..]);
          assert children[k[0] as int := children[k[0]]] == children;
        }
    }
  }

  /** Removal leaves the trie as it is exactly when the key was absent. */
  lemma RemoveChanged(t: Tree, k: nibbles)
    requires WellFormed(t)
    ensures Remove(t, k) == t <==> Lookup(t, k) == None
  {
    LookupRemove(t, k, k);
    if Lookup(t, k) == None { RemoveAbsent(t, k); }
  }
}
