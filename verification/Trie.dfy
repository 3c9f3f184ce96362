/** The trie as a value: lookup, insertion, removal and repair, as the mutable trie performs them
    node by node, and the map they stand for. */
module Trie {
  import opened Bytes
  import opened Nibbles

  /** A branch holds sixteen children, Empty where there is none. */
  datatype Tree =
    | Empty
    | Leaf(key: nibbles, leafValue: bytes)
    | Extension(key: nibbles, child: Tree)
    | Branch(children: seq<Tree>, value: Option<bytes>)

  const NO_CHILDREN: seq<Tree> :=
    [Empty, Empty, Empty, Empty, Empty, Empty, Empty, Empty, Empty, Empty, Empty, Empty, Empty, Empty, Empty, Empty]

  // ---- shape ----

  ghost predicate OneChild(children: seq<Tree>) {
    exists i :: 0 <= i < |children| && children[i] != Empty
  }

  ghost predicate TwoChildren(children: seq<Tree>) {
    exists i, j :: 0 <= i < j < |children| && children[i] != Empty && children[j] != Empty
  }

  /** A branch with fewer than two entries would have been a leaf or an extension. */
  ghost predicate TwoEntries(children: seq<Tree>, value: Option<bytes>) {
    TwoChildren(children) || (value.Some? && OneChild(children))
  }

  /** Sixteen children everywhere, and no extension without a key or a child. */
  ghost predicate WellFormed(t: Tree) {
    match t
    case Empty => true
    case Leaf(_, _) => true
    case Extension(key, child) => key != [] && child != Empty && WellFormed(child)
    case Branch(children, _) => |children| == 16 && forall i :: 0 <= i < 16 ==> WellFormed(children[i])
  }

  /** The one shape the trie keeps for each map. */
  ghost predicate Canonical(t: Tree) {
    match t
    case Empty => true
    case Leaf(_, v) => v != []
    case Extension(key, child) => key != [] && child.Branch? && Canonical(child)
    case Branch(children, value) =>
      |children| == 16 && TwoEntries(children, value) && (value.Some? ==> value.value != []) &&
      forall i :: 0 <= i < 16 ==> Canonical(children[i])
  }

  lemma {:induction false} CanonicalIsWellFormed(t: Tree)
    requires Canonical(t)
    ensures WellFormed(t)
  {
    match t {
      case Extension(_, child) => CanonicalIsWellFormed(child);
      case Branch(children, _) =>
        forall i | 0 <= i < 16 ensures WellFormed(children[i]) { CanonicalIsWellFormed(children[i]); }
      case _ =>
    }
  }

  // ---- lookup ----

  function Lookup(t: Tree, k: nibbles): Option<bytes>
    decreases t
  {
    match t
    case Empty => None
    case Leaf(key, v) => if key == k then Some(v) else None
    case Extension(key, child) => if key <= k then Lookup(child, k[|key|..]) else None
    case Branch(children, value) =>
      if k == [] then value
      else if k[0] < |children| then Lookup(children[k[0]], k[1..])
      else None
  }

  // ---- insertion ----

  function Rank(t: Tree): nat {
    if t.Branch? then 0 else 1
  }

  /** The branch a leaf turns into when a key without common start arrives. */
  function LeafToBranch(key: nibbles, v: bytes): Tree {
    if key == [] then Branch(NO_CHILDREN, Some(v))
    else Branch(NO_CHILDREN[key[0] as int := Leaf(key[1..], v)], None)
  }

  /** What is left of an extension behind the first nibble of its key. */
  function Shortened(key: nibbles, child: Tree): Tree
    requires key != []
  {
    if |key| == 1 then child else Extension(key[1..], child)
  }

  /** The branch an extension turns into when a key without common start arrives. */
  function ExtensionToBranch(key: nibbles, child: Tree): Tree
    requires key != []
  {
    Branch(NO_CHILDREN[key[0] as int := Shortened(key, child)], None)
  }

  function Insert(t: Tree, k: nibbles, v: bytes): Tree
    requires WellFormed(t)
    decreases |k|, Rank(t)
  {
    match t
    case Empty => Leaf(k, v)
    case Branch(children, value) =>
      if k == [] then Branch(children, Some(v))
      else Branch(children[k[0] as int := Insert(children[k[0]], k[1..], v)], value)
    case Leaf(key, lv) =>
      var cp := CommonPrefix(k, key);
      if cp == |key| && cp == |k| then Leaf(key, v)
      else if cp == 0 then Insert(LeafToBranch(key, lv), k, v)
      else if cp == |key| then Extension(key, Insert(Branch(NO_CHILDREN, Some(lv)), k[cp..], v))
      else Extension(key[..cp], Insert(Leaf(key[cp..], lv), k[cp..], v))
    case Extension(key, child) =>
      var cp := CommonPrefix(k, key);
      if cp == 0 then Insert(ExtensionToBranch(key, child), k, v)
      else if cp == |key| then Extension(key, Insert(child, k[cp..], v))
      else Extension(key[..cp], Insert(Extension(key[cp..], child), k[cp..], v))
  }

  // ---- removal ----

  datatype UsedIndex = NoneUsed | One(index: nat) | Many

  /** What a scan of the first n children has seen. */
  function Used(children: seq<Tree>, n: nat): UsedIndex
    requires n <= |children|
  {
    if n == 0 then NoneUsed
    else
      var u := Used(children, n - 1);
      if children[n - 1] == Empty then u
      else if u == NoneUsed then One(n - 1)
      else Many
  }

  /** An extension joined with what its child has become. */
  function FixExtension(key: nibbles, child: Tree): (r: Tree)
    ensures r.Leaf? || r.Extension?
    decreases child
  {
    match child
    case Extension(subKey, subChild) => FixExtension(key + subKey, subChild)
    case Leaf(subKey, v) => Leaf(key + subKey, v)
    case _ => Extension(key, child)
  }

  /** A branch that lost an entry, brought back into shape. */
  function FixBranch(children: seq<Tree>, value: Option<bytes>): Tree
    requires |children| == 16
  {
    match (Used(children, 16), value)
    case (One(a), None) => UsedBound(children, 16); FixExtension([a], children[a])
    case (NoneUsed, Some(v)) => Leaf([], v)
    case _ => Branch(children, value)
  }

  /** Removal; Empty when the node is deleted. */
  function Remove(t: Tree, k: nibbles): Tree
    requires WellFormed(t)
    decreases t
  {
    match t
    case Empty => Empty
    case Leaf(key, _) => if key == k then Empty else t
    case Extension(key, child) =>
      if key <= k then
        var r := Remove(child, k[|key|..]);
        if r == Empty then Empty else if r == child then t else FixExtension(key, r)
      else t
    case Branch(children, value) =>
      if k == [] then
        if value.None? then t else FixBranch(children, None)
      else if children[k[0]] == Empty then t
      else
        var r := Remove(children[k[0]], k[1..]);
        if r == Empty then FixBranch(children[k[0] as int := Empty], value)
        else Branch(children[k[0] as int := r], value)
  }

  // ---- what the scan of the children means ----

  lemma {:induction false} UsedBound(children: seq<Tree>, n: nat)
    requires n <= |children|
    ensures Used(children, n).One? ==> Used(children, n).index < n && children[Used(children, n).index] != Empty
    ensures Used(children, n).One? ==>
      forall i :: 0 <= i < n && i != Used(children, n).index ==> children[i] == Empty
    ensures Used(children, n) == NoneUsed <==> forall i :: 0 <= i < n ==> children[i] == Empty
  {
    if n > 0 { UsedBound(children, n - 1); }
  }

  lemma {:induction false} UsedMany(children: seq<Tree>, n: nat)
    requires n <= |children|
    ensures Used(children, n) == Many <==>
      exists i, j :: 0 <= i < j < n && children[i] != Empty && children[j] != Empty
  {
    if n > 0 {
      UsedMany(children, n - 1);
      UsedBound(children, n - 1);
      UsedBound(children, n);
      if Used(children, n - 1).One? && children[n - 1] != Empty {
        assert children[Used(children, n - 1).index] != Empty && children[n - 1] != Empty;
      }
    }
  }
}
