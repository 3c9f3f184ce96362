/** Iterating over a stored trie: a trail of half-visited nodes and the nibbles that lead to the
    innermost one. */
module TrieIter {
  import opened Bytes
  import RlpSpec
  import opened RlpDecoder
  import opened Nibbles
  import opened Trie
  import opened TrieNode
  import opened TrieBuild
  import opened TrieRoot
  import opened HashStore
  import opened Arena
  import opened TrieLoad
  import opened TrieLookup
  import opened TrieStates
  import opened TrieEntries

  datatype Status = Entering | At | AtChild(index: nat) | Exiting

  datatype Crumb = Crumb(node: RlpNode, status: Status)

  /** What a node is visited for next. */
  function NextStatus(node: RlpNode, status: Status): Status {
    if node.RlpEmpty? then Exiting
    else if status.Entering? then At
    else if node.RlpBranch? && status.At? then AtChild(0)
    else if node.RlpBranch? && status.AtChild? && status.index < 15 then AtChild(status.index + 1)
    else Exiting
  }

  datatype IterItem = Pair(key: bytes, value: bytes) | Incomplete(hash: H256)

  /** The bytes of a node: a reference that is a hash is looked up, anything else is the node. */
  function RawOrLookup(r: Reader, h: HashFn, d: Data, item: bytes): Option<bytes> {
    match r.hash(item)
    case Some(hash) => DbGet(h, d, hash)
    case None => Some(item)
  }

  lemma RawOfChild(r: Reader, h: HashFn, d: Data, t: Tree)
    requires ReadsBack(r) && Canonical(t) && ChildStored(h, d, t)
    ensures RawOrLookup(r, h, d, RlpSpec.Encode(ChildItem(h, t))) == Some(Rlp(h, t))
  {
    assert ReadBack(r, h, t);
  }

  lemma RawOfRoot(r: Reader, h: HashFn, d: Data, t: Tree)
    requires ReadsBack(r) && Loadable(h, d, t)
    ensures RawOrLookup(r, h, d, Rlp(h, t)) == Some(Rlp(h, t))
  {
    assert ReadBack(r, h, t);
  }

  lemma NodeOfRaw(r: Reader, h: HashFn, d: Data, t: Tree)
    requires ReadsBack(r) && Loadable(h, d, t)
    ensures r.node(Rlp(h, t)) == Ok(NodeView(h, t))
  {
    assert ReadBack(r, h, t);
  }

  // ---- what a trail stands for ----

  /** A crumb's node as a tree. */
  datatype Spot = Spot(t: Tree, status: Status)

  ghost predicate SpotOk(s: Spot) {
    match s.t
    case Empty => s.status == Entering
    case Branch(children, _) => |children| == 16 && s.status != Exiting && (s.status.AtChild? ==> s.status.index < 16)
    case _ => s.status == Entering || s.status == At
  }

  /** The nibbles a crumb adds to the key. */
  ghost function Turned(s: Spot): nibbles {
    match s.t
    case Leaf(key, _) => key
    case Extension(key, _) => key
    case Branch(_, _) => if s.status.AtChild? && s.status.index < 16 then [s.status.index] else []
    case Empty => []
  }

  /** The entries still to come from a crumb itself, below its own place. */
  ghost function RestOf(s: Spot): seq<Entry> {
    match s.status
    case Entering => Entries(s.t)
    case At => if s.t.Branch? then KidEntries(s.t.children, 0) else []
    case AtChild(i) => if s.t.Branch? && i < 16 then KidEntries(s.t.children, i + 1) else []
    case Exiting => []
  }

  /** Rounds of the loop a whole node takes. */
  ghost function Rounds(t: Tree): nat
    decreases t, 17
  {
    match t
    case Empty => 1
    case Leaf(_, _) => 2
    case Extension(_, child) => 2 + Rounds(child)
    case Branch(children, _) => 18 + KidRounds(children, 0)
  }

  ghost function KidRounds(children: seq<Tree>, i: nat): nat
    requires i <= 16
    decreases children, 16 - i
  {
    if i == 16 || i >= |children| then 0 else Rounds(children[i]) + KidRounds(children, i + 1)
  }

  ghost function RoundsOf(s: Spot): nat {
    match s.status
    case Entering => Rounds(s.t)
    case At => if s.t.Branch? then 17 + KidRounds(s.t.children, 0) else 1
    case AtChild(i) => if s.t.Branch? && i < 16 then 16 - i + KidRounds(s.t.children, i + 1) else 1
    case Exiting => 0
  }

  ghost function Path(spots: seq<Spot>): nibbles {
    if spots == [] then [] else Path(spots[..|spots| - 1]) + Turned(spots[|spots| - 1])
  }

  ghost function Rest(spots: seq<Spot>): seq<Entry> {
    if spots == [] then []
    else Prefixed(Path(spots[..|spots| - 1]), RestOf(spots[|spots| - 1])) + Rest(spots[..|spots| - 1])
  }

  ghost function RoundsLeft(spots: seq<Spot>): nat {
    if spots == [] then 0 else RoundsOf(spots[|spots| - 1]) + RoundsLeft(spots[..|spots| - 1])
  }

  lemma Snoc(front: seq<Spot>, s: Spot)
    ensures Path(front + [s]) == Path(front) + Turned(s)
    ensures Rest(front + [s]) == Prefixed(Path(front), RestOf(s)) + Rest(front)
    ensures RoundsLeft(front + [s]) == RoundsOf(s) + RoundsLeft(front)
  {
    assert (front + [s])[..|front|] == front;
  }

  lemma LastSpot(spots: seq<Spot>)
    requires spots != []
    ensures spots == spots[..|spots| - 1] + [spots[|spots| - 1]]
  {
  }

  // ---- one round ----

  /** A crumb is left: nothing remained of it. */
  lemma Leaving(front: seq<Spot>, s: Spot)
    requires SpotOk(s)
    requires s.t.Empty? || (!s.t.Branch? && s.status == At) || s.status == AtChild(15)
    ensures Rest(front + [s]) == Rest(front) && RoundsLeft(front) < RoundsLeft(front + [s])
    ensures Path(front + [s]) == Path(front) + Turned(s)
    ensures Path(front + [s])[..|Path(front)|] == Path(front)
  {
    Snoc(front, s);
    PrefixedNone(Path(front), []);
  }

  /** A value is met on entering. */
  lemma Yielding(front: seq<Spot>, t: Tree, value: bytes)
    requires (t.Leaf? && t.leafValue == value) || (t.Branch? && |t.children| == 16 && t.value == Some(value))
    ensures var e := (Path(front + [Spot(t, At)]), value);
      Rest(front + [Spot(t, Entering)]) == [e] + Rest(front + [Spot(t, At)])
    ensures Path(front + [Spot(t, At)]) == Path(front + [Spot(t, Entering)])
    ensures RoundsLeft(front + [Spot(t, At)]) < RoundsLeft(front + [Spot(t, Entering)])
  {
    var p := Path(front);
    Snoc(front, Spot(t, Entering));
    Snoc(front, Spot(t, At));
    var own: seq<Entry> := [(Turned(Spot(t, At)), value)];
    assert RestOf(Spot(t, Entering)) == own + RestOf(Spot(t, At));
    PrefixedAppend(p, own, RestOf(Spot(t, At)));
    assert Prefixed(p, own) == [(p + Turned(Spot(t, At)), value)];
    AppendAssociative(Prefixed(p, own), Prefixed(p, RestOf(Spot(t, At))), Rest(front));
  }

  /** A branch without a value of its own. */
  lemma Passing(front: seq<Spot>, t: Tree)
    requires t.Branch? && |t.children| == 16 && t.value.None?
    ensures Rest(front + [Spot(t, At)]) == Rest(front + [Spot(t, Entering)])
    ensures Path(front + [Spot(t, At)]) == Path(front + [Spot(t, Entering)])
    ensures RoundsLeft(front + [Spot(t, At)]) < RoundsLeft(front + [Spot(t, Entering)])
  {
    Valueless(t);
    Snoc(front, Spot(t, Entering));
    Snoc(front, Spot(t, At));
  }

  lemma Valueless(t: Tree)
    requires t.Branch? && |t.children| == 16 && t.value.None?
    ensures RestOf(Spot(t, Entering)) == RestOf(Spot(t, At)) && Turned(Spot(t, Entering)) == Turned(Spot(t, At))
    ensures RoundsOf(Spot(t, At)) < RoundsOf(Spot(t, Entering))
  {
  }

  /** Going down: the child's entries are taken out of the crumb's. */
  lemma Descending(front: seq<Spot>, s: Spot, after: Spot, child: Tree)
    requires RestOf(s) == Prefixed(Turned(after), Entries(child)) + RestOf(after)
    requires RoundsOf(s) > RoundsOf(after) + Rounds(child)
    ensures Rest(front + [after] + [Spot(child, Entering)]) == Rest(front + [s])
    ensures Path(front + [after] + [Spot(child, Entering)]) == Path(front) + Turned(after) +
      Turned(Spot(child, Entering))
    ensures RoundsLeft(front + [after] + [Spot(child, Entering)]) < RoundsLeft(front + [s])
  {
    var p := Path(front);
    Snoc(front, s);
    Snoc(front, after);
    Snoc(front + [after], Spot(child, Entering));
    PrefixedAppend(p, Prefixed(Turned(after), Entries(child)), RestOf(after));
    PrefixedTwice(p, Turned(after), Entries(child));
    AppendAssociative(Prefixed(p + Turned(after), Entries(child)), Prefixed(p, RestOf(after)), Rest(front));
  }

  lemma BelowExtension(t: Tree)
    requires t.Extension?
    ensures RestOf(Spot(t, Entering)) == Prefixed(Turned(Spot(t, At)), Entries(t.child)) + RestOf(Spot(t, At))
    ensures RoundsOf(Spot(t, Entering)) > RoundsOf(Spot(t, At)) + Rounds(t.child)
  {
  }

  /** From a branch to its next child. */
  lemma BelowBranch(s: Spot, i: nat)
    requires s.t.Branch? && SpotOk(s) && i < 16
    requires s.status == (if i == 0 then At else AtChild(i - 1))
    ensures RestOf(s) == Prefixed(Turned(Spot(s.t, AtChild(i))), Entries(s.t.children[i])) +
      RestOf(Spot(s.t, AtChild(i)))
    ensures RoundsOf(s) > RoundsOf(Spot(s.t, AtChild(i))) + Rounds(s.t.children[i])
    ensures |Turned(s)| == (if i == 0 then 0 else 1) && Turned(Spot(s.t, AtChild(i))) == [i]
  {
  }

  /** The crumb is the spot's node as decoded, and all below it can be read. */
  ghost predicate CrumbFor(h: HashFn, d: Data, c: Crumb, s: Spot) {
    SpotOk(s) && Loadable(h, d, s.t) && c == Crumb(NodeView(h, s.t), s.status)
  }

  ghost predicate TrailFor(h: HashFn, d: Data, trail: seq<Crumb>, spots: seq<Spot>) {
    |trail| == |spots| && forall k :: 0 <= k < |spots| ==> CrumbFor(h, d, trail[k], spots[k])
  }

  lemma TrailLast(h: HashFn, d: Data, trail: seq<Crumb>, front: seq<Spot>, s: Spot)
    requires TrailFor(h, d, trail, front + [s])
    ensures |trail| == |front| + 1 && CrumbFor(h, d, trail[|front|], s)
    ensures TrailFor(h, d, trail[..|front|], front)
  {
    assert (front + [s])[|front|] == s;
    forall k | 0 <= k < |front| ensures CrumbFor(h, d, trail[k], front[k]) {
      assert (front + [s])[k] == front[k];
    }
  }

  lemma TrailPush(h: HashFn, d: Data, trail: seq<Crumb>, front: seq<Spot>, c: Crumb, s: Spot)
    requires TrailFor(h, d, trail, front) && CrumbFor(h, d, c, s)
    ensures TrailFor(h, d, trail + [c], front + [s])
  {
  }

  /** A node to be visited, and the nibbles it adds. */
  lemma TrailEntered(r: Reader, h: HashFn, d: Data, trail: seq<Crumb>, front: seq<Spot>, t: Tree)
    requires ReadsBack(r) && Loadable(h, d, t) && TrailFor(h, d, trail, front)
    ensures var node, s := NodeView(h, t), Spot(t, Entering);
      r.node(Rlp(h, t)) == Ok(node) && TrailFor(h, d, trail + [Crumb(node, Entering)], front + [s]) &&
      Path(front + [s]) == Path(front) + if node.RlpLeaf? || node.RlpExtension? then node.key else []
  {
    NodeOfRaw(r, h, d, t);
    TrailPush(h, d, trail, front, Crumb(NodeView(h, t), Entering), Spot(t, Entering));
    Snoc(front, Spot(t, Entering));
  }

  lemma TrailMove(h: HashFn, d: Data, trail: seq<Crumb>, front: seq<Spot>, s: Spot, after: Spot)
    requires TrailFor(h, d, trail, front + [s]) && after.t == s.t && SpotOk(after)
    ensures TrailFor(h, d, trail[|front| := Crumb(trail[|front|].node, after.status)], front + [after])
  {
    TrailLast(h, d, trail, front, s);
    TrailPush(h, d, trail[..|front|], front, Crumb(trail[|front|].node, after.status), after);
    assert trail[|front| := Crumb(trail[|front|].node, after.status)] == trail[..|front|] +
      [Crumb(trail[|front|].node, after.status)];
  }

  /** How many nibbles a crumb takes back when it is left. */
  function TakenBack(node: RlpNode): nat {
    match node
    case RlpLeaf(key, _) => |key|
    case RlpExtension(key, _) => |key|
    case RlpBranch(_, _) => 1
    case RlpEmpty => 0
  }

  lemma LeavingCrumb(h: HashFn, d: Data, c: Crumb, front: seq<Spot>, s: Spot)
    requires CrumbFor(h, d, c, s) && NextStatus(c.node, c.status) == Exiting
    ensures Rest(front + [s]) == Rest(front) && RoundsLeft(front) < RoundsLeft(front + [s])
    ensures |Path(front + [s])| == |Path(front)| + TakenBack(c.node)
    ensures Path(front + [s])[..|Path(front)|] == Path(front)
  {
    Leaving(front, s);
  }

  /** The nibbles after a turn to child i: the first pushes a nibble, the others change it. */
  function TurnKey(k: nibbles, i: nibble): nibbles
    requires i > 0 ==> k != []
  {
    if i == 0 then k + [0] else k[|k| - 1 := i]
  }

  lemma TurnedKey(front: seq<Spot>, s: Spot, i: nat)
    requires s.t.Branch? && SpotOk(s) && i < 16 && s.status == (if i == 0 then At else AtChild(i - 1))
    ensures i > 0 ==> Path(front + [s]) != []
    ensures Path(front + [Spot(s.t, AtChild(i))]) == TurnKey(Path(front + [s]), i)
  {
    var own: nibbles := if i == 0 then [] else [i - 1];
    assert Turned(s) == own && Turned(Spot(s.t, AtChild(i))) == [i];
    Snoc(front, s);
    Snoc(front, Spot(s.t, AtChild(i)));
    KeyTurned(Path(front), own, i);
  }

  lemma KeyTurned(k: nibbles, own: nibbles, i: nibble)
    requires if i == 0 then own == [] else |own| == 1
    ensures (i > 0 ==> k + own != []) && TurnKey(k + own, i) == k + [i]
  {
    if i > 0 { assert (k + own)[|k| := i] == k + [i]; } else { AppendNothing(k); }
  }

  /** All that a turn to child i does to a trail. */
  lemma Turning(h: HashFn, d: Data, trail: seq<Crumb>, front: seq<Spot>, s: Spot, i: nat)
    requires TrailFor(h, d, trail, front + [s]) && trail != []
    requires NextStatus(trail[|trail| - 1].node, trail[|trail| - 1].status) == AtChild(i)
    ensures s.t.Branch? && i < 16 && Loadable(h, d, s.t) && trail[|trail| - 1].node.RlpBranch? && |s.t.children| == 16
    ensures |trail[|trail| - 1].node.nodes| == 16
    ensures trail[|trail| - 1].node.nodes[i] == RlpSpec.Encode(ChildItem(h, s.t.children[i]))
    ensures i > 0 ==> Path(front + [s]) != []
    ensures Path(front + [Spot(s.t, AtChild(i))]) == TurnKey(Path(front + [s]), i)
    ensures TrailFor(h, d, trail[|trail| - 1 := Crumb(trail[|trail| - 1].node, AtChild(i))],
                     front + [Spot(s.t, AtChild(i))])
  {
    TrailLast(h, d, trail, front, s);
    TurnedKey(front, s, i);
    TrailMove(h, d, trail, front, s, Spot(s.t, AtChild(i)));
  }

  lemma TurningRest(h: HashFn, d: Data, trail: seq<Crumb>, front: seq<Spot>, s: Spot, i: nat)
    requires TrailFor(h, d, trail, front + [s]) && trail != []
    requires NextStatus(trail[|trail| - 1].node, trail[|trail| - 1].status) == AtChild(i)
    ensures s.t.Branch? && |s.t.children| == 16 && i < 16
    ensures Rest(front + [Spot(s.t, AtChild(i))] + [Spot(s.t.children[i], Entering)]) == Rest(front + [s])
    ensures RoundsLeft(front + [Spot(s.t, AtChild(i))] + [Spot(s.t.children[i], Entering)]) < RoundsLeft(front + [s])
  {
    TrailLast(h, d, trail, front, s);
    BelowBranch(s, i);
    Descending(front, s, Spot(s.t, AtChild(i)), s.t.children[i]);
  }

  /** From an extension to its child. */
  lemma IntoExtension(h: HashFn, d: Data, trail: seq<Crumb>, front: seq<Spot>, t: Tree)
    requires TrailFor(h, d, trail, front + [Spot(t, Entering)]) && trail != [] && t.Extension?
    ensures TrailFor(h, d, trail[|trail| - 1 := Crumb(trail[|trail| - 1].node, At)], front + [Spot(t, At)])
    ensures Path(front + [Spot(t, At)]) == Path(front + [Spot(t, Entering)])
    ensures Rest(front + [Spot(t, At)] + [Spot(t.child, Entering)]) == Rest(front + [Spot(t, Entering)])
    ensures RoundsLeft(front + [Spot(t, At)] + [Spot(t.child, Entering)]) < RoundsLeft(front + [Spot(t, Entering)])
  {
    BelowExtension(t);
    Descending(front, Spot(t, Entering), Spot(t, At), t.child);
    Snoc(front, Spot(t, Entering));
    Snoc(front, Spot(t, At));
    TrailMove(h, d, trail, front, Spot(t, Entering), Spot(t, At));
  }

  lemma YieldsFirst(front: seq<Spot>, t: Tree, value: bytes)
    requires (t.Leaf? && t.leafValue == value) || (t.Branch? && |t.children| == 16 && t.value == Some(value))
    ensures Yields(Some(Pair(KeyOf(Path(front + [Spot(t, At)])), value)), Rest(front + [Spot(t, Entering)]),
                   Rest(front + [Spot(t, At)]))
    ensures Path(front + [Spot(t, At)]) == Path(front + [Spot(t, Entering)])
    ensures RoundsLeft(front + [Spot(t, At)]) < RoundsLeft(front + [Spot(t, Entering)])
  {
    Yielding(front, t, value);
  }

  /** Either nothing was yielded and as much is to come, or the first of what was to come. */
  ghost predicate Yields(item: Option<IterItem>, before: seq<Entry>, after: seq<Entry>) {
    match item
    case None => after == before
    case Some(it) => before != [] && after == before[1..] && it == Pair(KeyOf(before[0].0), before[0].1)
  }

  class TrieDBIterator {
    const r: Reader
    const db: MemoryDB
    var trail: seq<Crumb>
    var keyNibbles: nibbles
    ghost var spots: seq<Spot>

    ghost predicate Valid()
      reads this, db
    {
      ReadsBack(r) && keyNibbles == Path(spots) && TrailFor(db.h, db.data, trail, spots)
    }

    /** What is still to come. */
    ghost function Remaining(): seq<Entry>
      reads this
    {
      Rest(spots)
    }

    constructor (r: Reader, db: MemoryDB, root: H256, ghost t: Tree)
      requires ReadsBack(r) && root == RootHash(db.h, t) && Good(db.h, db.data, Disk(t))
      ensures Valid() && Remaining() == Entries(t) && this.db == db && this.r == r
    {
      this.r, this.db := r, db;
      trail, keyNibbles, spots := [], [], [];
      new;
      StoredRoot(db.h, db.data, t);
      RawOfRoot(r, db.h, db.data, t);
      Snoc([], Spot(t, Entering));
      PrefixedNone([], Entries(t));
      var rootData := db.Get(root);
      var raw := GetRawOrLookup(rootData.value);
      DescendInto(raw.value, t, []);
    }

    method GetRawOrLookup(item: bytes) returns (data: Option<bytes>)
      ensures data == RawOrLookup(r, db.h, db.data, item)
    {
      match r.hash(item) {
        case Some(hash) => data := db.Get(hash);
        case None => data := Some(item);
      }
    }

    /** Puts a node on the trail and its key behind the nibbles. */
    method DescendInto(data: bytes, ghost t: Tree, ghost front: seq<Spot>)
      requires ReadsBack(r) && Loadable(db.h, db.data, t) && data == Rlp(db.h, t)
      requires TrailFor(db.h, db.data, trail, front) && keyNibbles == Path(front)
      modifies this
      ensures Valid() && spots == front + [Spot(t, Entering)]
    {
      TrailEntered(r, db.h, db.data, trail, front, t);
      var node := r.node(data).value;
      trail := trail + [Crumb(node, Entering)];
      if node.RlpLeaf? || node.RlpExtension? {
        keyNibbles := keyNibbles + node.key;
      }
      spots := front + [Spot(t, Entering)];
    }

    /** The present key: pairs of nibbles. */
    method Key() returns (result: bytes)
      ensures result == KeyOf(keyNibbles)
    {
      var i := 1;
      result := [];
      ghost var pairs := 0;
      while i < |keyNibbles|
        invariant i == 2 * pairs + 1 && 2 * pairs <= |keyNibbles|
        invariant result == PackPairs(keyNibbles, pairs)
      {
        PackPairsStep(keyNibbles, pairs);
        result := result + [ToByte(keyNibbles[i - 1], keyNibbles[i])];
        i := i + 2;
        pairs := pairs + 1;
      }
      assert pairs == |keyNibbles| / 2;
    }

    /** One round of the loop: the innermost crumb moves on. */
    method Round() returns (item: Option<IterItem>)
      requires Valid() && trail != []
      modifies this
      ensures Valid() && RoundsLeft(spots) < old(RoundsLeft(spots))
      ensures Yields(item, old(Remaining()), Remaining())
    {
      var last := |trail| - 1;
      ghost var front, s := spots[..last], spots[last];
      LastSpot(spots);
      TrailLast(db.h, db.data, trail, front, s);
      var status := NextStatus(trail[last].node, trail[last].status);
      match status {
        case Exiting =>
          PopTrail(front, s);
          item := None;
        case At =>
          item := Arrive(front, s);
        case AtChild(i) =>
          TurnToChild(i, front, s);
          item := None;
        case Entering =>
          assert false;
      }
    }

    /** Leaves the innermost node and takes its nibbles back. */
    method PopTrail(ghost front: seq<Spot>, ghost s: Spot)
      requires Valid() && spots == front + [s] && trail != []
      requires NextStatus(trail[|trail| - 1].node, trail[|trail| - 1].status) == Exiting
      modifies this
      ensures Valid() && RoundsLeft(spots) < old(RoundsLeft(spots)) && Remaining() == old(Remaining())
    {
      TrailLast(db.h, db.data, trail, front, s);
      LeavingCrumb(db.h, db.data, trail[|trail| - 1], front, s);
      keyNibbles := keyNibbles[..|keyNibbles| - TakenBack(trail[|trail| - 1].node)];
      trail := trail[..|trail| - 1];
      spots := front;
    }

    /** At a node just entered: its value is yielded, or an extension is followed. */
    method Arrive(ghost front: seq<Spot>, ghost s: Spot) returns (item: Option<IterItem>)
      requires Valid() && spots == front + [s] && trail != [] && CrumbFor(db.h, db.data, trail[|trail| - 1], s)
      requires NextStatus(trail[|trail| - 1].node, trail[|trail| - 1].status) == At
      modifies this
      ensures Valid() && RoundsLeft(spots) < old(RoundsLeft(spots))
      ensures Yields(item, old(Remaining()), Remaining())
    {
      var last := |trail| - 1;
      var node := trail[last].node;
      match node {
        case RlpLeaf(_, v) =>
          item := YieldValue(v, front, s.t);
        case RlpExtension(_, raw) =>
          FollowExtension(raw, front, s.t);
          item := None;
        case RlpBranch(_, value) =>
          if value.Some? {
            item := YieldValue(value.value, front, s.t);
          } else {
            Passing(front, s.t);
            MarkAt(front, s.t);
            item := None;
          }
        case RlpEmpty =>
          assert false;
      }
    }

    method FollowExtension(raw: bytes, ghost front: seq<Spot>, ghost t: Tree)
      requires Valid() && spots == front + [Spot(t, Entering)] && trail != []
      requires t.Extension? && Loadable(db.h, db.data, t) && raw == RlpSpec.Encode(ChildItem(db.h, t.child))
      modifies this
      ensures Valid() && RoundsLeft(spots) < old(RoundsLeft(spots)) && Remaining() == old(Remaining())
    {
      LoadableChild(db.h, db.data, t);
      RawOfChild(r, db.h, db.data, t.child);
      IntoExtension(db.h, db.data, trail, front, t);
      var last := |trail| - 1;
      trail := trail[last := Crumb(trail[last].node, At)];
      var data := GetRawOrLookup(raw);
      DescendInto(data.value, t.child, front + [Spot(t, At)]);
    }

    /** The innermost node is no longer just entered. */
    method MarkAt(ghost front: seq<Spot>, ghost t: Tree)
      requires Valid() && spots == front + [Spot(t, Entering)] && trail != [] && t != Empty
      requires Path(front + [Spot(t, At)]) == Path(front + [Spot(t, Entering)])
      modifies this
      ensures Valid() && spots == front + [Spot(t, At)] && keyNibbles == old(keyNibbles)
    {
      TrailLast(db.h, db.data, trail, front, Spot(t, Entering));
      TrailMove(db.h, db.data, trail, front, Spot(t, Entering), Spot(t, At));
      var last := |trail| - 1;
      trail := trail[last := Crumb(trail[last].node, At)];
      spots := front + [Spot(t, At)];
    }

    method YieldValue(value: bytes, ghost front: seq<Spot>, ghost t: Tree) returns (item: Option<IterItem>)
      requires Valid() && trail != [] && spots == front + [Spot(t, Entering)]
      requires (t.Leaf? && t.leafValue == value) || (t.Branch? && |t.children| == 16 && t.value == Some(value))
      modifies this
      ensures Valid() && RoundsLeft(spots) < old(RoundsLeft(spots))
      ensures item.Some? && Yields(item, old(Remaining()), Remaining())
    {
      YieldsFirst(front, t, value);
      MarkAt(front, t);
      var key := Key();
      item := Some(Pair(key, value));
    }

    /** Turns to child i of a branch and enters it. */
    method TurnToChild(i: nat, ghost front: seq<Spot>, ghost s: Spot)
      requires Valid() && spots == front + [s] && trail != [] && CrumbFor(db.h, db.data, trail[|trail| - 1], s)
      requires NextStatus(trail[|trail| - 1].node, trail[|trail| - 1].status) == AtChild(i)
      modifies this
      ensures Valid() && RoundsLeft(spots) < old(RoundsLeft(spots)) && Remaining() == old(Remaining())
    {
      TurningRest(db.h, db.data, trail, front, s, i);
      var raw := MarkChild(i, front, s);
      EnterChild(raw, i, s.t, front + [Spot(s.t, AtChild(i))]);
    }

    /** The innermost node is at child i, and so is the key. */
    method MarkChild(i: nat, ghost front: seq<Spot>, ghost s: Spot) returns (raw: bytes)
      requires Valid() && spots == front + [s] && trail != []
      requires NextStatus(trail[|trail| - 1].node, trail[|trail| - 1].status) == AtChild(i)
      modifies this
      ensures s.t.Branch? && |s.t.children| == 16 && i < 16 && Loadable(db.h, db.data, s.t)
      ensures raw == RlpSpec.Encode(ChildItem(db.h, s.t.children[i]))
      ensures TrailFor(db.h, db.data, trail, front + [Spot(s.t, AtChild(i))]) &&
        keyNibbles == Path(front + [Spot(s.t, AtChild(i))])
    {
      Turning(db.h, db.data, trail, front, s, i);
      var last := |trail| - 1;
      raw := trail[last].node.nodes[i];
      trail := trail[last := Crumb(trail[last].node, AtChild(i))];
      if i == 0 {
        keyNibbles := keyNibbles + [0];
      } else {
        keyNibbles := keyNibbles[|keyNibbles| - 1 := i];
      }
    }

    method EnterChild(raw: bytes, ghost i: nat, ghost t: Tree, ghost front: seq<Spot>)
      requires ReadsBack(r) && t.Branch? && i < 16 && Loadable(db.h, db.data, t)
      requires raw == RlpSpec.Encode(ChildItem(db.h, t.children[i]))
      requires TrailFor(db.h, db.data, trail, front) && keyNibbles == Path(front)
      modifies this
      ensures Valid() && spots == front + [Spot(t.children[i], Entering)]
    {
      LoadableBranchChild(db.h, db.data, t, i);
      RawOfChild(r, db.h, db.data, t.children[i]);
      var data := GetRawOrLookup(raw);
      DescendInto(data.value, t.children[i], front);
    }

    /** The next entry, or None for good when there is none left. */
    method Next() returns (item: Option<IterItem>)
      requires Valid()
      modifies this
      ensures Valid()
      ensures item.None? <==> old(Remaining()) == []
      ensures Yields(item, old(Remaining()), Remaining())
    {
      while true
        invariant Valid() && Remaining() == old(Remaining())
        decreases RoundsLeft(spots)
      {
        if trail == [] {
          return None;
        }
        item := Round();
        if item.Some? {
          return;
        }
      }
    }
  }

  /** Running the iterator to its end lists the map: each pair once, keys strictly increasing. */
  method IterateAll(db: MemoryDB, root: H256, ghost t: Tree, ghost m: Contents) returns (v: seq<TrieRoot.Pair>)
    requires Means(t, m) && root == RootHash(db.h, t) && Good(db.h, db.data, Disk(t))
    ensures Lists(v, m)
  {
    TrieReaderReadsBack();
    var iter := new TrieDBIterator(TrieReader(), db, root, t);
    v := Drain(iter);
    EntriesListMap(t, m);
  }

  /** What was yielded, and what is to come, make up all. */
  ghost predicate Split(v: seq<TrieRoot.Pair>, rest: seq<Entry>, all: seq<Entry>) {
    v + ToPairs(rest) == ToPairs(all)
  }

  lemma SplitStep(v: seq<TrieRoot.Pair>, rest: seq<Entry>, all: seq<Entry>)
    requires Split(v, rest, all) && rest != []
    ensures Split(v + [(KeyOf(rest[0].0), rest[0].1)], rest[1..], all)
  {
    assert ToPairs(rest) == [(KeyOf(rest[0].0), rest[0].1)] + ToPairs(rest[1..]);
    AppendAssociative(v, [(KeyOf(rest[0].0), rest[0].1)], ToPairs(rest[1..]));
  }

  /** Collects what an iterator yields until it ends. */
  method Drain(iter: TrieDBIterator) returns (v: seq<TrieRoot.Pair>)
    requires iter.Valid()
    modifies iter
    ensures v == ToPairs(old(iter.Remaining())) && iter.Remaining() == []
  {
    v := [];
    ghost var all := iter.Remaining();
    assert [] + ToPairs(all) == ToPairs(all);
    while true
      invariant iter.Valid() && Split(v, iter.Remaining(), all)
      decreases |iter.Remaining()|
    {
      ghost var rest := iter.Remaining();
      var item := iter.Next();
      if item.None? {
        break;
      }
      SplitStep(v, rest, all);
      v := v + [(item.value.key, item.value.value)];
    }
    assert v + [] == v;
  }
}
