/** Reading a trie straight out of the store, and the proofs recorded on the way. */
module TrieLookup {
  import opened Bytes
  import opened RlpSpec
  import opened RlpDecoder
  import opened RlpRoundTrip
  import opened Nibbles
  import opened Trie
  import opened TrieShape
  import opened TrieNode
  import opened HashStore
  import opened Arena
  import opened TrieLoad

  /** Depth is counted in 32 bits. */
  const MAX_DEPTH := 0x1_0000_0000

  /** Where the walk over inlined nodes ends; Panic where the node decoder gives up. */
  datatype Walked = Done(value: Option<bytes>) | Next(hash: H256, key: nibbles) | Panic

  datatype Answer = Found(value: Option<bytes>) | Missing(hash: H256) | Malformed | TooDeep

  /** How stored bytes are read: a node's parts, and the hash a reference is, if it is one. */
  datatype RawReader = RawReader(node: bytes -> Result<RlpNode>, hash: bytes -> Option<H256>)

  /** The references found in a node are shorter than the node. */
  type Reader = r: RawReader | Shrinks(r.node) witness RawReader(b => Err(RlpIsTooShort), b => None)

  ghost predicate Shrinks(node: bytes -> Result<RlpNode>) {
    forall b :: node(b).Ok? ==> ItemsShorter(node(b).value, |b|)
  }

  ghost predicate ItemsShorter(node: RlpNode, n: nat) {
    match node
    case RlpExtension(_, item) => |item| < n
    case RlpBranch(nodes, _) => |nodes| == 16 && forall i :: 0 <= i < 16 ==> |nodes[i]| < n
    case _ => true
  }

  /** In an encoded node it finds what was encoded, and knows hashes from inlined nodes. */
  ghost predicate ReadsBack(r: Reader) {
    forall h: HashFn, t: Tree :: ReadBack(r, h, t)
  }

  ghost predicate ReadBack(r: Reader, h: HashFn, t: Tree) {
    Canonical(t) ==> ChildReadBack(r, h, t) && (SmallNode(t) ==> NodeReadBack(r, h, t))
  }

  ghost predicate NodeReadBack(r: Reader, h: HashFn, t: Tree) {
    r.node(Rlp(h, t)) == Ok(NodeView(h, t)) && r.hash(Rlp(h, t)) == None
  }

  ghost predicate ChildReadBack(r: Reader, h: HashFn, t: Tree) {
    r.hash(Encode(ChildItem(h, t))) == (if Hashed(h, t) then Some(RootHash(h, t)) else None) &&
    (!Hashed(h, t) ==> Encode(ChildItem(h, t)) == Rlp(h, t))
  }

  function HashOfItem(item: bytes): Option<H256> {
    if IsHashItem(item) then
      HashItemPayload(item);
      Some(Payload(item).value)
    else None
  }

  lemma HashItemPayload(item: bytes)
    requires IsHashItem(item)
    ensures Payload(item).Ok? && |Payload(item).value| == 32
  {
  }

  /** The reader the trie uses. */
  function TrieReader(): Reader {
    NodeDecoderShrinks();
    RawReader(DecodeNode, HashOfItem)
  }

  lemma NodeDecoderShrinks()
    ensures Shrinks(DecodeNode)
  {
    forall b | DecodeNode(b).Ok?
      ensures ItemsShorter(DecodeNode(b).value, |b|)
    {
      DecodedItemsShorter(b);
    }
  }

  lemma TrieReaderReadsBack()
    ensures ReadsBack(TrieReader())
  {
    forall h: HashFn, t: Tree ensures ReadBack(TrieReader(), h, t) {
      if Canonical(t) { ChildKinds(h, t); }
      if Canonical(t) && SmallNode(t) {
        SmallNodeRlp(h, t);
        DecodeNodeOfRlp(h, t);
        NodeIsNoHash(h, t);
      }
    }
  }

  /** A node is a list, or empty data. */
  lemma NodeIsNoHash(h: HashFn, t: Tree)
    requires |Rlp(h, t)| <= USIZE_MAX
    ensures !IsHashItem(Rlp(h, t))
  {
    FrontOfEncoded(NodeItem(h, t), []);
    PayloadOfEncoded(NodeItem(h, t));
    assert Rlp(h, t) + [] == Rlp(h, t);
  }

  lemma DecodedItemsShorter(b: bytes)
    requires DecodeNode(b).Ok?
    ensures ItemsShorter(DecodeNode(b).value, |b|)
  {
    if DecodeNode(b) == DecodeTwo(b) {
      TwoShorter(b);
    } else if DecodeNode(b) == DecodeSeventeen(b) {
      SeventeenShorter(b);
    }
  }

  lemma TwoShorter(b: bytes)
    requires DecodeTwo(b).Ok?
    ensures ItemsShorter(DecodeTwo(b).value, |b|)
  {
    ElementShorter(b, 1);
  }

  lemma SeventeenShorter(b: bytes)
    requires DecodeSeventeen(b).Ok?
    ensures ItemsShorter(DecodeSeventeen(b).value, |b|)
  {
    RawElementsShorter(b, 16);
  }

  lemma {:induction false} RawElementsShorter(b: bytes, n: nat)
    requires RawElements(b, n).Ok?
    ensures |RawElements(b, n).value| == n
    ensures forall i :: 0 <= i < n ==> |RawElements(b, n).value[i]| < |b|
  {
    if n > 0 {
      RawElementsShorter(b, n - 1);
      ElementShorter(b, n - 1);
    }
  }

  function Walk(r: Reader, b: bytes, key: nibbles): Walked
    decreases |b|, 0
  {
    match r.node(b)
    case Err(_) => Panic
    case Ok(RlpEmpty) => Done(None)
    case Ok(RlpLeaf(slice, v)) => Done(if slice == key then Some(v) else None)
    case Ok(RlpExtension(slice, item)) =>
      if slice <= key then WalkOn(r, item, key[|slice|..], |b|) else Done(None)
    case Ok(RlpBranch(nodes, v)) =>
      assert ItemsShorter(r.node(b).value, |b|);
      if key == [] then Done(v) else WalkOn(r, nodes[key[0]], key[1..], |b|)
  }

  /** A hash ends the walk in this node; an inlined node continues it. */
  function WalkOn(r: Reader, item: bytes, key: nibbles, ghost bound: nat): Walked
    requires |item| < bound
    decreases bound - 1, 1
  {
    match r.hash(item)
    case Some(hash) => Next(hash, key)
    case None => Walk(r, item, key)
  }

  /** The lookup over hashed nodes, at most fuel of them. */
  function LookUp(r: Reader, h: HashFn, d: Data, hash: H256, key: nibbles, fuel: nat): Answer
    decreases fuel, 0
  {
    if fuel == 0 then TooDeep
    else
      match DbGet(h, d, hash)
      case None => Missing(hash)
      case Some(b) => Resume(r, h, d, Walk(r, b, key), fuel - 1)
  }

  /** The lookup after a walk through one hashed node. */
  function Resume(r: Reader, h: HashFn, d: Data, w: Walked, fuel: nat): Answer
    decreases fuel, 1
  {
    match w
    case Done(v) => Found(v)
    case Next(next, rest) => LookUp(r, h, d, next, rest, fuel)
    case Panic => Malformed
  }

  datatype Record = Record(depth: nat, data: bytes, hash: H256)

  /** The nodes a lookup visits, its first at the given depth. */
  function Visited(r: Reader, h: HashFn, d: Data, hash: H256, key: nibbles, fuel: nat, depth: nat): seq<Record>
    decreases fuel, 0
  {
    if fuel == 0 || DbGet(h, d, hash).None? then []
    else
      var b := DbGet(h, d, hash).value;
      [Record(depth, b, hash)] + VisitedAfter(r, h, d, Walk(r, b, key), fuel - 1, depth + 1)
  }

  function VisitedAfter(r: Reader, h: HashFn, d: Data, w: Walked, fuel: nat, depth: nat): seq<Record>
    decreases fuel, 1
  {
    if w.Next? then Visited(r, h, d, w.hash, w.key, fuel, depth) else []
  }

  // ---- lookups in a stored trie ----

  ghost predicate StoredBelow(h: HashFn, d: Data, s: Tree, hash: H256) {
    hash == RootHash(h, s) && Good(h, d, Disk(s))
  }

  /** A walk gave the answer, or stopped at the hash of a stored lower trie s that gives it for the rest of
      the key. */
  ghost predicate WalkedTo(h: HashFn, d: Data, w: Walked, s: Tree, height: nat, answer: Option<bytes>) {
    match w
    case Done(v) => v == answer
    case Next(hash, rest) => StoredBelow(h, d, s, hash) && Height(s) < height && Lookup(s, rest) == answer
    case Panic => false
  }

  lemma {:induction false} WalkStored(r: Reader, h: HashFn, d: Data, t: Tree, key: nibbles) returns (s: Tree)
    requires ReadsBack(r) && Loadable(h, d, t)
    ensures WalkedTo(h, d, Walk(r, Rlp(h, t), key), s, Height(t), Lookup(t, key))
    decreases t, 0
  {
    assert ReadBack(r, h, t);
    if t.Extension? && t.key <= key {
      LoadableChild(h, d, t);
      WalkExtension(r, h, t, key);
      s := WalkChild(r, h, d, t.child, key[|t.key|..], |Rlp(h, t)|, Height(t));
    } else if t.Branch? && key != [] {
      LoadableBranchChild(h, d, t, key[0]);
      WalkBranch(r, h, t, key);
      ChildIsLower(t, key[0]);
      s := WalkChild(r, h, d, t.children[key[0]], key[1..], |Rlp(h, t)|, Height(t));
    } else {
      s := t;
      WalkEnds(r, h, t, key);
    }
  }

  lemma WalkEnds(r: Reader, h: HashFn, t: Tree, key: nibbles)
    requires Canonical(t) && NodeReadBack(r, h, t)
    requires t.Extension? ==> !(t.key <= key)
    requires t.Branch? ==> key == []
    ensures Walk(r, Rlp(h, t), key) == Done(Lookup(t, key))
  {
  }

  lemma WalkExtension(r: Reader, h: HashFn, t: Tree, key: nibbles)
    requires t.Extension? && t.key <= key && NodeReadBack(r, h, t)
    ensures |Encode(ChildItem(h, t.child))| < |Rlp(h, t)|
    ensures Walk(r, Rlp(h, t), key) == WalkOn(r, Encode(ChildItem(h, t.child)), key[|t.key|..], |Rlp(h, t)|)
    ensures Lookup(t, key) == Lookup(t.child, key[|t.key|..])
  {
    assert ItemsShorter(r.node(Rlp(h, t)).value, |Rlp(h, t)|);
  }

  lemma WalkBranch(r: Reader, h: HashFn, t: Tree, key: nibbles)
    requires t.Branch? && |t.children| == 16 && key != [] && NodeReadBack(r, h, t)
    ensures |Encode(ChildItem(h, t.children[key[0]]))| < |Rlp(h, t)|
    ensures Walk(r, Rlp(h, t), key) == WalkOn(r, Encode(ChildItem(h, t.children[key[0]])), key[1..], |Rlp(h, t)|)
    ensures Lookup(t, key) == Lookup(t.children[key[0]], key[1..])
  {
    var b := Rlp(h, t);
    assert ItemsShorter(r.node(b).value, |b|);
    assert r.node(b).value.nodes[key[0]] == Encode(ChildItem(h, t.children[key[0]]));
  }

  lemma {:induction false} WalkChild(r: Reader, h: HashFn, d: Data, t: Tree, rest: nibbles, bound: nat, height: nat)
    returns (s: Tree)
    requires ReadsBack(r) && Loadable(h, d, t) && ChildStored(h, d, t) && Height(t) < height
    requires |Encode(ChildItem(h, t))| < bound
    ensures WalkedTo(h, d, WalkOn(r, Encode(ChildItem(h, t)), rest, bound), s, height, Lookup(t, rest))
    decreases t, 1
  {
    assert ReadBack(r, h, t);
    if Hashed(h, t) {
      s := t;
    } else {
      s := WalkStored(r, h, d, t, rest);
    }
  }

  /** A stored trie answers from the store as it does as a value. */
  lemma LookUpStored(r: Reader, h: HashFn, d: Data, t: Tree, key: nibbles, fuel: nat)
    requires ReadsBack(r) && Good(h, d, Disk(t)) && Height(t) < fuel
    ensures LookUp(r, h, d, RootHash(h, t), key, fuel) == Found(Lookup(t, key))
  {
    LookUpFrom(r, h, d, RootHash(h, t), t, key, Lookup(t, key), fuel);
  }

  ghost predicate Finds(r: Reader, h: HashFn, d: Data, hash: H256, key: nibbles, fuel: nat, answer: Option<bytes>) {
    LookUp(r, h, d, hash, key, fuel) == Found(answer)
  }

  /** t, of which hash is the root, gives the answer. */
  ghost predicate Answers(h: HashFn, d: Data, hash: H256, t: Tree, key: nibbles, answer: Option<bytes>, fuel: nat) {
    StoredBelow(h, d, t, hash) && Height(t) < fuel && Lookup(t, key) == answer
  }

  lemma {:induction false} LookUpFrom(r: Reader, h: HashFn, d: Data, hash: H256, t: Tree, key: nibbles,
                                      answer: Option<bytes>, fuel: nat)
    requires ReadsBack(r) && Answers(h, d, hash, t, key, answer, fuel)
    ensures Finds(r, h, d, hash, key, fuel, answer)
    decreases fuel
  {
    var w, s := LookUpRoot(r, h, d, hash, t, key, answer, fuel);
    if w.Next? {
      var rest := fuel - 1;
      LookUpFrom(r, h, d, w.hash, s, w.key, answer, rest);
    }
  }

  lemma LookUpReads(r: Reader, h: HashFn, d: Data, hash: H256, key: nibbles, fuel: nat)
    requires fuel > 0 && DbGet(h, d, hash).Some?
    ensures LookUp(r, h, d, hash, key, fuel) == Resume(r, h, d, Walk(r, DbGet(h, d, hash).value, key), fuel - 1)
  {
  }

  /** The first hashed node gives the answer, or leads to a stored lower trie that does. */
  lemma LookUpRoot(r: Reader, h: HashFn, d: Data, hash: H256, t: Tree, key: nibbles, answer: Option<bytes>, fuel: nat)
    returns (w: Walked, s: Tree)
    requires ReadsBack(r) && Answers(h, d, hash, t, key, answer, fuel)
    ensures fuel > 0
    ensures !w.Next? ==> Finds(r, h, d, hash, key, fuel, answer)
    ensures w.Next? ==> Answers(h, d, w.hash, s, w.key, answer, fuel - 1)
    ensures w.Next? && Finds(r, h, d, w.hash, w.key, fuel - 1, answer) ==> Finds(r, h, d, hash, key, fuel, answer)
  {
    StoredRoot(h, d, t);
    w := Walk(r, Rlp(h, t), key);
    LookUpReads(r, h, d, hash, key, fuel);
    s := WalkStored(r, h, d, t, key);
  }

  lemma StoredRoot(h: HashFn, d: Data, t: Tree)
    requires Good(h, d, Disk(t))
    ensures DbGet(h, d, RootHash(h, t)) == Some(Rlp(h, t)) && Loadable(h, d, t)
  {
  }

  // ---- the lookup as the source runs it, with its recorder ----

  /** The records a recorder keeps. */
  function AtLeast(records: seq<Record>, minDepth: nat): (kept: seq<Record>)
    ensures minDepth == 0 ==> kept == records
  {
    if records == [] then []
    else
      var front := AtLeast(records[..|records| - 1], minDepth);
      var last := records[|records| - 1];
      if last.depth >= minDepth then
        assert records == records[..|records| - 1] + [last];
        front + [last]
      else front
  }

  class Recorder {
    const minDepth: nat
    var nodes: seq<Record>

    constructor WithDepth(depth: nat)
      ensures minDepth == depth && nodes == []
    {
      minDepth := depth;
      nodes := [];
    }

    method Note(hash: H256, data: bytes, depth: nat)
      modifies this
      ensures nodes == old(nodes) + AtLeast([Record(depth, data, hash)], minDepth)
    {
      if depth >= minDepth {
        nodes := nodes + [Record(depth, data, hash)];
      }
    }

    /** Hands over what was recorded and starts afresh. */
    method Drain() returns (drained: seq<Record>)
      modifies this
      ensures drained == old(nodes) && nodes == []
    {
      drained := nodes;
      nodes := [];
    }
  }

  lemma {:induction false} AtLeastAppend(a: seq<Record>, b: seq<Record>, minDepth: nat)
    ensures AtLeast(a + b, minDepth) == AtLeast(a, minDepth) + AtLeast(b, minDepth)
  {
    if b == [] {
      assert a + b == a;
    } else {
      var front := b[..|b| - 1];
      AtLeastAppend(a, front, minDepth);
      assert (a + b)[..|a + b| - 1] == a + front;
      assert (a + b)[|a + b| - 1] == b[|b| - 1];
    }
  }

  /** The inner loop: from one hashed node through the nodes inlined in it. */
  method WalkNode(r: Reader, data: bytes, key: nibbles) returns (w: Walked)
    ensures w == Walk(r, data, key)
  {
    var nodeData, rest := data, key;
    while true
      invariant Walk(r, data, key) == Walk(r, nodeData, rest)
      decreases |nodeData|
    {
      match r.node(nodeData) {
        case Err(_) => return Panic;
        case Ok(RlpEmpty) => return Done(None);
        case Ok(RlpLeaf(slice, value)) => return Done(if slice == rest then Some(value) else None);
        case Ok(RlpExtension(slice, item)) =>
          if !(slice <= rest) {
            return Done(None);
          }
          nodeData, rest := item, rest[|slice|..];
        case Ok(RlpBranch(children, value)) =>
          assert ItemsShorter(r.node(nodeData).value, |nodeData|);
          if rest == [] {
            return Done(value);
          }
          nodeData, rest := children[rest[0]], rest[1..];
      }
      match r.hash(nodeData) {
        case Some(hash) => return Next(hash, rest);
        case None =>
      }
    }
  }

  ghost predicate Recorded(recorder: Recorder?, before: seq<Record>, seen: seq<Record>)
    reads recorder
  {
    recorder != null ==> recorder.nodes == before + AtLeast(seen, recorder.minDepth)
  }

  /** What a query records of a visited node. */
  method QueryRecord(recorder: Recorder?, hash: H256, data: bytes, depth: nat, ghost before: seq<Record>,
                     ghost seen: seq<Record>)
    requires Recorded(recorder, before, seen)
    modifies recorder
    ensures Recorded(recorder, before, seen + [Record(depth, data, hash)])
  {
    if recorder != null {
      recorder.Note(hash, data, depth);
      AtLeastAppend(seen, [Record(depth, data, hash)], recorder.minDepth);
    }
  }

  /** One round of the outer loop: a hashed node is read, recorded and walked through. */
  method VisitNode(r: Reader, db: MemoryDB, recorder: Recorder?, w: Walked, depth: nat, ghost limit: nat,
                   ghost whole: Outcome, ghost before: seq<Record>, ghost seen: seq<Record>)
    returns (found: bool, next: Walked)
    requires w.Next? && depth < limit && Pending(r, db.h, db.data, whole, seen, w, depth, limit)
    requires Recorded(recorder, before, seen)
    modifies recorder
    ensures found <==> DbGet(db.h, db.data, w.hash).Some?
    ensures !found ==> whole == Outcome(Missing(w.hash), seen) && Recorded(recorder, before, seen)
    ensures found ==>
      var now := seen + [Record(depth, DbGet(db.h, db.data, w.hash).value, w.hash)];
      Pending(r, db.h, db.data, whole, now, next, depth + 1, limit) && Recorded(recorder, before, now)
  {
    next := w;
    var data := db.Get(w.hash);
    found := data.Some?;
    if found {
      QueryRecord(recorder, w.hash, data.value, depth, before, seen);
      OneMoreVisited(r, db.h, db.data, whole, seen, w, depth, limit);
      next := WalkNode(r, data.value, w.key);
    } else {
      NothingMore(r, db.h, db.data, whole, seen, w, depth, limit);
    }
  }

  /** The outer loop, over hashed nodes; a null recorder stands for a query that records nothing. */
  method LookUpRecorded(r: Reader, db: MemoryDB, recorder: Recorder?, root: H256, key: nibbles, limit: nat)
    returns (answer: Answer, ghost seen: seq<Record>)
    modifies recorder
    ensures answer == LookUp(r, db.h, db.data, root, key, limit)
    ensures seen == Visited(r, db.h, db.data, root, key, limit, 0)
    ensures recorder != null ==> recorder.nodes == old(recorder.nodes) + AtLeast(seen, recorder.minDepth)
  {
    var w, depth := Next(root, key), 0;
    seen := [];
    ghost var before := if recorder == null then [] else recorder.nodes;
    ghost var whole := Outcome(LookUp(r, db.h, db.data, root, key, limit),
                               Visited(r, db.h, db.data, root, key, limit, 0));
    while depth < limit && w.Next?
      invariant depth <= limit && Pending(r, db.h, db.data, whole, seen, w, depth, limit)
      invariant Recorded(recorder, before, seen)
      decreases limit - depth
    {
      var found, next := VisitNode(r, db, recorder, w, depth, limit, whole, before, seen);
      if !found {
        return Missing(w.hash), seen;
      }
      seen := seen + [Record(depth, DbGet(db.h, db.data, w.hash).value, w.hash)];
      w, depth := next, depth + 1;
    }
    NothingMore(r, db.h, db.data, whole, seen, w, depth, limit);
    answer := Stopped(w, depth, limit);
  }

  /** What a lookup answers, and what it visits on the way. */
  datatype Outcome = Outcome(answer: Answer, visited: seq<Record>)

  /** What was visited so far, and where the rest of the lookup starts. */
  ghost predicate Pending(r: Reader, h: HashFn, d: Data, whole: Outcome, seen: seq<Record>, w: Walked, depth: nat,
                          limit: nat)
    requires depth <= limit
  {
    whole == Outcome(Resume(r, h, d, w, limit - depth), seen + VisitedAfter(r, h, d, w, limit - depth, depth))
  }

  /** The answer where no further node is read. */
  function Stopped(w: Walked, depth: nat, limit: nat): Answer {
    match w
    case Done(v) => Found(v)
    case Panic => Malformed
    case Next(hash, _) => if depth >= limit then TooDeep else Missing(hash)
  }

  lemma NothingMore(r: Reader, h: HashFn, d: Data, whole: Outcome, seen: seq<Record>, w: Walked, depth: nat, limit: nat)
    requires depth <= limit && Pending(r, h, d, whole, seen, w, depth, limit)
    requires w.Next? ==> depth == limit || DbGet(h, d, w.hash).None?
    ensures whole == Outcome(Stopped(w, depth, limit), seen)
  {
    ResumeStopped(r, h, d, w, depth, limit);
    AppendNothing(seen);
  }

  lemma ResumeStopped(r: Reader, h: HashFn, d: Data, w: Walked, depth: nat, limit: nat)
    requires depth <= limit
    requires w.Next? ==> depth == limit || DbGet(h, d, w.hash).None?
    ensures Resume(r, h, d, w, limit - depth) == Stopped(w, depth, limit)
    ensures VisitedAfter(r, h, d, w, limit - depth, depth) == []
  {
  }

  lemma OneMoreVisited(r: Reader, h: HashFn, d: Data, whole: Outcome, seen: seq<Record>, w: Walked, depth: nat,
                       limit: nat)
    requires depth < limit && Pending(r, h, d, whole, seen, w, depth, limit)
    requires w.Next? && DbGet(h, d, w.hash).Some?
    ensures var b := DbGet(h, d, w.hash).value;
      Pending(r, h, d, whole, seen + [Record(depth, b, w.hash)], Walk(r, b, w.key), depth + 1, limit)
  {
    var b := DbGet(h, d, w.hash).value;
    VisitedCons(r, h, d, w.hash, w.key, limit - depth, depth);
    AppendCons(seen, Record(depth, b, w.hash), VisitedAfter(r, h, d, Walk(r, b, w.key), limit - depth - 1, depth + 1));
  }

  lemma AppendCons<T>(a: seq<T>, x: T, b: seq<T>)
    ensures a + ([x] + b) == a + [x] + b
  {
  }

  lemma VisitedCons(r: Reader, h: HashFn, d: Data, hash: H256, key: nibbles, fuel: nat, depth: nat)
    requires fuel > 0 && DbGet(h, d, hash).Some?
    ensures var b := DbGet(h, d, hash).value;
      Visited(r, h, d, hash, key, fuel, depth) ==
      [Record(depth, b, hash)] + VisitedAfter(r, h, d, Walk(r, b, key), fuel - 1, depth + 1)
    ensures LookUp(r, h, d, hash, key, fuel) == Resume(r, h, d, Walk(r, DbGet(h, d, hash).value, key), fuel - 1)
  {
  }

  /** The nodes visited come one deeper each, and are in the store. */
  lemma {:induction false} VisitedAt(r: Reader, h: HashFn, d: Data, hash: H256, key: nibbles, fuel: nat, depth: nat,
                                     i: nat)
    requires i < |Visited(r, h, d, hash, key, fuel, depth)|
    ensures var record := Visited(r, h, d, hash, key, fuel, depth)[i];
      record.depth == depth + i && DbGet(h, d, record.hash) == Some(record.data)
    decreases fuel
  {
    VisitedCons(r, h, d, hash, key, fuel, depth);
    var w := Walk(r, DbGet(h, d, hash).value, key);
    if i > 0 { VisitedAt(r, h, d, w.hash, w.key, fuel - 1, depth + 1, i - 1); }
  }

  lemma {:induction false} KeptFrom(records: seq<Record>, minDepth: nat)
    requires forall i :: 0 <= i < |records| ==> records[i].depth == i
    ensures AtLeast(records, minDepth) == records[if minDepth < |records| then minDepth else |records|..]
  {
    if records != [] {
      var n := |records| - 1;
      KeptFrom(records[..n], minDepth);
      if minDepth <= n { assert records[minDepth..] == records[..n][minDepth..] + [records[n]]; }
    }
  }

  /** A recorder keeps all visited nodes but as many at the start as its minimal depth says. */
  lemma RecorderKeeps(r: Reader, h: HashFn, d: Data, hash: H256, key: nibbles, fuel: nat, minDepth: nat)
    ensures var seen := Visited(r, h, d, hash, key, fuel, 0);
      AtLeast(seen, minDepth) == seen[if minDepth < |seen| then minDepth else |seen|..]
  {
    var seen := Visited(r, h, d, hash, key, fuel, 0);
    forall i | 0 <= i < |seen| ensures seen[i].depth == i { VisitedAt(r, h, d, hash, key, fuel, 0, i); }
    KeptFrom(seen, minDepth);
  }

  // ---- recorded lookups are proofs ----

  ghost predicate HoldsRecords(h: HashFn, d: Data, records: seq<Record>) {
    forall i :: 0 <= i < |records| ==> DbGet(h, d, records[i].hash) == Some(records[i].data)
  }

  /** A store made of recorded nodes alone. */
  function StoreOf(h: HashFn, records: seq<Record>): Data {
    if records == [] then map[]
    else DbInsert(h, StoreOf(h, records[..|records| - 1]), records[|records| - 1].data)
  }

  ghost predicate AllFrom(h: HashFn, records: seq<Record>, used: iset<bytes>) {
    forall i :: 0 <= i < |records| ==> records[i].data in used && h(records[i].data) == records[i].hash
  }

  /** A store that holds at least the nodes visited answers as the whole store does. */
  lemma {:induction false} ReplayAgrees(r: Reader, h: HashFn, d: Data, e: Data, hash: H256, key: nibbles, fuel: nat,
                                        depth: nat)
    requires HoldsRecords(h, e, Visited(r, h, d, hash, key, fuel, depth))
    requires LookUp(r, h, d, hash, key, fuel).Found?
    ensures LookUp(r, h, e, hash, key, fuel) == LookUp(r, h, d, hash, key, fuel)
    decreases fuel
  {
    ReplayStep(r, h, d, e, hash, key, fuel, depth);
    var w := Walk(r, DbGet(h, d, hash).value, key);
    if w.Next? { ReplayAgrees(r, h, d, e, w.hash, w.key, fuel - 1, depth + 1); }
  }

  /** Both stores have the first node, and what was visited behind it is held as well. */
  lemma ReplayStep(r: Reader, h: HashFn, d: Data, e: Data, hash: H256, key: nibbles, fuel: nat, depth: nat)
    requires HoldsRecords(h, e, Visited(r, h, d, hash, key, fuel, depth))
    requires LookUp(r, h, d, hash, key, fuel).Found?
    ensures fuel > 0 && DbGet(h, d, hash).Some? && DbGet(h, e, hash) == DbGet(h, d, hash)
    ensures var w := Walk(r, DbGet(h, d, hash).value, key);
      LookUp(r, h, d, hash, key, fuel) == Resume(r, h, d, w, fuel - 1) &&
      LookUp(r, h, e, hash, key, fuel) == Resume(r, h, e, w, fuel - 1) &&
      (w.Next? ==> HoldsRecords(h, e, Visited(r, h, d, w.hash, w.key, fuel - 1, depth + 1)))
  {
    var b := DbGet(h, d, hash).value;
    VisitedCons(r, h, d, hash, key, fuel, depth);
    HoldsTail(h, e, Record(depth, b, hash), VisitedAfter(r, h, d, Walk(r, b, key), fuel - 1, depth + 1));
  }

  lemma HoldsTail(h: HashFn, e: Data, first: Record, rest: seq<Record>)
    requires HoldsRecords(h, e, [first] + rest)
    ensures HoldsRecords(h, e, rest) && DbGet(h, e, first.hash) == Some(first.data)
  {
    assert ([first] + rest)[0] == first;
    forall i | 0 <= i < |rest| ensures DbGet(h, e, rest[i].hash) == Some(rest[i].data) {
      assert ([first] + rest)[i + 1] == rest[i];
    }
  }

  lemma {:induction false} VisitedFromStore(r: Reader, h: HashFn, d: Data, hash: H256, key: nibbles, fuel: nat,
                                            depth: nat, used: iset<bytes>)
    requires Addressed(h, d, used)
    ensures AllFrom(h, Visited(r, h, d, hash, key, fuel, depth), used)
    decreases fuel
  {
    if fuel > 0 && DbGet(h, d, hash).Some? {
      var w := Walk(r, DbGet(h, d, hash).value, key);
      if w.Next? {
        VisitedFromStore(r, h, d, w.hash, w.key, fuel - 1, depth + 1, used);
      }
    }
  }

  ghost predicate OnlyCounted(d: Data) {
    forall k :: k in d ==> d[k].rc > 0
  }

  lemma {:induction false} StoreOfHolds(h: HashFn, records: seq<Record>, used: iset<bytes>)
    requires AllFrom(h, records, used) && CollisionFree(h, used) && NULL_RLP in used
    ensures HoldsRecords(h, StoreOf(h, records), records)
    ensures Addressed(h, StoreOf(h, records), used) && OnlyCounted(StoreOf(h, records))
  {
    if records != [] {
      var front, last := records[..|records| - 1], records[|records| - 1];
      StoreOfHolds(h, front, used);
      InsertReadable(h, StoreOf(h, front), last.data, used);
    }
  }

  /** The nodes recorded from depth 0 on prove the answer by themselves. */
  lemma RecordedLookupIsProof(r: Reader, h: HashFn, d: Data, hash: H256, key: nibbles, fuel: nat, used: iset<bytes>)
    requires Addressed(h, d, used) && CollisionFree(h, used)
    requires LookUp(r, h, d, hash, key, fuel).Found?
    ensures var records := AtLeast(Visited(r, h, d, hash, key, fuel, 0), 0);
      LookUp(r, h, StoreOf(h, records), hash, key, fuel) == LookUp(r, h, d, hash, key, fuel)
  {
    var records := Visited(r, h, d, hash, key, fuel, 0);
    VisitedFromStore(r, h, d, hash, key, fuel, 0, used);
    StoreOfHolds(h, records, used);
    ReplayAgrees(r, h, d, StoreOf(h, records), hash, key, fuel, 0);
  }

  /** No store of honestly hashed strings answers otherwise: it lacks a node, or agrees. */
  lemma {:induction false} NoForgedAnswer(r: Reader, h: HashFn, d: Data, e: Data, hash: H256, key: nibbles, fuel: nat,
                                          used: iset<bytes>)
    requires Addressed(h, d, used) && Addressed(h, e, used) && CollisionFree(h, used)
    ensures LookUp(r, h, d, hash, key, fuel) == LookUp(r, h, e, hash, key, fuel) ||
            LookUp(r, h, d, hash, key, fuel).Missing? || LookUp(r, h, e, hash, key, fuel).Missing?
    decreases fuel
  {
    if fuel > 0 && DbGet(h, d, hash).Some? && DbGet(h, e, hash).Some? {
      SameBytes(h, d, e, hash, used);
      var w := Walk(r, DbGet(h, d, hash).value, key);
      if w.Next? {
        NoForgedAnswer(r, h, d, e, w.hash, w.key, fuel - 1, used);
      }
    }
  }

  lemma SameBytes(h: HashFn, d: Data, e: Data, hash: H256, used: iset<bytes>)
    requires Addressed(h, d, used) && Addressed(h, e, used) && CollisionFree(h, used)
    requires DbGet(h, d, hash).Some? && DbGet(h, e, hash).Some?
    ensures DbGet(h, d, hash) == DbGet(h, e, hash)
  {
    assert h(DbGet(h, d, hash).value) == h(DbGet(h, e, hash).value);
  }
}
