/** The trie of a sorted key list, split recursively at the longest shared prefix: the second,
    independent definition of the root. */
module TrieBuild {
  import opened Bytes
  import opened Nibbles
  import opened Trie
  import opened TrieShape

  type Entry = (nibbles, bytes)

  // ---- order ----

  predicate Less(a: nibbles, b: nibbles) {
    b != [] && (a == [] || a[0] < b[0] || (a[0] == b[0] && Less(a[1..], b[1..])))
  }

  /** The next nibble behind pre, or -1 where the key ends. */
  function Head(k: nibbles, pre: nat): int
    requires pre <= |k|
  {
    if |k| == pre then -1 else k[pre]
  }

  /** Ordered keys with a common start are ordered by what follows it. */
  lemma {:induction false} LessAfterPrefix(a: nibbles, b: nibbles, pre: nat)
    requires pre <= |a| && pre <= |b| && a[..pre] == b[..pre] && Less(a, b)
    ensures Head(a, pre) <= Head(b, pre) && Head(b, pre) >= 0
    ensures a != b
  {
    if pre > 0 {
      assert a[0] == a[..pre][0] == b[..pre][0] == b[0];
      assert a[1..][..pre - 1] == a[..pre][1..] == b[..pre][1..] == b[1..][..pre - 1];
      LessAfterPrefix(a[1..], b[1..], pre - 1);
    } else if a == b {
      LessIrreflexive(a);
    }
  }

  lemma {:induction false} LessIrreflexive(a: nibbles)
    ensures !Less(a, a)
  {
    if a != [] { LessIrreflexive(a[1..]); }
  }

  ghost predicate Sorted(e: seq<Entry>) {
    forall i, j :: 0 <= i < j < |e| ==> Less(e[i].0, e[j].0)
  }

  /** All keys have the same first pre nibbles. */
  ghost predicate Shares(e: seq<Entry>, pre: nat) {
    forall i :: 0 <= i < |e| ==>
      pre <= |e[0].0| && pre <= |e[i].0| && e[i].0[..pre] == e[0].0[..pre]
  }

  /** What the splitting works on: ordered keys with a common start. */
  ghost predicate Proper(e: seq<Entry>, pre: nat) {
    Sorted(e) && Shares(e, pre)
  }

  /** No empty value, which in the trie would mean removal. */
  ghost predicate Valued(e: seq<Entry>) {
    forall i :: 0 <= i < |e| ==> e[i].1 != []
  }

  lemma HeadsOrdered(e: seq<Entry>, pre: nat, i: nat, j: nat)
    requires Proper(e, pre) && i < j < |e|
    ensures Head(e[i].0, pre) <= Head(e[j].0, pre) && Head(e[j].0, pre) >= 0
  {
    LessAfterPrefix(e[i].0, e[j].0, pre);
  }

  // ---- the shared prefix ----

  /** The least number of nibbles the first key shares with each of the first n. */
  function SharedPrefix(e: seq<Entry>, n: nat): (s: nat)
    requires 1 <= n <= |e|
    ensures s <= |e[0].0|
  {
    if n == 1 then |e[0].0|
    else
      var rest := SharedPrefix(e, n - 1);
      var own := CommonPrefix(e[0].0, e[n - 1].0);
      if own < rest then own else rest
  }

  lemma {:induction false} SharedPrefixShares(e: seq<Entry>, n: nat)
    requires 1 <= n <= |e|
    ensures forall i :: 0 <= i < n ==>
      SharedPrefix(e, n) <= |e[i].0| && e[i].0[..SharedPrefix(e, n)] == e[0].0[..SharedPrefix(e, n)]
    ensures SharedPrefix(e, n) == |e[0].0| ||
      exists i :: 0 < i < n && CommonPrefix(e[0].0, e[i].0) == SharedPrefix(e, n)
  {
    if n > 1 {
      SharedPrefixShares(e, n - 1);
      var s := SharedPrefix(e, n);
      var rest := SharedPrefix(e, n - 1);
      var own := CommonPrefix(e[0].0, e[n - 1].0);
      forall i | 0 <= i < n
        ensures s <= |e[i].0| && e[i].0[..s] == e[0].0[..s]
      {
        if i < n - 1 {
          assert e[i].0[..rest][..s] == e[0].0[..rest][..s];
        } else {
          assert e[i].0[..own][..s] == e[0].0[..own][..s];
        }
      }
    }
  }

  lemma {:induction false} SharedPrefixAtLeast(e: seq<Entry>, pre: nat, n: nat)
    requires Shares(e, pre) && 1 <= n <= |e|
    ensures pre <= SharedPrefix(e, n)
  {
    if n > 1 {
      SharedPrefixAtLeast(e, pre, n - 1);
      CommonPrefixAtLeast(e[0].0, e[n - 1].0, pre);
    }
  }

  // ---- the groups by next nibble ----

  /** The first entry from begin on whose next nibble is not below i. */
  function Start(e: seq<Entry>, pre: nat, i: nat, begin: nat): (s: nat)
    requires begin <= |e| && forall j :: 0 <= j < |e| ==> pre <= |e[j].0|
    ensures begin <= s <= |e|
    ensures forall j :: begin <= j < s ==> Head(e[j].0, pre) < i
    ensures s < |e| ==> Head(e[s].0, pre) >= i
    decreases |e| - begin
  {
    if begin == |e| || Head(e[begin].0, pre) >= i then begin else Start(e, pre, i, begin + 1)
  }

  /** The entries whose next nibble is i. */
  function Group(e: seq<Entry>, pre: nat, i: nat): seq<Entry>
    requires forall j :: 0 <= j < |e| ==> pre <= |e[j].0|
  {
    var lo := Start(e, pre, i, 0);
    e[lo..Start(e, pre, i + 1, lo)]
  }

  lemma StartSplits(e: seq<Entry>, pre: nat, i: nat, begin: nat)
    requires Proper(e, pre) && begin <= |e|
    ensures forall j :: Start(e, pre, i, begin) <= j < |e| ==> Head(e[j].0, pre) >= i
  {
    var s := Start(e, pre, i, begin);
    forall j | s <= j < |e|
      ensures Head(e[j].0, pre) >= i
    {
      if s < j { HeadsOrdered(e, pre, s, j); }
    }
  }

  lemma StartFromEarlier(e: seq<Entry>, pre: nat, i: nat, begin: nat)
    requires Proper(e, pre) && begin <= |e|
    requires forall j :: 0 <= j < begin ==> Head(e[j].0, pre) < i
    ensures Start(e, pre, i, begin) == Start(e, pre, i, 0)
  {
    var s, z := Start(e, pre, i, begin), Start(e, pre, i, 0);
  }

  /** A group is the run of entries with its nibble. */
  lemma GroupRange(e: seq<Entry>, pre: nat, i: nibble)
    requires Proper(e, pre)
    ensures var lo := Start(e, pre, i, 0); var hi := Start(e, pre, i + 1, lo);
      forall j :: 0 <= j < |e| ==> (lo <= j < hi <==> Head(e[j].0, pre) == i)
  {
    StartSplits(e, pre, i, 0);
    StartSplits(e, pre, i + 1, Start(e, pre, i, 0));
  }

  lemma PrefixStep(a: nibbles, b: nibbles, pre: nat)
    requires pre < |a| && pre < |b| && a[..pre] == b[..pre] && a[pre] == b[pre]
    ensures a[..pre + 1] == b[..pre + 1]
  {
    TakeSnoc(a, pre);
    TakeSnoc(b, pre);
  }

  /** Any run of entries with one next nibble is proper one nibble further on. */
  lemma RunProper(e: seq<Entry>, pre: nat, i: nibble, lo: nat, hi: nat)
    requires Proper(e, pre) && lo <= hi <= |e|
    requires forall j :: lo <= j < hi ==> Head(e[j].0, pre) == i
    ensures Proper(e[lo..hi], pre + 1)
  {
    var g := e[lo..hi];
    forall j | 0 <= j < |g|
      ensures pre + 1 <= |g[j].0| && g[j].0[..pre + 1] == g[0].0[..pre + 1]
    {
      assert g[j] == e[lo + j] && g[0] == e[lo];
      PrefixStep(g[j].0, g[0].0, pre);
    }
  }

  /** A group is proper one nibble further on. */
  lemma GroupProper(e: seq<Entry>, pre: nat, i: nibble)
    requires Proper(e, pre)
    ensures Proper(Group(e, pre, i), pre + 1)
  {
    GroupRange(e, pre, i);
    var lo := Start(e, pre, i, 0);
    RunProper(e, pre, i, lo, Start(e, pre, i + 1, lo));
  }

  /** Where the keys part, every group is smaller than the whole. */
  lemma GroupSmaller(e: seq<Entry>, pre: nat, i: nibble)
    requires Proper(e, pre) && |e| >= 2 && SharedPrefix(e, |e|) == pre
    ensures |Group(e, pre, i)| < |e|
  {
    var j, k := Parting(e, pre);
    GroupRange(e, pre, i);
    var x := if Head(e[j].0, pre) == i then k else j;
    assert Head(e[x].0, pre) != i;
  }

  lemma GroupReady(e: seq<Entry>, pre: nat, i: nibble)
    requires Proper(e, pre) && |e| >= 2 && SharedPrefix(e, |e|) == pre
    ensures Proper(Group(e, pre, i), pre + 1) && |Group(e, pre, i)| < |e|
  {
    GroupProper(e, pre, i);
    GroupSmaller(e, pre, i);
  }

  /** Two entries whose keys part right behind pre. */
  lemma Parting(e: seq<Entry>, pre: nat) returns (j: nat, k: nat)
    requires Proper(e, pre) && |e| >= 2 && SharedPrefix(e, |e|) == pre
    ensures j < k < |e| && Head(e[j].0, pre) < Head(e[k].0, pre)
  {
    SharedPrefixShares(e, |e|);
    j := 0;
    if pre == |e[0].0| {
      k := 1;
    } else {
      k :| 0 < k < |e| && CommonPrefix(e[0].0, e[k].0) == pre;
    }
    HeadsOrdered(e, pre, 0, k);
  }

  // ---- the trie of the list ----

  function Build(e: seq<Entry>, pre: nat): Tree
    requires Proper(e, pre)
    decreases |e|, if e == [] then 0 else |e[0].0| - pre, 1
  {
    if |e| == 0 then Empty
    else if |e| == 1 then Leaf(e[0].0[pre..], e[0].1)
    else
      var shared := SharedPrefix(e, |e|);
      SharedPrefixShares(e, |e|);
      SharedPrefixAtLeast(e, pre, |e|);
      if shared > pre then Extension(e[0].0[pre..shared], Build(e, shared))
      else
        Branch(BuildGroups(e, pre), if |e[0].0| == pre then Some(e[0].1) else None)
  }

  /** The subtrees of the sixteen groups. */
  function BuildGroups(e: seq<Entry>, pre: nat): (r: seq<Tree>)
    requires Proper(e, pre) && |e| >= 2 && SharedPrefix(e, |e|) == pre
    ensures |r| == 16 && forall i: nat :: i < 16 ==> r[i] == BuildGroup(e, pre, i)
    decreases |e|, 0, 0, 1
  {
    seq(16, (i: nat) requires i < 16 => BuildGroup(e, pre, i))
  }

  function BuildGroup(e: seq<Entry>, pre: nat, i: nibble): Tree
    requires Proper(e, pre) && |e| >= 2 && SharedPrefix(e, |e|) == pre
    decreases |e|, 0, 0, 0
  {
    GroupReady(e, pre, i);
    Build(Group(e, pre, i), pre + 1)
  }

  lemma BuildGroupsAt(e: seq<Entry>, pre: nat, i: nibble)
    requires Proper(e, pre) && |e| >= 2 && SharedPrefix(e, |e|) == pre
    ensures Proper(Group(e, pre, i), pre + 1)
    ensures BuildGroups(e, pre)[i] == Build(Group(e, pre, i), pre + 1)
  {
    GroupReady(e, pre, i);
  }

  // ---- what the trie of the list answers ----

  /** t holds exactly the entries, each under what follows pre in its key. */
  ghost predicate Answers(t: Tree, e: seq<Entry>, pre: nat)
    requires Proper(e, pre)
  {
    (forall j :: 0 <= j < |e| ==> Lookup(t, e[j].0[pre..]) == Some(e[j].1)) &&
    (forall q :: Lookup(t, q).Some? ==> exists j :: 0 <= j < |e| && e[j].0[pre..] == q)
  }

  lemma SharesMore(e: seq<Entry>, pre: nat)
    requires Proper(e, pre) && |e| >= 2
    ensures pre <= SharedPrefix(e, |e|) && Proper(e, SharedPrefix(e, |e|))
  {
    SharedPrefixShares(e, |e|);
    SharedPrefixAtLeast(e, pre, |e|);
  }

  lemma CutTwice(k: nibbles, l: nibbles, pre: nat, shared: nat)
    requires pre <= shared <= |k| && shared <= |l| && k[..shared] == l[..shared]
    ensures k[pre..] == l[pre..shared] + k[shared..]
  {
    assert k[pre..shared] == k[..shared][pre..] == l[..shared][pre..] == l[pre..shared];
  }

  lemma AnswersExtension(e: seq<Entry>, pre: nat, shared: nat, t: Tree)
    requires Proper(e, pre) && Proper(e, shared) && pre < shared && e != [] && Answers(t, e, shared)
    ensures Answers(Extension(e[0].0[pre..shared], t), e, pre)
  {
    var p := e[0].0[pre..shared];
    forall j | 0 <= j < |e|
      ensures Lookup(Extension(p, t), e[j].0[pre..]) == Some(e[j].1)
    {
      CutTwice(e[j].0, e[0].0, pre, shared);
      ExtensionLookup(p, t, e[j].0[shared..]);
    }
    forall q | Lookup(Extension(p, t), q).Some?
      ensures exists j :: 0 <= j < |e| && e[j].0[pre..] == q
    {
      var j := ExtendedEntry(e, pre, shared, t, q);
    }
  }

  /** The entry behind an answer of the extended trie. */
  lemma ExtendedEntry(e: seq<Entry>, pre: nat, shared: nat, t: Tree, q: nibbles) returns (j: nat)
    requires Proper(e, pre) && Proper(e, shared) && pre < shared && e != [] && Answers(t, e, shared)
    requires Lookup(Extension(e[0].0[pre..shared], t), q).Some?
    ensures j < |e| && e[j].0[pre..] == q
  {
    var p := e[0].0[pre..shared];
    assert Lookup(t, q[|p|..]).Some?;
    j :| 0 <= j < |e| && e[j].0[shared..] == q[|p|..];
    CutTwice(e[j].0, e[0].0, pre, shared);
    assert q == p + q[|p|..];
  }

  lemma NibbleSplit(k: nibbles, pre: nat)
    requires pre < |k|
    ensures k[pre..] == [k[pre]] + k[pre + 1..] && k[pre..][1..] == k[pre + 1..]
  {
  }

  ghost predicate GroupAnswered(e: seq<Entry>, pre: nat, t: Tree, i: nat)
    requires Proper(e, pre)
  {
    t.Branch? && i < |t.children| && Proper(Group(e, pre, i), pre + 1) &&
    Answers(t.children[i], Group(e, pre, i), pre + 1)
  }

  lemma AnswersBranch(e: seq<Entry>, pre: nat, t: Tree)
    requires Proper(e, pre) && |e| >= 2 && t.Branch? && |t.children| == 16
    requires t.value == if |e[0].0| == pre then Some(e[0].1) else None
    requires forall i :: 0 <= i < 16 ==> GroupAnswered(e, pre, t, i)
    ensures Answers(t, e, pre)
  {
    forall j | 0 <= j < |e|
      ensures Lookup(t, e[j].0[pre..]) == Some(e[j].1)
    {
      EntryAnswered(e, pre, t, j);
    }
    forall q | Lookup(t, q).Some?
      ensures exists j :: 0 <= j < |e| && e[j].0[pre..] == q
    {
      var j := AnsweredEntry(e, pre, t, q);
    }
  }

  /** Entry m of a group in the whole list. */
  lemma GroupEntry(e: seq<Entry>, pre: nat, i: nibble, m: nat)
    requires Proper(e, pre) && m < |Group(e, pre, i)|
    ensures var j := Start(e, pre, i, 0) + m;
      j < |e| && e[j] == Group(e, pre, i)[m] && pre < |e[j].0| && e[j].0[pre] == i
  {
    GroupRange(e, pre, i);
  }

  /** Where an entry stands in its group. */
  lemma EntryInGroup(e: seq<Entry>, pre: nat, j: nat)
    requires Proper(e, pre) && j < |e| && pre < |e[j].0|
    ensures var i := e[j].0[pre]; var lo := Start(e, pre, i, 0);
      lo <= j < lo + |Group(e, pre, i)| && Group(e, pre, i)[j - lo] == e[j]
  {
    var i := e[j].0[pre];
    GroupRange(e, pre, i);
    assert Head(e[j].0, pre) == i;
  }

  lemma AnsweredEntry(e: seq<Entry>, pre: nat, t: Tree, q: nibbles) returns (j: nat)
    requires Proper(e, pre) && |e| >= 2 && t.Branch? && |t.children| == 16
    requires t.value == if |e[0].0| == pre then Some(e[0].1) else None
    requires q != [] ==> GroupAnswered(e, pre, t, q[0])
    requires Lookup(t, q).Some?
    ensures j < |e| && e[j].0[pre..] == q
  {
    if q == [] {
      j := 0;
    } else {
      var g := Group(e, pre, q[0]);
      var m :| 0 <= m < |g| && g[m].0[pre + 1..] == q[1..];
      j := GroupedEntry(e, pre, q[0], m);
      assert q == [q[0]] + q[1..];
    }
  }

  lemma GroupedEntry(e: seq<Entry>, pre: nat, i: nibble, m: nat) returns (j: nat)
    requires Proper(e, pre) && m < |Group(e, pre, i)| && pre < |Group(e, pre, i)[m].0|
    ensures j < |e| && e[j].0[pre..] == [i] + Group(e, pre, i)[m].0[pre + 1..]
  {
    GroupEntry(e, pre, i, m);
    j := Start(e, pre, i, 0) + m;
    NibbleSplit(e[j].0, pre);
  }

  lemma EntryAnswered(e: seq<Entry>, pre: nat, t: Tree, j: nat)
    requires Proper(e, pre) && |e| >= 2 && t.Branch? && |t.children| == 16 && j < |e|
    requires t.value == if |e[0].0| == pre then Some(e[0].1) else None
    requires pre < |e[j].0| ==> GroupAnswered(e, pre, t, e[j].0[pre])
    ensures Lookup(t, e[j].0[pre..]) == Some(e[j].1)
  {
    var k := e[j].0;
    if |k| == pre {
      if j > 0 { HeadsOrdered(e, pre, 0, j); }
    } else {
      EntryInGroup(e, pre, j);
      NibbleSplit(k, pre);
    }
  }

  lemma {:induction false} BuildAnswers(e: seq<Entry>, pre: nat)
    requires Proper(e, pre)
    ensures Answers(Build(e, pre), e, pre)
    decreases |e|, if e == [] then 0 else |e[0].0| - pre
  {
    if |e| >= 2 {
      var shared := SharedPrefix(e, |e|);
      SharesMore(e, pre);
      if shared > pre {
        BuildAnswers(e, shared);
        AnswersExtension(e, pre, shared, Build(e, shared));
      } else {
        var t := Build(e, pre);
        forall i | 0 <= i < 16
          ensures GroupAnswered(e, pre, t, i)
        {
          BuildGroupsAt(e, pre, i);
          GroupSmaller(e, pre, i);
          BuildAnswers(Group(e, pre, i), pre + 1);
        }
        AnswersBranch(e, pre, t);
      }
    }
  }

  lemma GroupValued(e: seq<Entry>, pre: nat, i: nibble)
    requires Proper(e, pre) && Valued(e)
    ensures Valued(Group(e, pre, i))
  {
    var lo := Start(e, pre, i, 0);
    var g := Group(e, pre, i);
    forall j | 0 <= j < |g| ensures g[j].1 != [] { assert g[j] == e[lo + j]; }
  }

  lemma {:induction false} BuildCanonical(e: seq<Entry>, pre: nat)
    requires Proper(e, pre) && Valued(e)
    ensures Canonical(Build(e, pre)) && (Build(e, pre) == Empty <==> e == [])
    decreases |e|, if e == [] then 0 else |e[0].0| - pre
  {
    if |e| >= 2 {
      var shared := SharedPrefix(e, |e|);
      SharesMore(e, pre);
      if shared > pre {
        BuildCanonical(e, shared);
        SharesMore(e, shared);
        assert Build(e, shared).Branch?;
      } else {
        var t := Build(e, pre);
        forall i | 0 <= i < 16
          ensures Canonical(t.children[i]) && (t.children[i] == Empty <==> Group(e, pre, i) == [])
        {
          BuildGroupsAt(e, pre, i);
          GroupReady(e, pre, i);
          GroupValued(e, pre, i);
          BuildCanonical(Group(e, pre, i), pre + 1);
        }
        BuildTwoEntries(e, pre, t);
      }
    }
  }

  /** The entries that part at pre lie in different places of the branch. */
  lemma BuildTwoEntries(e: seq<Entry>, pre: nat, t: Tree)
    requires Proper(e, pre) && |e| >= 2 && SharedPrefix(e, |e|) == pre
    requires t.Branch? && |t.children| == 16
    requires t.value == if |e[0].0| == pre then Some(e[0].1) else None
    requires forall i :: 0 <= i < 16 ==> (t.children[i] == Empty <==> Group(e, pre, i) == [])
    ensures TwoEntries(t.children, t.value)
  {
    var j, k := Parting(e, pre);
    var b := Head(e[k].0, pre);
    GroupNotEmpty(e, pre, k);
    var a := Head(e[j].0, pre);
    if a >= 0 {
      GroupNotEmpty(e, pre, j);
      assert t.children[a] != Empty && t.children[b] != Empty;
    } else {
      assert t.children[b] != Empty;
      if j > 0 { HeadsOrdered(e, pre, 0, j); }
    }
  }

  lemma GroupNotEmpty(e: seq<Entry>, pre: nat, j: nat)
    requires Proper(e, pre) && j < |e| && Head(e[j].0, pre) >= 0
    ensures Group(e, pre, Head(e[j].0, pre)) != []
  {
    GroupRange(e, pre, Head(e[j].0, pre));
  }
}
