/** Nearest-node queries (src/storage/buckets.rs, get_nearest_nodes) against the XOR metric. */
module Nearest {
  import opened Wrappers
  import opened Ids
  import opened Nodes
  import opened Tables

  /** How far a stored node is from the id asked for. */
  ghost function Far(x: NodeWrapper, target: Id): nat {
    Distance(x.node.id, target)
  }

  ghost predicate NearestFirst(s: seq<NodeWrapper>, target: Id) {
    forall i, j :: 0 <= i < j < |s| ==> Far(s[i], target) <= Far(s[j], target)
  }

  /** r lists k nearest nodes of m, or all of them if there are no more than k, nearest first. */
  ghost predicate KNearest(m: Items, target: Id, k: nat, r: seq<NodeWrapper>) {
    && multiset(r) <= m
    && |r| == Min(k, |m|)
    && NearestFirst(r, target)
    && forall x, y :: x in r && y in m - multiset(r) ==> Far(x, target) <= Far(y, target)
  }

  /** r names the nodes of s in order. */
  ghost predicate IsListOf(r: seq<Node>, s: seq<NodeWrapper>) {
    |r| == |s| && forall i :: 0 <= i < |r| ==> r[i] == s[i].node
  }

  /** r is m without the nodes that have the excluded id. */
  ghost predicate IsWithout(r: Items, m: Items, exclude: Option<Id>) {
    forall x {:trigger r[x]} :: r[x] == if exclude == Some(x.node.id) then 0 else m[x]
  }

  lemma {:induction false} WithoutExists(m: Items, exclude: Option<Id>) returns (r: Items)
    ensures IsWithout(r, m, exclude)
  {
    if m == multiset{} {
      r := multiset{};
    } else {
      var x :| x in m;
      r := WithoutExists(m[x := 0], exclude);
      if exclude != Some(x.node.id) {
        r := r[x := m[x]];
      }
    }
  }

  /** The nodes a query may answer with: all but those that have the excluded id. */
  ghost function Without(m: Items, exclude: Option<Id>): (r: Items)
    ensures IsWithout(r, m, exclude)
    ensures exclude == None ==> r == m
  {
    assert exists r :: IsWithout(r, m, exclude) by {
      var r := WithoutExists(m, exclude);
    }
    var r :| IsWithout(r, m, exclude);
    r
  }

  lemma SplitItems(s: seq<NodeWrapper>, n: nat)
    requires n <= |s|
    ensures multiset(s[..n]) + multiset(s[n..]) == multiset(s)
    ensures multiset(s) - multiset(s[..n]) == multiset(s[n..])
  {
    assert s == s[..n] + s[n..];
  }

  lemma SortedHalves(s: seq<NodeWrapper>, target: Id, n: nat)
    requires NearestFirst(s, target) && n <= |s|
    ensures NearestFirst(s[..n], target)
    ensures forall x, y :: x in s[..n] && y in s[n..] ==> Far(x, target) <= Far(y, target)
  {
  }

  lemma TruncatedIsNearest(m: Items, target: Id, k: nat, s: seq<NodeWrapper>)
    requires multiset(s) == m && NearestFirst(s, target)
    ensures KNearest(m, target, k, s[..Min(k, |s|)])
  {
    var n := Min(k, |s|);
    SplitItems(s, n);
    SortedHalves(s, target, n);
    assert |m| == |s|;
  }

  // ---------- nearest against shared prefixes ----------

  lemma NearerSharesMore(x: NodeWrapper, y: NodeWrapper, target: Id)
    requires Far(x, target) <= Far(y, target)
    ensures Prefix(target, x.node.id) >= Prefix(target, y.node.id)
  {
    DistanceLaws(x.node.id, target, target);
    DistanceLaws(y.node.id, target, target);
    if Prefix(target, x.node.id) < Prefix(target, y.node.id) {
      LongerPrefixIsNearer(target, y.node.id, x.node.id);
    }
  }

  /** Of the nodes sharing d bits with the target an answer misses none that it has room for. */
  lemma AnswerCoversPrefix(m: Items, target: Id, k: nat, r: seq<NodeWrapper>, d: nat)
    requires KNearest(m, target, k, r)
    ensures |AtLeast(multiset(r), target, d)| == Min(k, |AtLeast(m, target, d)|)
  {
    var reach := AtLeast(m, target, d);
    if reach <= multiset(r) {
      AllFound(m, multiset(r), target, d);
      AnswerSize(r, target, d);
    } else {
      var y :| y in reach && reach[y] > multiset(r)[y];
      assert y in m - multiset(r);
      AnswerFull(m, target, r, d, y);
      MissingMeansFull(m, multiset(r), y);
      InRangeMonotone(multiset(r), m, target, d, ID_BITS + 1, d, ID_BITS + 1);
    }
  }

  lemma AllFound(m: Items, r: Items, target: Id, d: nat)
    requires r <= m && AtLeast(m, target, d) <= r
    ensures AtLeast(r, target, d) == AtLeast(m, target, d)
  {
    forall x ensures AtLeast(r, target, d)[x] == AtLeast(m, target, d)[x] {
      assert AtLeast(m, target, d)[x] <= r[x] <= m[x];
    }
  }

  /** If a node sharing d bits was left out, everything in the answer shares d bits. */
  lemma AnswerFull(m: Items, target: Id, r: seq<NodeWrapper>, d: nat, y: NodeWrapper)
    requires forall x :: x in r ==> Far(x, target) <= Far(y, target)
    requires Prefix(target, y.node.id) >= d
    ensures AtLeast(multiset(r), target, d) == multiset(r)
    ensures |AtLeast(multiset(r), target, d)| == |r|
  {
    forall x | x in multiset(r) ensures d <= Prefix(target, x.node.id) < ID_BITS + 1 {
      NearerSharesMore(x, y, target);
    }
  }

  lemma MissingMeansFull(m: Items, r: Items, y: NodeWrapper)
    requires r <= m && y in m - r
    ensures |r| < |m|
  {
    SubsetSize(r, m);
  }

  /** Along an answer the shared prefix never gets longer, so a prefix count is a position. */
  lemma {:induction false} PrefixCountIsPosition(r: seq<NodeWrapper>, target: Id, d: nat, j: nat)
    requires NearestFirst(r, target) && j < |r|
    ensures |AtLeast(multiset(r), target, d)| > j <==> Prefix(target, r[j].node.id) >= d
  {
    var n := |r| - 1;
    var front, x := r[..n], r[n];
    assert r == front + [x];
    InRangeAdd(multiset(front), x, target, d, ID_BITS + 1);
    AnswerSize(front, target, d);
    SortedHalves(r, target, n);
    assert x in r[n..];
    if j < n {
      PrefixCountIsPosition(front, target, d, j);
      NearerSharesMore(r[j], x, target);
    } else if Prefix(target, x.node.id) >= d {
      AnswerFull(multiset(front), target, front, d, x);
    }
  }

  lemma AnswerSize(s: seq<NodeWrapper>, target: Id, d: nat)
    ensures |AtLeast(multiset(s), target, d)| <= |s|
  {
    SubsetSize(AtLeast(multiset(s), target, d), multiset(s));
  }

  /**
    Position j of an answer shares d bits with the target exactly when more than
    j of the nodes searched do.
   */
  lemma NthNearestPrefix(m: Items, target: Id, k: nat, r: seq<NodeWrapper>, j: nat, d: nat)
    requires KNearest(m, target, k, r) && j < |r|
    ensures Prefix(target, r[j].node.id) >= d <==> |AtLeast(m, target, d)| > j
  {
    AnswerCoversPrefix(m, target, k, r, d);
    PrefixCountIsPosition(r, target, d, j);
  }

  // ---------- nearest against buckets ----------

  lemma SameDistanceSameNode(m: Items, target: Id, x: NodeWrapper, y: NodeWrapper)
    requires Distinct(m) && x in m && y in m && Far(x, target) == Far(y, target)
    ensures x == y
  {
    DistanceLaws(x.node.id, target, target);
    DistanceLaws(y.node.id, target, target);
    DistanceLaws(target, x.node.id, y.node.id);
  }

  lemma DistinctSeq(m: Items, s: seq<NodeWrapper>, i: nat, j: nat)
    requires Distinct(m) && multiset(s) <= m && i < j < |s|
    ensures s[i] != s[j]
  {
    SplitItems(s, j);
    assert s[i] in s[..j] && s[j] in s[j..];
    assert multiset(s[..j])[s[i]] >= 1 && multiset(s[j..])[s[j]] >= 1;
    assert multiset(s)[s[i]] <= m[s[i]];
    assert s[i] in m;
  }

  /** With distinct ids there is one answer: the start of any complete list sorted by distance. */
  lemma AnswerIsUnique(m: Items, target: Id, k: nat, r: seq<NodeWrapper>, s: seq<NodeWrapper>)
    requires KNearest(m, target, k, r) && Distinct(m)
    requires multiset(s) == m && NearestFirst(s, target)
    ensures |r| <= |s| && r == s[..|r|]
  {
    assert |s| == |multiset(s)| == |m|;
    AgreeUpTo(m, target, k, r, s, |r|);
  }

  lemma SamePrefix(r: seq<NodeWrapper>, s: seq<NodeWrapper>, n: nat)
    requires n <= |r| && n <= |s| && r[..n] == s[..n]
    ensures forall i :: 0 <= i < n ==> r[i] == s[i]
  {
    forall i | 0 <= i < n ensures r[i] == s[i] {
      assert r[i] == r[..n][i];
    }
  }

  lemma AgreeOneMore(r: seq<NodeWrapper>, s: seq<NodeWrapper>, n: nat)
    requires n < |r| <= |s| && r[..n] == s[..n] && r[n] == s[n]
    ensures r[..n + 1] == s[..n + 1]
  {
    assert r[..n + 1] == r[..n] + [r[n]];
    assert s[..n + 1] == s[..n] + [s[n]];
  }

  lemma {:induction false} AgreeUpTo(m: Items, target: Id, k: nat, r: seq<NodeWrapper>, s: seq<NodeWrapper>, n: nat)
    requires KNearest(m, target, k, r) && Distinct(m)
    requires multiset(s) == m && NearestFirst(s, target) && n <= |r| <= |s|
    ensures r[..n] == s[..n]
  {
    if n > 0 {
      AgreeUpTo(m, target, k, r, s, n - 1);
      FirstDifference(m, target, k, r, s, n - 1);
      AgreeOneMore(r, s, n - 1);
    }
  }

  lemma FirstDifference(m: Items, target: Id, k: nat, r: seq<NodeWrapper>, s: seq<NodeWrapper>, j: nat)
    requires KNearest(m, target, k, r) && Distinct(m)
    requires multiset(s) == m && NearestFirst(s, target) && j < |r| <= |s|
    requires r[..j] == s[..j]
    ensures r[j] == s[j]
  {
    SamePrefix(r, s, j);
    NotNearerThanNext(m, target, r, s, j);
    NextNotNearer(m, target, r, s, j);
    assert r[j] in multiset(r) && s[j] in multiset(s);
    SameDistanceSameNode(m, target, r[j], s[j]);
  }

  lemma NotNearerThanNext(m: Items, target: Id, r: seq<NodeWrapper>, s: seq<NodeWrapper>, j: nat)
    requires Distinct(m) && multiset(r) <= m
    requires multiset(s) == m && NearestFirst(s, target) && j < |r| && j < |s|
    requires forall i :: 0 <= i < j ==> r[i] == s[i]
    ensures Far(s[j], target) <= Far(r[j], target)
  {
    assert r[j] in multiset(r);
    assert r[j] in multiset(s);
    var p := NotEarlier(m, s, r, j);
  }

  lemma NextNotNearer(m: Items, target: Id, r: seq<NodeWrapper>, s: seq<NodeWrapper>, j: nat)
    requires Distinct(m) && multiset(s) <= m && j < |r| && j < |s|
    requires NearestFirst(r, target)
    requires forall x, y :: x in r && y in m - multiset(r) ==> Far(x, target) <= Far(y, target)
    requires forall i :: 0 <= i < j ==> r[i] == s[i]
    ensures Far(r[j], target) <= Far(s[j], target)
  {
    if s[j] in r {
      var q := NotEarlier(m, r, s, j);
    } else {
      LeftOut(m, r, s, j);
      assert r[j] in r;
    }
  }

  lemma NotEarlier(m: Items, r: seq<NodeWrapper>, s: seq<NodeWrapper>, j: nat) returns (q: nat)
    requires Distinct(m) && multiset(s) <= m && j < |r| && j < |s| && s[j] in r
    requires forall i :: 0 <= i < j ==> r[i] == s[i]
    ensures j <= q < |r| && r[q] == s[j]
  {
    q :| 0 <= q < |r| && r[q] == s[j];
    if q < j {
      DistinctSeq(m, s, q, j);
    }
  }

  lemma LeftOut(m: Items, r: seq<NodeWrapper>, s: seq<NodeWrapper>, j: nat)
    requires multiset(s) <= m && j < |s| && s[j] !in r
    ensures s[j] in m - multiset(r)
  {
    assert s[j] in multiset(s);
    assert multiset(r)[s[j]] == 0;
  }

  /** With distinct ids two answers to one query are the same list. */
  lemma {:induction false} AnswersAgree(m: Items, target: Id, k: nat, r: seq<NodeWrapper>, s: seq<NodeWrapper>, n: nat)
    requires KNearest(m, target, k, r) && KNearest(m, target, k, s) && Distinct(m) && n <= |r|
    ensures |r| == |s| && r[..n] == s[..n]
  {
    if n > 0 {
      AnswersAgree(m, target, k, r, s, n - 1);
      SamePrefix(r, s, n - 1);
      NextNotNearer(m, target, r, s, n - 1);
      NextNotNearer(m, target, s, r, n - 1);
      assert r[n - 1] in multiset(r) && s[n - 1] in multiset(s);
      SameDistanceSameNode(m, target, r[n - 1], s[n - 1]);
      AgreeOneMore(r, s, n - 1);
    }
  }

  /** The buckets ss one after the other, the deepest first. */
  ghost function DeepestFirst(ss: seq<seq<NodeWrapper>>): seq<NodeWrapper> {
    if ss == [] then [] else DeepestFirst(ss[1..]) + ss[0]
  }

  /** ss are the buckets bs, each sorted by distance. */
  ghost predicate SortedBuckets(bs: seq<seq<NodeWrapper>>, ss: seq<seq<NodeWrapper>>, target: Id) {
    && |ss| == |bs|
    && forall j :: 0 <= j < |bs| ==> NearestFirst(ss[j], target) && multiset(ss[j]) == multiset(bs[j])
  }

  lemma {:induction false} DeepestFirstItems(bs: seq<seq<NodeWrapper>>, ss: seq<seq<NodeWrapper>>, target: Id)
    requires SortedBuckets(bs, ss, target)
    ensures multiset(DeepestFirst(ss)) == Stored(bs)
  {
    if bs != [] {
      assert multiset(ss[0]) == multiset(bs[0]);
      DeepestFirstItems(bs[1..], ss[1..], target);
    }
  }

  lemma ConcatSorted(a: seq<NodeWrapper>, b: seq<NodeWrapper>, target: Id)
    requires NearestFirst(a, target) && NearestFirst(b, target)
    requires forall x, y :: x in a && y in b ==> Far(x, target) <= Far(y, target)
    ensures NearestFirst(a + b, target)
  {
    var s := a + b;
    forall i, j | 0 <= i < j < |s| ensures Far(s[i], target) <= Far(s[j], target) {
      if i < |a| <= j {
        assert s[i] in a && s[j] in b;
      }
    }
  }

  /** Every node of a deeper bucket is nearer to us than every node of a shallower one. */
  lemma DeeperIsNearer(ourId: Id, bs: seq<seq<NodeWrapper>>, i: nat, j: nat, x: NodeWrapper, y: NodeWrapper)
    requires Placed(ourId, bs) && i < j < |bs| && x in bs[j] && y in bs[i]
    ensures Far(x, ourId) < Far(y, ourId)
  {
    LongerPrefixIsNearer(ourId, x.node.id, y.node.id);
    DistanceLaws(x.node.id, ourId, ourId);
    DistanceLaws(y.node.id, ourId, ourId);
  }

  lemma {:induction false} DeepestFirstSorted(ourId: Id, bs: seq<seq<NodeWrapper>>, ss: seq<seq<NodeWrapper>>, n: nat)
    requires Placed(ourId, bs) && SortedBuckets(bs, ss, ourId) && n <= |bs|
    ensures NearestFirst(DeepestFirst(ss[n..]), ourId)
    ensures forall x :: x in DeepestFirst(ss[n..]) ==> exists j :: n <= j < |bs| && x in bs[j]
    decreases |bs| - n
  {
    if n < |bs| {
      DeepestFirstSorted(ourId, bs, ss, n + 1);
      assert ss[n..][1..] == ss[n + 1..];
      var deeper := DeepestFirst(ss[n + 1..]);
      forall x | x in ss[n] ensures x in bs[n] {
        assert x in multiset(ss[n]);
      }
      forall x, y | x in deeper && y in ss[n] ensures Far(x, ourId) <= Far(y, ourId) {
        var j :| n + 1 <= j < |bs| && x in bs[j];
        DeeperIsNearer(ourId, bs, n, j, x, y);
      }
      ConcatSorted(deeper, ss[n], ourId);
    }
  }

  /**
    Asked for our own id, a table of distinct ids answers with its buckets, each
    sorted by distance, one after the other from the deepest, cut to k.
   */
  lemma NearestToUsReadsBucketsBackwards(t: Table, ss: seq<seq<NodeWrapper>>, r: seq<NodeWrapper>)
    requires t.Valid() && Distinct(t.Contents()) && SortedBuckets(t.buckets, ss, t.ourId)
    requires KNearest(t.Contents(), t.ourId, t.k, r)
    ensures var all := DeepestFirst(ss); r == all[..Min(t.k, |all|)]
  {
    DeepestFirstItems(t.buckets, ss, t.ourId);
    DeepestFirstSorted(t.ourId, t.buckets, ss, 0);
    assert ss[0..] == ss;
    AnswerIsUnique(t.Contents(), t.ourId, t.k, r, DeepestFirst(ss));
  }
}
