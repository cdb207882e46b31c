/**
  What a routing table holds, as values: the contents of a list of buckets, the
  classes of nodes by shared prefix, and the meaning of one insertion.
 */
module Tables {
  import opened Wrappers
  import opened Ids
  import opened Nodes

  type Items = multiset<NodeWrapper>

  // ---------- classes of nodes by shared prefix ----------

  /** r is the part of m that shares at least lo and fewer than hi leading bits with t. */
  ghost predicate IsRange(r: Items, m: Items, t: Id, lo: nat, hi: nat) {
    forall x {:trigger r[x]} :: r[x] == if lo <= Prefix(t, x.node.id) < hi then m[x] else 0
  }

  lemma {:induction false} RangeExists(m: Items, t: Id, lo: nat, hi: nat) returns (r: Items)
    ensures IsRange(r, m, t, lo, hi)
  {
    if m == multiset{} {
      r := multiset{};
    } else {
      var x :| x in m;
      r := RangeExists(m[x := 0], t, lo, hi);
      if lo <= Prefix(t, x.node.id) < hi {
        r := r[x := m[x]];
      }
    }
  }

  /** The nodes of m that share at least lo and fewer than hi leading bits with t. */
  ghost function InRange(m: Items, t: Id, lo: nat, hi: nat): (r: Items)
    ensures IsRange(r, m, t, lo, hi)
  {
    assert exists r :: IsRange(r, m, t, lo, hi) by {
      var r := RangeExists(m, t, lo, hi);
    }
    var r :| IsRange(r, m, t, lo, hi);
    r
  }

  /** The nodes sharing exactly c leading bits with t. */
  ghost function Exact(m: Items, t: Id, c: nat): Items {
    InRange(m, t, c, c + 1)
  }

  /** The nodes sharing d or more leading bits with t. */
  ghost function AtLeast(m: Items, t: Id, d: nat): Items {
    InRange(m, t, d, ID_BITS + 1)
  }

  lemma SubsetSize(a: Items, b: Items)
    requires a <= b
    ensures |a| <= |b|
    ensures |a| == |b| ==> a == b
  {
    assert b == a + (b - a);
  }

  lemma SameRest(m: Items, x: NodeWrapper, m': Items)
    requires m' + multiset{x} == m + multiset{x}
    ensures m' == m
  {
    forall y ensures m'[y] == m[y] {
      assert (m' + multiset{x})[y] == (m + multiset{x})[y];
    }
  }

  lemma InRangeUnion(a: Items, b: Items, t: Id, lo: nat, hi: nat)
    ensures InRange(a + b, t, lo, hi) == InRange(a, t, lo, hi) + InRange(b, t, lo, hi)
  {
  }

  lemma InRangeOne(x: NodeWrapper, t: Id, lo: nat, hi: nat)
    ensures InRange(multiset{x}, t, lo, hi) ==
            if lo <= Prefix(t, x.node.id) < hi then multiset{x} else multiset{}
  {
  }

  lemma InRangeMonotone(a: Items, b: Items, t: Id, lo: nat, hi: nat, lo': nat, hi': nat)
    requires a <= b && lo' <= lo && hi <= hi'
    ensures InRange(a, t, lo, hi) <= InRange(b, t, lo', hi')
    ensures |InRange(a, t, lo, hi)| <= |InRange(b, t, lo', hi')|
  {
    SubsetSize(InRange(a, t, lo, hi), InRange(b, t, lo', hi'));
  }

  /** Adding one node grows exactly the ranges that its prefix lies in. */
  lemma InRangeAdd(m: Items, x: NodeWrapper, t: Id, lo: nat, hi: nat)
    ensures InRange(m + multiset{x}, t, lo, hi) ==
            if lo <= Prefix(t, x.node.id) < hi then InRange(m, t, lo, hi) + multiset{x} else InRange(m, t, lo, hi)
  {
  }

  /** A balance of contents is a balance of every range. */
  lemma InRangeBalance(a: Items, b: Items, c: Items, d: Items, t: Id, lo: nat, hi: nat)
    requires a + b == c + d
    ensures InRange(a, t, lo, hi) + InRange(b, t, lo, hi) == InRange(c, t, lo, hi) + InRange(d, t, lo, hi)
    ensures |InRange(a, t, lo, hi)| + |InRange(b, t, lo, hi)| == |InRange(c, t, lo, hi)| + |InRange(d, t, lo, hi)|
  {
    InRangeUnion(a, b, t, lo, hi);
    InRangeUnion(c, d, t, lo, hi);
    assert |InRange(a, t, lo, hi) + InRange(b, t, lo, hi)| == |InRange(c, t, lo, hi) + InRange(d, t, lo, hi)|;
  }

  lemma ExactInAtLeast(m: Items, t: Id, c: nat, d: nat)
    requires d <= c
    ensures Exact(m, t, c) <= AtLeast(m, t, d)
    ensures |Exact(m, t, c)| <= |AtLeast(m, t, d)|
  {
    assert Exact(m, t, c) <= AtLeast(m, t, d);
    SubsetSize(Exact(m, t, c), AtLeast(m, t, d));
  }

  ghost function IdsOf(m: Items): set<Id> {
    set x | x in m :: x.node.id
  }

  /** No two stored nodes have the same id. */
  ghost predicate Distinct(m: Items) {
    forall x, y :: x in m && y in m && x.node.id == y.node.id ==> x == y && m[x] == 1
  }

  lemma DistinctSubset(a: Items, b: Items)
    requires a <= b && Distinct(b)
    ensures Distinct(a)
  {
    forall x, y | x in a && y in a && x.node.id == y.node.id ensures x == y && a[x] == 1 {
      assert x in b && y in b;
      assert a[x] <= b[x];
    }
  }

  lemma DistinctAdd(m: Items, w: NodeWrapper)
    requires Distinct(m) && w.node.id !in IdsOf(m)
    ensures Distinct(m + multiset{w})
  {
  }

  lemma DistinctRemove(m: Items, p: NodeWrapper, r: Items)
    requires Distinct(m) && r + multiset{p} == m
    ensures Distinct(r) && p.node.id !in IdsOf(r)
  {
    DistinctSubset(r, m);
    assert m[p] == r[p] + 1;
    assert p in m;
  }

  lemma {:induction false} DistinctSize(m: Items)
    requires Distinct(m)
    ensures |IdsOf(m)| == |m|
  {
    if m == multiset{} {
      assert IdsOf(m) == {};
    } else {
      var x :| x in m;
      var rest := m - multiset{x};
      assert m == rest + multiset{x};
      DistinctSubset(rest, m);
      DistinctSize(rest);
      assert x !in rest;
      assert x.node.id !in IdsOf(rest);
      assert IdsOf(m) == IdsOf(rest) + {x.node.id};
    }
  }

  // ---------- lists of buckets ----------

  function Flatten(bs: seq<seq<NodeWrapper>>): seq<NodeWrapper> {
    if bs == [] then [] else bs[0] + Flatten(bs[1..])
  }

  ghost function Stored(bs: seq<seq<NodeWrapper>>): Items {
    multiset(Flatten(bs))
  }

  lemma {:induction false} StoredUpdate(bs: seq<seq<NodeWrapper>>, j: nat, s: seq<NodeWrapper>)
    requires j < |bs|
    ensures multiset(bs[j]) <= Stored(bs)
    ensures Stored(bs[j := s]) == Stored(bs) - multiset(bs[j]) + multiset(s)
  {
    if j == 0 {
      assert bs[0 := s][1..] == bs[1..];
    } else {
      StoredUpdate(bs[1..], j - 1, s);
      assert bs[j := s][1..] == bs[1..][j - 1 := s];
    }
  }

  lemma {:induction false} StoredIn(bs: seq<seq<NodeWrapper>>, x: NodeWrapper)
    ensures x in Stored(bs) <==> exists j :: 0 <= j < |bs| && x in bs[j]
  {
    if bs != [] {
      StoredIn(bs[1..], x);
      if x in Stored(bs) && x !in bs[0] {
        var j :| 0 <= j < |bs[1..]| && x in bs[1..][j];
        assert x in bs[j + 1];
      }
      if j :| 0 <= j < |bs| && x in bs[j] {
        assert j > 0 ==> x in bs[1..][j - 1];
      }
    }
  }

  lemma {:induction false} StoredAppend(bs: seq<seq<NodeWrapper>>, s: seq<NodeWrapper>)
    ensures Stored(bs + [s]) == Stored(bs) + multiset(s)
  {
    if bs == [] {
      assert bs + [s] == [s];
      assert Flatten([s]) == s + Flatten([]);
    } else {
      assert (bs + [s])[1..] == bs[1..] + [s];
      StoredAppend(bs[1..], s);
    }
  }

  /** The bucket an id belongs in when there are n buckets. */
  function Dest(ourId: Id, n: nat, id: Id): (j: nat)
    requires n > 0
  {
    Min(n - 1, Prefix(ourId, id))
  }

  /** Every stored node is in the bucket of its prefix, and our own id is not stored. */
  ghost predicate Placed(ourId: Id, bs: seq<seq<NodeWrapper>>) {
    && |bs| > 0
    && forall j, x :: 0 <= j < |bs| && x in bs[j] ==>
         x.node.id != ourId && Dest(ourId, |bs|, x.node.id) == j
  }

  datatype Table = Table(ourId: Id, k: nat, buckets: seq<seq<NodeWrapper>>) {

    ghost function Contents(): Items {
      Stored(buckets)
    }

    /** The index of the deepest bucket. */
    ghost function Last(): int {
      |buckets| - 1
    }

    ghost predicate Valid() {
      && Placed(ourId, buckets)
      && |buckets| <= ID_BITS + 1
      && forall j :: 0 <= j < |buckets| ==> |buckets[j]| <= k
    }

    ghost function Class(c: nat): Items {
      Exact(Contents(), ourId, c)
    }
  }

  function EmptyTable(ourId: Id, k: nat): Table {
    Table(ourId, k, [[]])
  }

  /** The prefixes bucket j of n serves end here: its own index only, or all the rest. */
  function ClassEnd(n: nat, j: nat): nat {
    if j + 1 == n then ID_BITS + 1 else j + 1
  }

  /** Bucket j is the class of its index; the deepest bucket is everything from its index on. */
  lemma BucketIsClass(ourId: Id, bs: seq<seq<NodeWrapper>>, j: nat)
    requires Placed(ourId, bs) && j < |bs|
    ensures multiset(bs[j]) == InRange(Stored(bs), ourId, j, ClassEnd(|bs|, j))
  {
    var hi := ClassEnd(|bs|, j);
    var own := multiset(bs[j]);
    var others := OtherBuckets(ourId, bs, j);
    forall x ensures InRange(Stored(bs), ourId, j, hi)[x] == own[x] {
      if x in own {
        assert x in bs[j];
        assert j <= Prefix(ourId, x.node.id) < hi;
      }
      assert Stored(bs)[x] == others[x] + own[x];
    }
  }

  lemma OtherBucket(ourId: Id, bs: seq<seq<NodeWrapper>>, j: nat, i: nat, x: NodeWrapper)
    requires Placed(ourId, bs) && j < |bs| && i < |bs| && i != j && x in bs[i]
    ensures !(j <= Prefix(ourId, x.node.id) < ClassEnd(|bs|, j))
  {
    assert Dest(ourId, |bs|, x.node.id) == i;
  }

  lemma OtherBuckets(ourId: Id, bs: seq<seq<NodeWrapper>>, j: nat) returns (others: Items)
    requires Placed(ourId, bs) && j < |bs|
    ensures Stored(bs) == others + multiset(bs[j])
    ensures forall x :: x in others ==> !(j <= Prefix(ourId, x.node.id) < ClassEnd(|bs|, j))
  {
    StoredUpdate(bs, j, []);
    var rest := bs[j := []];
    others := Stored(rest);
    assert Stored(bs) == others + multiset(bs[j]);
    forall x | x in others ensures !(j <= Prefix(ourId, x.node.id) < ClassEnd(|bs|, j)) {
      StoredIn(rest, x);
      var i :| 0 <= i < |rest| && x in rest[i];
      assert i != j;
      OtherBucket(ourId, bs, j, i, x);
    }
  }

  lemma BucketIsExact(t: Table, c: nat)
    requires t.Valid() && c < t.Last()
    ensures multiset(t.buckets[c]) == t.Class(c)
  {
    BucketIsClass(t.ourId, t.buckets, c);
  }

  lemma DeepestIsAtLeast(t: Table)
    requires Placed(t.ourId, t.buckets)
    ensures multiset(t.buckets[|t.buckets| - 1]) == AtLeast(t.Contents(), t.ourId, |t.buckets| - 1)
  {
    var n := |t.buckets|;
    BucketIsClass(t.ourId, t.buckets, n - 1);
    assert ClassEnd(n, n - 1) == ID_BITS + 1;
  }

  /** In a valid table no class holds more than k nodes. */
  lemma ClassAtMostK(t: Table, c: nat)
    requires t.Valid()
    ensures |t.Class(c)| <= t.k
  {
    if c < t.Last() {
      BucketIsExact(t, c);
      assert |t.buckets[c]| <= t.k;
    } else {
      DeepestIsAtLeast(t);
      assert |t.buckets[|t.buckets| - 1]| <= t.k;
      ExactInAtLeast(t.Contents(), t.ourId, c, |t.buckets| - 1);
    }
  }

  lemma ContentsNotOurs(t: Table, x: NodeWrapper)
    requires Placed(t.ourId, t.buckets) && x in t.Contents()
    ensures x.node.id != t.ourId && Prefix(t.ourId, x.node.id) < ID_BITS
  {
    StoredIn(t.buckets, x);
    PrefixLaws(t.ourId, x.node.id, x.node.id);
  }

  // ---------- one insertion ----------

  /** e was pushed out of a class that is full without it and holds nothing newer. */
  ghost predicate Ejected(t: Table, e: NodeWrapper) {
    var c := Prefix(t.ourId, e.node.id);
    && c < t.Last()
    && |t.Class(c)| == t.k
    && forall y :: y in t.Class(c) ==> y.firstSeen <= e.firstSeen
  }

  /**
    What adding x to table t may lead to: the table t' and the nodes pushed out.
    Nothing but x is added and nothing but the pushed-out node, if any, is lost;
    the table deepens only as far as more than k nodes reach.
   */
  ghost predicate AddStep(t: Table, x: NodeWrapper, t': Table, chumps: seq<NodeWrapper>) {
    if x.node.id == t.ourId then t' == t && chumps == []
    else
      && t'.ourId == t.ourId && t'.k == t.k
      && t'.Valid()
      && t'.Contents() + multiset(chumps) == t.Contents() + multiset{x}
      && |chumps| <= 1
      && (chumps != [] ==> Ejected(t', chumps[0]))
      && Deepens(t, t.Contents() + multiset{x}, t')
  }

  /** t' is as deep as t, or deeper because more than k of the nodes m reach its last bucket but one. */
  ghost predicate Deepens(t: Table, m: Items, t': Table) {
    && |t'.buckets| >= |t.buckets| > 0
    && (|t'.buckets| > |t.buckets| ==> |AtLeast(m, t.ourId, |t'.buckets| - 2)| > t.k)
  }

  /** If m' with e balances m with x, and e's class stays as large as it may get, x is of that class. */
  lemma FullClassBalance(m: Items, x: NodeWrapper, m': Items, e: NodeWrapper, t: Id, k: nat)
    requires m' + multiset{e} == m + multiset{x}
    requires |Exact(m', t, Prefix(t, e.node.id))| == k >= |Exact(m, t, Prefix(t, e.node.id))|
    ensures Prefix(t, x.node.id) == Prefix(t, e.node.id)
    ensures |Exact(m, t, Prefix(t, e.node.id))| == k
  {
    var c := Prefix(t, e.node.id);
    InRangeBalance(m', multiset{e}, m, multiset{x}, t, c, c + 1);
    InRangeOne(e, t, c, c + 1);
    InRangeOne(x, t, c, c + 1);
  }

  /** The node pushed out shares its prefix length with the node added. */
  lemma EjectedSharesPrefix(t: Table, x: NodeWrapper, t': Table, chumps: seq<NodeWrapper>)
    requires t.Valid() && AddStep(t, x, t', chumps) && chumps != []
    ensures x.node.id != t.ourId
    ensures Prefix(t.ourId, chumps[0].node.id) == Prefix(t.ourId, x.node.id)
    ensures |t.Class(Prefix(t.ourId, x.node.id))| == t.k
  {
    var e := chumps[0];
    assert chumps == [e];
    ClassAtMostK(t, Prefix(t.ourId, e.node.id));
    FullClassBalance(t.Contents(), x, t'.Contents(), e, t.ourId, t.k);
  }

  /** The exact effect of an insertion on every class of nodes. */
  lemma AddStepClass(t: Table, x: NodeWrapper, t': Table, chumps: seq<NodeWrapper>, c: nat)
    requires t.Valid() && AddStep(t, x, t', chumps) && x.node.id != t.ourId
    ensures c != Prefix(t.ourId, x.node.id) ==> t'.Class(c) == t.Class(c)
    ensures c == Prefix(t.ourId, x.node.id) ==>
              t'.Class(c) + multiset(chumps) == t.Class(c) + multiset{x}
    ensures c == Prefix(t.ourId, x.node.id) ==> (chumps != [] <==> |t.Class(c)| == t.k)
  {
    var es := multiset(chumps);
    if chumps == [] {
      ClassAtMostK(t', c);
    } else {
      EjectedSharesPrefix(t, x, t', chumps);
      assert chumps == [chumps[0]];
      assert es == multiset{chumps[0]};
    }
    ClassBalance(t.Contents(), x, t'.Contents(), es, t.ourId, c);
  }

  lemma ClassBalance(m: Items, x: NodeWrapper, m': Items, es: Items, t: Id, c: nat)
    requires m' + es == m + multiset{x}
    requires forall e :: e in es ==> Prefix(t, e.node.id) == Prefix(t, x.node.id)
    ensures c != Prefix(t, x.node.id) ==> Exact(m', t, c) == Exact(m, t, c)
    ensures c == Prefix(t, x.node.id) ==> Exact(m', t, c) + es == Exact(m, t, c) + multiset{x}
    ensures c == Prefix(t, x.node.id) ==> |Exact(m', t, c)| + |es| == |Exact(m, t, c)| + 1
  {
    InRangeBalance(m', es, m, multiset{x}, t, c, c + 1);
    InRangeOne(x, t, c, c + 1);
    if c == Prefix(t, x.node.id) {
      assert Exact(es, t, c) == es;
    } else {
      assert Exact(es, t, c) == multiset{};
      assert Exact(m', t, c) == Exact(m', t, c) + multiset{};
      assert Exact(m, t, c) == Exact(m, t, c) + multiset{};
    }
  }
}
