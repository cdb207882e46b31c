/**
  Every operation on a table has an outcome: whatever fits can be arranged in
  buckets, so the steps that specify the operations can always be taken.
 */
module Outcomes {
  import opened Wrappers
  import opened Ids
  import opened Nodes
  import opened Tables
  import opened BucketRuns
  import opened Nearest

  // ---------- arranging nodes in buckets ----------

  lemma {:induction false} NothingStored(bs: seq<seq<NodeWrapper>>)
    requires forall j :: 0 <= j < |bs| ==> bs[j] == []
    ensures Stored(bs) == multiset{}
  {
    if bs != [] {
      NothingStored(bs[1..]);
    }
  }

  lemma PutIn(ourId: Id, bs: seq<seq<NodeWrapper>>, x: NodeWrapper) returns (bs': seq<seq<NodeWrapper>>)
    requires Placed(ourId, bs) && x.node.id != ourId
    ensures |bs'| == |bs| && Placed(ourId, bs') && Stored(bs') == Stored(bs) + multiset{x}
  {
    var j := Dest(ourId, |bs|, x.node.id);
    var b := bs[j] + [x];
    StoredUpdate(bs, j, b);
    bs' := bs[j := b];
    assert multiset(b) == multiset(bs[j]) + multiset{x};
  }

  lemma {:induction false} Arrange(ourId: Id, m: Items, n: nat) returns (bs: seq<seq<NodeWrapper>>)
    requires n > 0 && ourId !in IdsOf(m)
    ensures |bs| == n && Placed(ourId, bs) && Stored(bs) == m
    decreases m
  {
    if m == multiset{} {
      bs := seq(n, _ => []);
      NothingStored(bs);
    } else {
      var x :| x in m;
      var rest := Arrange(ourId, m - multiset{x}, n);
      bs := PutIn(ourId, rest, x);
      assert m - multiset{x} + multiset{x} == m;
    }
  }

  /** What bucket j of n would hold of the nodes m. */
  ghost function Share(ourId: Id, n: nat, m: Items, j: nat): Items {
    InRange(m, ourId, j, ClassEnd(n, j))
  }

  /** Each of n buckets has room for the nodes of m that belong in it. */
  ghost predicate Fits(ourId: Id, k: nat, n: nat, m: Items) {
    forall j :: 0 <= j < n ==> |Share(ourId, n, m, j)| <= k
  }

  lemma TableExists(ourId: Id, k: nat, n: nat, m: Items) returns (t: Table)
    requires 0 < n <= ID_BITS + 1 && ourId !in IdsOf(m) && Fits(ourId, k, n, m)
    ensures t.Valid() && t.ourId == ourId && t.k == k && |t.buckets| == n && t.Contents() == m
  {
    var bs := Arrange(ourId, m, n);
    t := Table(ourId, k, bs);
    forall j | 0 <= j < n ensures |bs[j]| <= k {
      BucketIsClass(ourId, bs, j);
      assert |Share(ourId, n, m, j)| <= k;
      assert |bs[j]| == |multiset(bs[j])|;
    }
  }

  lemma ValidFits(t: Table)
    requires t.Valid()
    ensures t.ourId !in IdsOf(t.Contents()) && Fits(t.ourId, t.k, |t.buckets|, t.Contents())
  {
    forall x | x in t.Contents() ensures x.node.id != t.ourId {
      ContentsNotOurs(t, x);
    }
    forall j | 0 <= j < |t.buckets|
      ensures |Share(t.ourId, |t.buckets|, t.Contents(), j)| <= t.k
    {
      BucketIsClass(t.ourId, t.buckets, j);
      assert |multiset(t.buckets[j])| == |t.buckets[j]|;
    }
  }

  /** A part of a table's nodes is the contents of a table of the same shape. */
  lemma PartExists(t: Table, m: Items) returns (t': Table)
    requires t.Valid() && m <= t.Contents()
    ensures t'.Valid() && t'.ourId == t.ourId && t'.k == t.k && |t'.buckets| == |t.buckets| && t'.Contents() == m
  {
    ValidFits(t);
    forall x | x in m ensures x in t.Contents() {
    }
    var n := |t.buckets|;
    forall j | 0 <= j < n ensures |Share(t.ourId, n, m, j)| <= t.k {
      assert |Share(t.ourId, n, t.Contents(), j)| <= t.k;
      InRangeMonotone(m, t.Contents(), t.ourId, j, ClassEnd(n, j), j, ClassEnd(n, j));
    }
    t' := TableExists(t.ourId, t.k, n, m);
  }

  /** A stored node can be overwritten by another reading of it. */
  lemma OverwriteExists(t: Table, x: NodeWrapper, y: NodeWrapper) returns (t': Table)
    requires t.Valid() && x in t.Contents() && x.node == y.node
    ensures t'.Valid() && t'.ourId == t.ourId && t'.k == t.k && |t'.buckets| == |t.buckets|
    ensures t'.Contents() == t.Contents() - multiset{x} + multiset{y}
    ensures t'.Contents() + multiset{x} == t.Contents() + multiset{y}
  {
    var m := t.Contents() - multiset{x} + multiset{y};
    ValidFits(t);
    forall z | z in m ensures z.node.id != t.ourId {
      assert z == y || z in t.Contents();
    }
    var n := |t.buckets|;
    forall j | 0 <= j < n ensures |Share(t.ourId, n, m, j)| <= t.k {
      assert |Share(t.ourId, n, t.Contents(), j)| <= t.k;
      SameShare(t.ourId, n, m, x, t.Contents(), y, j);
    }
    t' := TableExists(t.ourId, t.k, n, m);
  }

  lemma SameShare(ourId: Id, n: nat, m: Items, x: NodeWrapper, m': Items, y: NodeWrapper, j: nat)
    requires m + multiset{x} == m' + multiset{y} && x.node == y.node
    ensures |Share(ourId, n, m, j)| == |Share(ourId, n, m', j)|
  {
    var hi := ClassEnd(n, j);
    InRangeBalance(m, multiset{x}, m', multiset{y}, ourId, j, hi);
    InRangeOne(x, ourId, j, hi);
    InRangeOne(y, ourId, j, hi);
  }

  // ---------- an insertion ----------

  lemma NobodyReachesTheEnd(m: Items, ourId: Id)
    requires ourId !in IdsOf(m)
    ensures AtLeast(m, ourId, ID_BITS) == multiset{}
  {
    forall x | x in m ensures Prefix(ourId, x.node.id) < ID_BITS {
      PrefixLaws(ourId, x.node.id, ourId);
    }
    assert forall x :: AtLeast(m, ourId, ID_BITS)[x] == 0;
  }

  lemma LeastDepthExists(m: Items, ourId: Id, k: nat) returns (d: nat)
    requires ourId !in IdsOf(m)
    ensures d <= ID_BITS && LeastDepth(m, ourId, k, d)
  {
    NobodyReachesTheEnd(m, ourId);
    d := 0;
    while |AtLeast(m, ourId, d)| > k
      invariant d <= ID_BITS
      invariant forall d' :: 0 <= d' < d ==> |AtLeast(m, ourId, d')| > k
      decreases ID_BITS - d
    {
      d := d + 1;
    }
  }

  lemma {:induction false} NewestExists(m: Items) returns (e: NodeWrapper)
    requires m != multiset{}
    ensures e in m && forall y :: y in m ==> y.firstSeen <= e.firstSeen
    decreases m
  {
    e :| e in m;
    var rest := m[e := 0];
    if rest != multiset{} {
      var e' := NewestExists(rest);
      forall y | y in m ensures y.firstSeen <= e.firstSeen || y.firstSeen <= e'.firstSeen {
        if y != e {
          assert y in rest;
        }
      }
      if e.firstSeen < e'.firstSeen {
        e := e';
      }
    }
  }

  /** n buckets have room for m, but for one node of class c too many, if c has a bucket of its own. */
  ghost predicate FitsBut(ourId: Id, k: nat, n: nat, m: Items, c: nat) {
    && n > 0
    && forall j :: 0 <= j < n ==> |Share(ourId, n, m, j)| <= if j == c && j < n - 1 then k + 1 else k
  }

  /** It fits when the newest of that class is gone. */
  lemma FitsWithout(ourId: Id, k: nat, n: nat, m': Items, e: NodeWrapper)
    requires FitsBut(ourId, k, n, m' + multiset{e}, Prefix(ourId, e.node.id)) && Prefix(ourId, e.node.id) < n - 1
    ensures Fits(ourId, k, n, m')
  {
    forall j | 0 <= j < n ensures |Share(ourId, n, m', j)| <= k {
      assert |Share(ourId, n, m' + multiset{e}, j)|
             <= if j == Prefix(ourId, e.node.id) && j < n - 1 then k + 1 else k;
      OneLessFits(ourId, k, n, m', e, j);
    }
  }

  lemma OneLessFits(ourId: Id, k: nat, n: nat, m: Items, e: NodeWrapper, j: nat)
    requires j < n && Prefix(ourId, e.node.id) < n - 1
    requires |Share(ourId, n, m + multiset{e}, j)|
             <= if j == Prefix(ourId, e.node.id) && j < n - 1 then k + 1 else k
    ensures |Share(ourId, n, m, j)| <= k
  {
    SizeWithOne(m, e, ourId, j, ClassEnd(n, j));
  }

  lemma SizeWithOne(m: Items, x: NodeWrapper, t: Id, lo: nat, hi: nat)
    ensures |InRange(m + multiset{x}, t, lo, hi)| ==
            |InRange(m, t, lo, hi)| + if lo <= Prefix(t, x.node.id) < hi then 1 else 0
  {
    InRangeAdd(m, x, t, lo, hi);
  }

  lemma FitsWhole(ourId: Id, k: nat, n: nat, m: Items, c: nat)
    requires FitsBut(ourId, k, n, m, c) && (c < n - 1 ==> |Exact(m, ourId, c)| <= k)
    ensures Fits(ourId, k, n, m)
  {
    forall j | 0 <= j < n ensures |Share(ourId, n, m, j)| <= k {
      if j == c && j < n - 1 {
        assert ClassEnd(n, j) == c + 1;
      }
    }
  }

  lemma ClassesGrowByOne(t: Table, x: NodeWrapper, j: nat)
    requires t.Valid()
    ensures |Exact(t.Contents() + multiset{x}, t.ourId, j)| <= if j == Prefix(t.ourId, x.node.id) then t.k + 1 else t.k
  {
    ClassAtMostK(t, j);
    InRangeAdd(t.Contents(), x, t.ourId, j, j + 1);
  }

  /** n buckets are enough for the nodes m but one of class c, and m reaches deep enough to fill as many. */
  ghost predicate Depth(t: Table, m: Items, n: nat, c: nat) {
    && |t.buckets| <= n <= ID_BITS + 1
    && (n > |t.buckets| ==> n > 1 && |AtLeast(m, t.ourId, n - 2)| > t.k)
    && FitsBut(t.ourId, t.k, n, m, c)
  }

  lemma DepthExists(t: Table, m: Items, c: nat) returns (n: nat)
    requires 0 < |t.buckets| <= ID_BITS + 1 && t.ourId !in IdsOf(m)
    requires forall j :: |Exact(m, t.ourId, j)| <= if j == c then t.k + 1 else t.k
    ensures Depth(t, m, n, c)
  {
    n := BucketsFor(t.ourId, t.k, |t.buckets|, m);
    forall j | 0 <= j < n ensures |Share(t.ourId, n, m, j)| <= if j == c && j < n - 1 then t.k + 1 else t.k {
      if j < n - 1 {
        assert Share(t.ourId, n, m, j) == Exact(m, t.ourId, j);
      } else {
        assert Share(t.ourId, n, m, j) == AtLeast(m, t.ourId, j);
      }
    }
  }

  /** The number of buckets, not below b, that leaves no more than k nodes for the deepest. */
  lemma BucketsFor(ourId: Id, k: nat, b: nat, m: Items) returns (n: nat)
    requires 0 < b <= ID_BITS + 1 && ourId !in IdsOf(m)
    ensures b <= n <= ID_BITS + 1 && |AtLeast(m, ourId, n - 1)| <= k
    ensures n > b ==> n > 1 && |AtLeast(m, ourId, n - 2)| > k
  {
    var d := LeastDepthExists(m, ourId, k);
    if d + 1 > b {
      n := d + 1;
    } else {
      n := b;
      InRangeMonotone(m, m, ourId, n - 1, ID_BITS + 1, d, ID_BITS + 1);
    }
  }

  /** Every insertion into a valid table has an outcome. */
  lemma AddExists(t: Table, x: NodeWrapper) returns (t': Table, chumps: seq<NodeWrapper>)
    requires t.Valid()
    ensures AddStep(t, x, t', chumps)
  {
    if x.node.id == t.ourId {
      return t, [];
    }
    var m, c := t.Contents() + multiset{x}, Prefix(t.ourId, x.node.id);
    OursNotAdded(t, x);
    forall j: nat ensures |Exact(m, t.ourId, j)| <= if j == c then t.k + 1 else t.k {
      ClassesGrowByOne(t, x, j);
    }
    var n := DepthExists(t, m, c);
    if c < n - 1 && |Exact(m, t.ourId, c)| > t.k {
      t', chumps := AddEjecting(t, m, x, n);
    } else {
      t' := AddWhole(t, x, n);
      chumps := [];
    }
  }

  lemma AddWhole(t: Table, x: NodeWrapper, n: nat) returns (t': Table)
    requires |t.buckets| > 0 && x.node.id != t.ourId && t.ourId !in IdsOf(t.Contents() + multiset{x})
    requires Depth(t, t.Contents() + multiset{x}, n, Prefix(t.ourId, x.node.id))
    requires Prefix(t.ourId, x.node.id) < n - 1 ==>
               |Exact(t.Contents() + multiset{x}, t.ourId, Prefix(t.ourId, x.node.id))| <= t.k
    ensures AddStep(t, x, t', [])
  {
    var m := t.Contents() + multiset{x};
    FitsWhole(t.ourId, t.k, n, m, Prefix(t.ourId, x.node.id));
    t' := TableExists(t.ourId, t.k, n, m);
    AddingWholeIsAStep(t, m, x, t', n);
  }

  lemma AddingWholeIsAStep(t: Table, m: Items, x: NodeWrapper, t': Table, n: nat)
    requires m == t.Contents() + multiset{x} && |t.buckets| > 0 && x.node.id != t.ourId
    requires Depth(t, m, n, Prefix(t.ourId, x.node.id))
    requires t'.Valid() && t'.ourId == t.ourId && t'.k == t.k && |t'.buckets| == n && t'.Contents() == m
    ensures AddStep(t, x, t', [])
  {
    assert t'.Contents() + multiset([]) == m;
  }

  lemma AddEjecting(t: Table, m: Items, x: NodeWrapper, n: nat) returns (t': Table, chumps: seq<NodeWrapper>)
    requires m == t.Contents() + multiset{x} && |t.buckets| > 0 && x.node.id != t.ourId && t.ourId !in IdsOf(m)
    requires Depth(t, m, n, Prefix(t.ourId, x.node.id)) && Prefix(t.ourId, x.node.id) < n - 1
    requires |Exact(m, t.ourId, Prefix(t.ourId, x.node.id))| > t.k
    ensures AddStep(t, x, t', chumps)
  {
    var e;
    t', e := EjectedTable(t.ourId, t.k, n, m, Prefix(t.ourId, x.node.id));
    chumps := [e];
    EjectingIsAStep(t, m, x, t', e, n, Prefix(t.ourId, x.node.id));
  }

  lemma EjectingIsAStep(t: Table, m: Items, x: NodeWrapper, t': Table, e: NodeWrapper, n: nat, c: nat)
    requires m == t.Contents() + multiset{x} && |t.buckets| > 0 && x.node.id != t.ourId
    requires Depth(t, m, n, c)
    requires t'.Valid() && t'.ourId == t.ourId && t'.k == t.k && |t'.buckets| == n
    requires t'.Contents() + multiset([e]) == m && Ejected(t', e)
    ensures AddStep(t, x, t', [e])
  {
    assert Deepens(t, t.Contents() + multiset{x}, t');
  }

  /** m without the newest node e of class c. */
  lemma NewestOut(ourId: Id, m: Items, c: nat) returns (m': Items, e: NodeWrapper)
    requires |Exact(m, ourId, c)| > 0
    ensures m == m' + multiset{e} && Prefix(ourId, e.node.id) == c
    ensures forall y :: y in Exact(m, ourId, c) ==> y.firstSeen <= e.firstSeen
  {
    e := NewestExists(Exact(m, ourId, c));
    m' := m - multiset{e};
    assert e in m;
  }

  lemma EjectedTable(ourId: Id, k: nat, n: nat, m: Items, c: nat) returns (t': Table, e: NodeWrapper)
    requires c < n - 1 < ID_BITS + 1 && FitsBut(ourId, k, n, m, c) && ourId !in IdsOf(m)
    requires |Exact(m, ourId, c)| > k
    ensures t'.Valid() && t'.ourId == ourId && t'.k == k && |t'.buckets| == n
    ensures t'.Contents() + multiset([e]) == m && Ejected(t', e)
  {
    var m';
    m', e := NewestOut(ourId, m, c);
    FitsWithout(ourId, k, n, m', e);
    forall x | x in m' ensures x in m {
    }
    t' := TableExists(ourId, k, n, m');
    assert |Share(ourId, n, m, c)| <= k + 1;
    NewestIsEjected(t', m, e);
    assert multiset([e]) == multiset{e};
  }

  /** Taking the newest node out of a class of k+1 ejects it. */
  lemma NewestIsEjected(t': Table, m: Items, e: NodeWrapper)
    requires m == t'.Contents() + multiset{e} && Prefix(t'.ourId, e.node.id) < t'.Last()
    requires |Exact(m, t'.ourId, Prefix(t'.ourId, e.node.id))| == t'.k + 1
    requires forall y :: y in Exact(m, t'.ourId, Prefix(t'.ourId, e.node.id)) ==> y.firstSeen <= e.firstSeen
    ensures Ejected(t', e)
  {
    var c := Prefix(t'.ourId, e.node.id);
    InRangeAdd(t'.Contents(), e, t'.ourId, c, c + 1);
    assert Exact(m, t'.ourId, c) == t'.Class(c) + multiset{e};
    forall y | y in t'.Class(c) ensures y.firstSeen <= e.firstSeen {
      assert y in Exact(m, t'.ourId, c);
    }
  }

  // ---------- a query ----------

  lemma {:induction false} ClosestExists(m: Items, target: Id) returns (e: NodeWrapper)
    requires m != multiset{}
    ensures e in m && forall y :: y in m ==> Far(e, target) <= Far(y, target)
    decreases m
  {
    var x :| x in m;
    var rest := m[x := 0];
    e := x;
    if rest != multiset{} {
      var y := ClosestExists(rest, target);
      if Far(y, target) < Far(x, target) {
        e := y;
      }
    }
    forall z | z in m ensures Far(e, target) <= Far(z, target) {
      if z != x {
        assert z in rest;
      }
    }
  }

  lemma ClosestFirst(e: NodeWrapper, rest: seq<NodeWrapper>, target: Id, m: Items)
    requires e in m && multiset(rest) == m - multiset{e} && NearestFirst(rest, target)
    requires forall y :: y in m ==> Far(e, target) <= Far(y, target)
    ensures multiset([e] + rest) == m && NearestFirst([e] + rest, target)
  {
    assert multiset([e] + rest) == multiset{e} + (m - multiset{e});
    CloserBefore(e, rest, target, m);
  }

  lemma CloserBefore(e: NodeWrapper, rest: seq<NodeWrapper>, target: Id, m: Items)
    requires multiset(rest) <= m && NearestFirst(rest, target)
    requires forall y :: y in m ==> Far(e, target) <= Far(y, target)
    ensures NearestFirst([e] + rest, target)
  {
    forall i | 0 <= i < |rest| ensures Far(e, target) <= Far(rest[i], target) {
      assert rest[i] in multiset(rest);
    }
  }

  lemma {:induction false} SortedExists(m: Items, target: Id) returns (s: seq<NodeWrapper>)
    ensures multiset(s) == m && NearestFirst(s, target)
    decreases m
  {
    if m == multiset{} {
      s := [];
    } else {
      var e := ClosestExists(m, target);
      var rest := SortedExists(m - multiset{e}, target);
      s := [e] + rest;
      ClosestFirst(e, rest, target, m);
    }
  }

  /** Every query has an answer. */
  lemma AnswerExists(m: Items, target: Id, k: nat) returns (r: seq<NodeWrapper>)
    ensures KNearest(m, target, k, r)
  {
    var s := SortedExists(m, target);
    TruncatedIsNearest(m, target, k, s);
    r := s[..Min(k, |s|)];
  }
}
