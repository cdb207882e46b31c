/**
  What the splitting table amounts to over whole runs of insertions: a fixed
  array of lists, one per shared prefix length, each keeping its k oldest nodes.
 */
module BucketRuns {
  import opened Wrappers
  import opened Ids
  import opened Nodes
  import opened Tables

  /** kept holds k of the oldest nodes of all, or all of them if there are no more than k. */
  ghost predicate KOldest(k: nat, all: Items, kept: Items) {
    && kept <= all
    && |kept| == Min(k, |all|)
    && forall y, z :: y in kept && z in all - kept ==> y.firstSeen <= z.firstSeen
  }

  /** d is the least depth that at most k of the nodes m reach. */
  ghost predicate LeastDepth(m: Items, ourId: Id, k: nat, d: nat) {
    && |AtLeast(m, ourId, d)| <= k
    && forall d' :: 0 <= d' < d ==> |AtLeast(m, ourId, d')| > k
  }

  /** Table t stores, of the nodes added, the k oldest of every prefix length, and is as deep as they require. */
  ghost predicate Refines(t: Table, added: Items) {
    && t.Valid()
    && t.Contents() <= added
    && (forall c :: KOldest(t.k, Exact(added, t.ourId, c), t.Class(c)))
    && AtLeast(added, t.ourId, |t.buckets| - 1) == AtLeast(t.Contents(), t.ourId, |t.buckets| - 1)
    && (|t.buckets| > 1 ==> |AtLeast(added, t.ourId, |t.buckets| - 2)| > t.k)
  }

  /** A run of insertions: the nodes xs lead from table ts[0] through the tables ts, pushing out cs. */
  ghost predicate AddRun(ts: seq<Table>, xs: seq<NodeWrapper>, cs: seq<seq<NodeWrapper>>) {
    && |ts| == |xs| + 1 && |cs| == |xs|
    && forall i :: 0 <= i < |xs| ==> AddStep(ts[i], xs[i], ts[i + 1], cs[i])
  }

  /** The nodes of xs as a collection; our own id is never added. */
  ghost function Added(xs: seq<NodeWrapper>, ourId: Id): Items {
    if xs == [] then multiset{}
    else
      var x := xs[|xs| - 1];
      Added(xs[..|xs| - 1], ourId) + if x.node.id == ourId then multiset{} else multiset{x}
  }

  // ---------- one insertion ----------

  lemma KOldestStep(k: nat, all: Items, kept: Items, x: NodeWrapper, kept': Items, chumps: seq<NodeWrapper>)
    requires KOldest(k, all, kept)
    requires |chumps| <= 1 && (chumps != [] <==> |kept| == k)
    requires kept' + multiset(chumps) == kept + multiset{x}
    requires chumps != [] ==> forall y :: y in kept' ==> y.firstSeen <= chumps[0].firstSeen
    ensures KOldest(k, all + multiset{x}, kept')
  {
    if chumps == [] {
      SubsetSize(kept, all);
      assert kept == all;
      assert kept' == kept' + multiset(chumps);
      assert kept' == all + multiset{x};
    } else {
      var e := chumps[0];
      assert chumps == [e];
      KOldestEject(k, all, kept, x, kept', e);
    }
  }

  lemma KOldestEject(k: nat, all: Items, kept: Items, x: NodeWrapper, kept': Items, e: NodeWrapper)
    requires KOldest(k, all, kept) && |kept| == k
    requires kept' + multiset{e} == kept + multiset{x}
    requires forall y :: y in kept' ==> y.firstSeen <= e.firstSeen
    ensures KOldest(k, all + multiset{x}, kept')
  {
    SubsetSize(kept, all);
    assert |kept'| + 1 == |kept' + multiset{e}| == |kept + multiset{x}| == k + 1;
    forall y ensures kept'[y] <= (all + multiset{x})[y] {
      assert kept[y] <= all[y];
      assert (kept' + multiset{e})[y] == (kept + multiset{x})[y];
    }
    forall y, z | y in kept' && z in all + multiset{x} - kept'
      ensures y.firstSeen <= z.firstSeen
    {
      assert (kept' + multiset{e})[z] == (kept + multiset{x})[z];
      assert (kept' + multiset{e})[y] == (kept + multiset{x})[y];
      assert (kept' + multiset{e})[e] == (kept + multiset{x})[e];
      if z != e {
        assert z in all - kept;
        if y !in kept {
          assert y == x && e != x && e in kept;
        }
      }
    }
  }

  lemma RefinesClass(t: Table, added: Items, x: NodeWrapper, t': Table, chumps: seq<NodeWrapper>, c: nat)
    requires Refines(t, added) && AddStep(t, x, t', chumps) && x.node.id != t.ourId
    ensures KOldest(t.k, Exact(added + multiset{x}, t.ourId, c), t'.Class(c))
  {
    InRangeAdd(added, x, t.ourId, c, c + 1);
    AddStepClass(t, x, t', chumps, c);
    assert KOldest(t.k, Exact(added, t.ourId, c), t.Class(c));
    if c == Prefix(t.ourId, x.node.id) {
      if chumps != [] {
        EjectedSharesPrefix(t, x, t', chumps);
      }
      KOldestStep(t.k, Exact(added, t.ourId, c), t.Class(c), x, t'.Class(c), chumps);
    }
  }

  lemma SameDeepest(m: Items, m': Items, e: Items, added: Items, x: NodeWrapper, ourId: Id, d: nat, d': nat)
    requires m' + e == m + multiset{x} && d <= d'
    requires AtLeast(added, ourId, d) == AtLeast(m, ourId, d)
    requires forall y :: y in e ==> Prefix(ourId, y.node.id) < d'
    ensures AtLeast(added + multiset{x}, ourId, d') == AtLeast(m', ourId, d')
  {
    forall y ensures AtLeast(added + multiset{x}, ourId, d')[y] == AtLeast(m', ourId, d')[y] {
      assert AtLeast(added, ourId, d)[y] == AtLeast(m, ourId, d)[y];
      assert (m' + e)[y] == (m + multiset{x})[y];
    }
  }

  lemma RefinesWithin(m: Items, m': Items, e: Items, added: Items, x: NodeWrapper)
    requires m <= added && m' + e == m + multiset{x}
    ensures m' <= added + multiset{x}
  {
    forall y ensures m'[y] <= (added + multiset{x})[y] {
      assert (m' + e)[y] == (m + multiset{x})[y];
      assert m[y] <= added[y];
    }
  }

  lemma EjectedIsShallow(t: Table, chumps: seq<NodeWrapper>)
    requires |chumps| <= 1 && (chumps != [] ==> Ejected(t, chumps[0]))
    ensures forall y :: y in multiset(chumps) ==> Prefix(t.ourId, y.node.id) < |t.buckets| - 1
  {
    forall y | y in multiset(chumps) ensures Prefix(t.ourId, y.node.id) < |t.buckets| - 1 {
      assert y == chumps[0];
    }
  }

  lemma RefinesDeepest(t: Table, added: Items, x: NodeWrapper, t': Table, chumps: seq<NodeWrapper>)
    requires 0 < |t.buckets| <= |t'.buckets| && t'.ourId == t.ourId
    requires t'.Contents() + multiset(chumps) == t.Contents() + multiset{x}
    requires forall y :: y in multiset(chumps) ==> Prefix(t.ourId, y.node.id) < |t'.buckets| - 1
    requires AtLeast(added, t.ourId, |t.buckets| - 1) == AtLeast(t.Contents(), t.ourId, |t.buckets| - 1)
    ensures AtLeast(added + multiset{x}, t.ourId, |t'.buckets| - 1) == AtLeast(t'.Contents(), t.ourId, |t'.buckets| - 1)
  {
    SameDeepest(t.Contents(), t'.Contents(), multiset(chumps), added, x, t.ourId, |t.buckets| - 1, |t'.buckets| - 1);
  }

  lemma RefinesClasses(t: Table, added: Items, x: NodeWrapper, t': Table, chumps: seq<NodeWrapper>)
    requires Refines(t, added) && AddStep(t, x, t', chumps) && x.node.id != t.ourId
    ensures forall c :: KOldest(t.k, Exact(added + multiset{x}, t.ourId, c), t'.Class(c))
  {
    forall c: nat ensures KOldest(t.k, Exact(added + multiset{x}, t.ourId, c), t'.Class(c)) {
      RefinesClass(t, added, x, t', chumps, c);
    }
  }

  lemma RefinesStep(t: Table, added: Items, x: NodeWrapper, t': Table, chumps: seq<NodeWrapper>)
    requires Refines(t, added) && AddStep(t, x, t', chumps) && x.node.id != t.ourId
    ensures Refines(t', added + multiset{x})
  {
    RefinesClasses(t, added, x, t', chumps);
    RefinesWithin(t.Contents(), t'.Contents(), multiset(chumps), added, x);
    EjectedIsShallow(t', chumps);
    RefinesDeepest(t, added, x, t', chumps);
    StaysDeep(t, added, x, t');
  }

  lemma StaysDeep(t: Table, added: Items, x: NodeWrapper, t': Table)
    requires t.Contents() <= added
    requires |t.buckets| > 1 ==> |AtLeast(added, t.ourId, |t.buckets| - 2)| > t.k
    requires Deepens(t, t.Contents() + multiset{x}, t')
    ensures |t'.buckets| > 1 ==> |AtLeast(added + multiset{x}, t.ourId, |t'.buckets| - 2)| > t.k
  {
    if |t'.buckets| > |t.buckets| {
      DeeperForMore(t, added, x, |t'.buckets| - 2);
    } else if |t'.buckets| > 1 {
      MoreReach(added, x, t.ourId, |t'.buckets| - 2);
    }
  }

  lemma DeeperForMore(t: Table, added: Items, x: NodeWrapper, d: nat)
    requires t.Contents() <= added && |AtLeast(t.Contents() + multiset{x}, t.ourId, d)| > t.k
    ensures |AtLeast(added + multiset{x}, t.ourId, d)| > t.k
  {
    InRangeMonotone(t.Contents() + multiset{x}, added + multiset{x}, t.ourId, d, ID_BITS + 1, d, ID_BITS + 1);
  }

  lemma MoreReach(added: Items, x: NodeWrapper, ourId: Id, d: nat)
    ensures |AtLeast(added, ourId, d)| <= |AtLeast(added + multiset{x}, ourId, d)|
  {
    InRangeMonotone(added, added + multiset{x}, ourId, d, ID_BITS + 1, d, ID_BITS + 1);
  }

  // ---------- whole runs ----------

  lemma EmptyRefines(ourId: Id, k: nat)
    ensures Refines(EmptyTable(ourId, k), multiset{})
  {
    var t := EmptyTable(ourId, k);
    assert Flatten([[]]) == [] + Flatten([]);
    assert t.Contents() == multiset{};
    forall c: nat ensures KOldest(k, Exact(multiset{}, ourId, c), t.Class(c)) {
      assert Exact(multiset{}, ourId, c) == multiset{};
    }
  }

  lemma RefinesNext(t: Table, xs: seq<NodeWrapper>, i: nat, t': Table, chumps: seq<NodeWrapper>)
    requires i < |xs| && Refines(t, Added(xs[..i], t.ourId)) && AddStep(t, xs[i], t', chumps)
    ensures Refines(t', Added(xs[..i + 1], t.ourId))
  {
    var added := Added(xs[..i], t.ourId);
    assert xs[..i + 1][..i] == xs[..i];
    if xs[i].node.id == t.ourId {
      assert added + multiset{} == added;
    } else {
      RefinesStep(t, added, xs[i], t', chumps);
    }
  }

  lemma {:induction false} RunRefines(ts: seq<Table>, xs: seq<NodeWrapper>, cs: seq<seq<NodeWrapper>>)
    requires AddRun(ts, xs, cs) && ts[0] == EmptyTable(ts[0].ourId, ts[0].k)
    ensures ts[|xs|].ourId == ts[0].ourId && ts[|xs|].k == ts[0].k
    ensures Refines(ts[|xs|], Added(xs, ts[0].ourId))
  {
    var n := |xs|;
    if n == 0 {
      EmptyRefines(ts[0].ourId, ts[0].k);
    } else {
      RunRefines(ts[..n], xs[..n - 1], cs[..n - 1]);
      assert AddStep(ts[n - 1], xs[n - 1], ts[n - 1 + 1], cs[n - 1]);
      RefinesNext(ts[n - 1], xs, n - 1, ts[n], cs[n - 1]);
      assert xs[..n] == xs;
    }
  }

  lemma DeepestFits(t: Table)
    requires t.Valid()
    ensures |AtLeast(t.Contents(), t.ourId, |t.buckets| - 1)| <= t.k
  {
    DeepestIsAtLeast(t);
    assert |t.buckets[|t.buckets| - 1]| <= t.k;
  }

  lemma ShallowerReachMore(m: Items, ourId: Id, k: nat, d: nat)
    requires |AtLeast(m, ourId, d)| > k
    ensures forall d' :: 0 <= d' <= d ==> |AtLeast(m, ourId, d')| > k
  {
    forall d' | 0 <= d' <= d ensures |AtLeast(m, ourId, d')| > k {
      InRangeMonotone(m, m, ourId, d, ID_BITS + 1, d', ID_BITS + 1);
    }
  }

  lemma RefinesLeastDepth(t: Table, added: Items)
    requires Refines(t, added)
    ensures LeastDepth(added, t.ourId, t.k, |t.buckets| - 1)
  {
    DeepestFits(t);
    if |t.buckets| > 1 {
      ShallowerReachMore(added, t.ourId, t.k, |t.buckets| - 2);
    }
  }

  /**
    After any run of insertions into an empty table, the stored nodes of every
    prefix length are k oldest of all nodes of that length ever added; the deepest
    bucket's index is the least depth that at most k added nodes reach; and
    of the nodes that reach it none was lost.
   */
  lemma SplittingTableKeepsTheOldest(ts: seq<Table>, xs: seq<NodeWrapper>, cs: seq<seq<NodeWrapper>>)
    requires AddRun(ts, xs, cs) && ts[0] == EmptyTable(ts[0].ourId, ts[0].k)
    ensures var t, added := ts[|xs|], Added(xs, ts[0].ourId);
            && (forall c :: KOldest(t.k, Exact(added, t.ourId, c), t.Class(c)))
            && t.Valid() && LeastDepth(added, t.ourId, t.k, |t.buckets| - 1)
            && AtLeast(t.Contents(), t.ourId, |t.buckets| - 1) == AtLeast(added, t.ourId, |t.buckets| - 1)
  {
    RunRefines(ts, xs, cs);
    RefinesLeastDepth(ts[|xs|], Added(xs, ts[0].ourId));
  }

  // ---------- order independence ----------

  /** No two different nodes were first seen at the same instant. */
  ghost predicate DifferentAges(m: Items) {
    forall y, z :: y in m && z in m && y.firstSeen == z.firstSeen ==> y == z
  }

  /** Where two choices of the k oldest differ, they chose between nodes of one age. */
  lemma KOldestTie(k: nat, all: Items, a: Items, b: Items, y: NodeWrapper, z: NodeWrapper)
    requires KOldest(k, all, a) && KOldest(k, all, b)
    requires a[y] > b[y] && b[z] > a[z]
    ensures y in all && z in all && y.firstSeen == z.firstSeen
  {
    assert a[y] <= all[y] && b[z] <= all[z];
    assert y in all - b && z in all - a;
  }

  lemma KOldestUnique(k: nat, all: Items, a: Items, b: Items)
    requires KOldest(k, all, a) && KOldest(k, all, b) && DifferentAges(all)
    ensures a == b
  {
    if a <= b {
      SubsetSize(a, b);
    } else if b <= a {
      SubsetSize(b, a);
    } else {
      var y :| y in a && a[y] > b[y];
      var z :| z in b && b[z] > a[z];
      KOldestTie(k, all, a, b, y, z);
      assert false;
    }
  }

  lemma SameClassesSameContents(t: Table, t': Table)
    requires t.ourId == t'.ourId
    requires forall c :: t.Class(c) == t'.Class(c)
    ensures t.Contents() == t'.Contents()
  {
    forall x ensures t.Contents()[x] == t'.Contents()[x] {
      var c := Prefix(t.ourId, x.node.id);
      assert t.Class(c)[x] == t'.Class(c)[x];
    }
  }

  lemma LeastDepthUnique(m: Items, ourId: Id, k: nat, d: nat, d': nat)
    requires LeastDepth(m, ourId, k, d) && LeastDepth(m, ourId, k, d')
    ensures d == d'
  {
  }

  lemma RefinementsAgree(t: Table, t': Table, added: Items)
    requires Refines(t, added) && Refines(t', added) && t.ourId == t'.ourId && t.k == t'.k
    requires DifferentAges(added)
    ensures t.Contents() == t'.Contents()
    ensures |t.buckets| == |t'.buckets|
    ensures forall j :: 0 <= j < |t.buckets| ==> multiset(t.buckets[j]) == multiset(t'.buckets[j])
  {
    forall c: nat ensures t.Class(c) == t'.Class(c) {
      var all := Exact(added, t.ourId, c);
      forall y | y in all ensures y in added {
      }
      assert KOldest(t.k, all, t.Class(c));
      assert KOldest(t'.k, Exact(added, t'.ourId, c), t'.Class(c));
      KOldestUnique(t.k, all, t.Class(c), t'.Class(c));
    }
    SameClassesSameContents(t, t');
    RefinesLeastDepth(t, added);
    RefinesLeastDepth(t', added);
    LeastDepthUnique(added, t.ourId, t.k, |t.buckets| - 1, |t'.buckets| - 1);
    forall j | 0 <= j < |t.buckets| ensures multiset(t.buckets[j]) == multiset(t'.buckets[j]) {
      BucketIsClass(t.ourId, t.buckets, j);
      BucketIsClass(t'.ourId, t'.buckets, j);
    }
  }

  /** Adding the same nodes in any order, with any outcome of the unstable sorts, gives the same buckets. */
  lemma OrderDoesNotMatter(
      ts: seq<Table>, xs: seq<NodeWrapper>, cs: seq<seq<NodeWrapper>>,
      ts': seq<Table>, xs': seq<NodeWrapper>, cs': seq<seq<NodeWrapper>>)
    requires AddRun(ts, xs, cs) && AddRun(ts', xs', cs')
    requires ts[0] == ts'[0] == EmptyTable(ts[0].ourId, ts[0].k)
    requires multiset(xs) == multiset(xs') && DifferentAges(multiset(xs))
    ensures var t, t' := ts[|xs|], ts'[|xs'|];
            && t.Contents() == t'.Contents()
            && |t.buckets| == |t'.buckets|
            && forall j :: 0 <= j < |t.buckets| ==> multiset(t.buckets[j]) == multiset(t'.buckets[j])
  {
    var ourId := ts[0].ourId;
    RunRefines(ts, xs, cs);
    RunRefines(ts', xs', cs');
    AddedInAnyOrder(xs, xs', ourId);
    RefinementsAgree(ts[|xs|], ts'[|xs'|], Added(xs, ourId));
  }

  lemma {:induction false} AddedIsTheOthers(xs: seq<NodeWrapper>, ourId: Id)
    ensures forall x :: Added(xs, ourId)[x] == if x.node.id == ourId then 0 else multiset(xs)[x]
  {
    if xs != [] {
      var n := |xs| - 1;
      AddedIsTheOthers(xs[..n], ourId);
      assert xs == xs[..n] + [xs[n]];
    }
  }

  lemma AddedInAnyOrder(xs: seq<NodeWrapper>, xs': seq<NodeWrapper>, ourId: Id)
    requires multiset(xs) == multiset(xs')
    ensures Added(xs, ourId) == Added(xs', ourId)
    ensures DifferentAges(multiset(xs)) ==> DifferentAges(Added(xs, ourId))
  {
    AddedIsTheOthers(xs, ourId);
    AddedIsTheOthers(xs', ourId);
    forall y | y in Added(xs, ourId) ensures y in multiset(xs) {
    }
  }

  // ---------- how deep a table may get ----------

  /** A table that was ever split is shallow enough to hold k+1 ids, and ours, behind its last split. */
  ghost predicate Roomy(t: Table) {
    1 < |t.buckets| <= ID_BITS + 2 ==> t.k + 2 <= Pow2(ID_BITS + 2 - |t.buckets|)
  }

  /** Pigeonhole on stored nodes: few distinct ids reach a great depth. */
  lemma FewNodesReach(m: Items, ourId: Id, d: nat)
    requires Distinct(m) && ourId !in IdsOf(m) && d <= ID_BITS
    ensures |AtLeast(m, ourId, d)| + 1 <= Pow2(ID_BITS - d)
  {
    var reach := AtLeast(m, ourId, d);
    DistinctSubset(reach, m);
    DistinctSize(reach);
    forall id | id in IdsOf(reach) ensures id != ourId && Prefix(ourId, id) >= d {
      var y :| y in reach && y.node.id == id;
      assert y in m;
    }
    FewIdsSharePrefix(ourId, IdsOf(reach), d);
  }

  lemma OursNotAdded(t: Table, x: NodeWrapper)
    requires t.Valid() && x.node.id != t.ourId
    ensures t.ourId !in IdsOf(t.Contents() + multiset{x})
  {
    forall y | y in t.Contents() ensures y.node.id != t.ourId {
      ContentsNotOurs(t, y);
    }
  }

  lemma AddKeepsRoomy(t: Table, x: NodeWrapper, t': Table, chumps: seq<NodeWrapper>)
    requires t.Valid() && AddStep(t, x, t', chumps) && Roomy(t)
    requires x.node.id != t.ourId ==> Distinct(t.Contents() + multiset{x})
    ensures Roomy(t')
  {
    if x.node.id != t.ourId && |t'.buckets| > |t.buckets| {
      OursNotAdded(t, x);
      FewNodesReach(t.Contents() + multiset{x}, t.ourId, |t'.buckets| - 2);
    }
  }

  /** With distinct ids a table of capacity 1 or more never outgrows 160 buckets, one of capacity 8 never 158. */
  lemma DocumentedMaximum(t: Table)
    requires Roomy(t) && t.Valid() && t.k >= 1
    ensures |t.buckets| <= 160
    ensures t.k >= 8 ==> |t.buckets| <= 158
  {
    assert Pow2(1) == 2 && Pow2(2) == 4 && Pow2(3) == 8;
  }

  /** With capacity 0 the table does outgrow it: one node differing from us in the last bit makes 161 buckets. */
  lemma ZeroCapacityOutgrowsIt(ourId: Id, x: NodeWrapper, t': Table, chumps: seq<NodeWrapper>)
    requires Prefix(ourId, x.node.id) == 159
    requires AddStep(EmptyTable(ourId, 0), x, t', chumps)
    ensures |t'.buckets| == 161
  {
    PrefixLaws(ourId, ourId, ourId);
    var t := EmptyTable(ourId, 0);
    EmptyRefines(ourId, 0);
    assert t.Class(159) == multiset{};
    AddStepClass(t, x, t', chumps, 159);
    EjectedSharesPrefix(t, x, t', chumps);
  }
}
