/**
  The routing table object (src/storage/buckets.rs): a vector of buckets that is
  changed in place and splits its deepest bucket only when it overflows.
 */
module Buckets {
  import opened Wrappers
  import opened Ids
  import opened Nodes
  import opened Tables
  import opened Nearest

  // ---------- vector primitives ----------

  /** Vec::swap_remove: element i is dropped and the last element takes its place. */
  function SwapRemove<T>(s: seq<T>, i: nat): (r: seq<T>)
    requires i < |s|
    ensures |r| == |s| - 1
    ensures forall j :: 0 <= j < |r| && j != i ==> r[j] == s[j]
    ensures i < |r| ==> r[i] == s[|s| - 1]
  {
    s[i := s[|s| - 1]][..|s| - 1]
  }

  lemma SwapRemoveItems(s: seq<NodeWrapper>, i: nat)
    requires i < |s|
    ensures multiset(SwapRemove(s, i)) + multiset{s[i]} == multiset(s)
  {
    var t := s[i := s[|s| - 1]];
    assert t == t[..|s| - 1] + [s[|s| - 1]];
    assert multiset(t) == multiset(t[..|s| - 1]) + multiset{s[|s| - 1]};
    assert multiset(t) == multiset(s) - multiset{s[i]} + multiset{s[|s| - 1]};
  }

  ghost predicate OldestFirst(s: seq<NodeWrapper>) {
    forall i, j :: 0 <= i < j < |s| ==> s[i].firstSeen <= s[j].firstSeen
  }

  function Insert<T>(r: seq<T>, j: nat, x: T): (s: seq<T>)
    requires j <= |r|
    ensures |s| == |r| + 1 && s[j] == x
    ensures forall i :: 0 <= i < j ==> s[i] == r[i]
    ensures forall i :: j < i < |s| ==> s[i] == r[i - 1]
  {
    r[..j] + [x] + r[j..]
  }

  lemma InsertItems(r: seq<NodeWrapper>, j: nat, x: NodeWrapper)
    requires j <= |r|
    ensures multiset(Insert(r, j, x)) == multiset(r) + multiset{x}
  {
    assert r == r[..j] + r[j..];
  }

  lemma InsertKeepsOrder(r: seq<NodeWrapper>, j: nat, x: NodeWrapper)
    requires OldestFirst(r) && j <= |r|
    requires j > 0 ==> r[j - 1].firstSeen <= x.firstSeen
    requires j < |r| ==> x.firstSeen <= r[j].firstSeen
    ensures OldestFirst(Insert(r, j, x))
  {
  }

  method InsertByAge(r: seq<NodeWrapper>, x: NodeWrapper) returns (r': seq<NodeWrapper>)
    requires OldestFirst(r)
    ensures OldestFirst(r') && multiset(r') == multiset(r) + multiset{x}
  {
    var j := |r|;
    while j > 0 && x.firstSeen < r[j - 1].firstSeen
      invariant 0 <= j <= |r|
      invariant j < |r| ==> x.firstSeen < r[j].firstSeen
    {
      j := j - 1;
    }
    InsertKeepsOrder(r, j, x);
    InsertItems(r, j, x);
    r' := Insert(r, j, x);
  }

  /** An unstable sort by age: callers may rely on no more than a sorted permutation. */
  method SortByFirstSeen(s: seq<NodeWrapper>) returns (r: seq<NodeWrapper>)
    ensures multiset(r) == multiset(s)
    ensures OldestFirst(r)
  {
    r := [];
    for i := 0 to |s|
      invariant multiset(r) == multiset(s[..i])
      invariant OldestFirst(r)
    {
      assert s[..i + 1] == s[..i] + [s[i]];
      r := InsertByAge(r, s[i]);
    }
    assert s[..|s|] == s;
  }

  lemma InsertKeepsNearestFirst(r: seq<NodeWrapper>, j: nat, x: NodeWrapper, target: Id)
    requires NearestFirst(r, target) && j <= |r|
    requires j > 0 ==> Far(r[j - 1], target) <= Far(x, target)
    requires j < |r| ==> Far(x, target) <= Far(r[j], target)
    ensures NearestFirst(Insert(r, j, x), target)
  {
    var s := Insert(r, j, x);
    forall a | 0 <= a < j ensures Far(s[a], target) <= Far(x, target) {
      assert s[a] == r[a] && Far(r[a], target) <= Far(r[j - 1], target);
    }
    forall b | j < b < |s| ensures Far(x, target) <= Far(s[b], target) {
      assert s[b] == r[b - 1] && Far(r[j], target) <= Far(r[b - 1], target);
    }
  }

  /** The comparison of the nearest-node query: the XOR distances compared as ids. */
  method Nearer(a: NodeWrapper, b: NodeWrapper, target: Id) returns (r: bool)
    ensures r <==> Far(a, target) < Far(b, target)
  {
    var aDist := Xor(a.node.id, target);
    var bDist := Xor(b.node.id, target);
    var order := PartialCmp(aDist, bDist);
    r := order == Less;
  }

  method InsertByDistance(r: seq<NodeWrapper>, x: NodeWrapper, target: Id) returns (r': seq<NodeWrapper>)
    requires NearestFirst(r, target)
    ensures NearestFirst(r', target) && multiset(r') == multiset(r) + multiset{x}
  {
    var j := |r|;
    while j > 0
      invariant 0 <= j <= |r|
      invariant j < |r| ==> Far(x, target) < Far(r[j], target)
    {
      var before := Nearer(x, r[j - 1], target);
      if !before {
        break;
      }
      j := j - 1;
    }
    InsertKeepsNearestFirst(r, j, x, target);
    InsertItems(r, j, x);
    r' := Insert(r, j, x);
  }

  /** An unstable sort by distance: callers may rely on no more than a sorted permutation. */
  method SortByDistance(s: seq<NodeWrapper>, target: Id) returns (r: seq<NodeWrapper>)
    ensures multiset(r) == multiset(s)
    ensures NearestFirst(r, target)
  {
    r := [];
    for i := 0 to |s|
      invariant multiset(r) == multiset(s[..i])
      invariant NearestFirst(r, target)
    {
      assert s[..i + 1] == s[..i] + [s[i]];
      r := InsertByDistance(r, s[i], target);
    }
    assert s[..|s|] == s;
  }

  datatype Slot = Slot(bucket: nat, index: nat)

  class Buckets {
    var ourId: Id
    var buckets: seq<seq<NodeWrapper>>
    const k: nat

    ghost function View(): Table
      reads this
    {
      Table(ourId, k, buckets)
    }

    constructor (ourId: Id, k: nat)
      ensures View() == EmptyTable(ourId, k)
    {
      this.ourId := ourId;
      this.buckets := [[]];
      this.k := k;
    }

    /**
      Adds a node, splitting buckets as needed. The nodes pushed out are returned;
      a caller that passes no chump list ignores them.
     */
    method Add(item: NodeWrapper) returns (chumps: seq<NodeWrapper>)
      requires View().Valid()
      modifies this
      ensures AddStep(old(View()), item, View(), chumps)
    {
      if item.node.id == ourId {
        return [];
      }
      var dest := GetDestBucketIdxForId(item.node.id);
      ItemPushed(View(), dest, item);
      buckets := buckets[dest := buckets[dest] + [item]];
      ghost var t := View();
      chumps := HandleBucketOverflow(dest);
      OverflowMeansAdded(old(View()), item, t, View(), chumps);
    }

    method Clear()
      modifies this
      ensures View() == EmptyTable(old(ourId), k)
    {
      buckets := [];
      buckets := buckets + [[]];
    }

    method SetId(newId: Id)
      modifies this
      ensures View() == EmptyTable(newId, k)
    {
      Clear();
      ourId := newId;
    }

    method GetDestBucketIdxForId(id: Id) returns (j: nat)
      requires |buckets| > 0
      ensures j == Dest(ourId, |buckets|, id)
    {
      var bits := MatchingPrefixBits(ourId, id);
      j := Min(|buckets| - 1, bits);
    }

    /** The overflow loop: it walks to the end of a vector that it may lengthen on the way. */
    method HandleBucketOverflow(start: nat) returns (chumps: seq<NodeWrapper>)
      requires Overflowing(View(), View(), start, [])
      modifies this`buckets
      ensures View().Valid() && Overflowing(old(View()), View(), |buckets|, chumps)
    {
      chumps := [];
      var bucketIndex := start;
      while bucketIndex < |buckets|
        invariant Overflowing(old(View()), View(), bucketIndex, chumps)
        decreases ID_BITS + 1 - bucketIndex
      {
        if |buckets[bucketIndex]| > k {
          ghost var t := View();
          var remainder := SplitBucket(bucketIndex);
          SplitStep(old(View()), t, bucketIndex, chumps, View(), remainder);
          chumps := chumps + remainder;
        }
        bucketIndex := bucketIndex + 1;
      }
    }

    /** One round of the overflow loop, for a bucket over capacity. */
    method SplitBucket(b: nat) returns (remainder: seq<NodeWrapper>)
      requires Overflowing(View(), View(), b, []) && b < |buckets| && |buckets[b]| > k
      modifies this`buckets
      ensures Overflowing(old(View()), View(), b + 1, remainder)
    {
      remainder := [];
      ghost var t := View();
      // The deepest bucket is over capacity: give it a successor.
      if b == |buckets| - 1 {
        OverfullIsDeep(t);
        buckets := buckets + [[]];
      }
      ghost var bs := buckets;
      OverfullMayMove(t, b, bs);
      var moved := Redistribute(b);
      RedistributedState(t, bs, View(), b, moved);
      // Still over capacity: keep the oldest.
      if |buckets[b]| > k {
        ghost var t1 := View();
        var sorted := SortByFirstSeen(buckets[b]);
        TruncatedState(t, t1, b, sorted);
        remainder := sorted[k..];
        buckets := buckets[b := sorted[..k]];
      }
    }

    /**
      The reverse loop over one bucket: every node whose place is now the next
      bucket is moved there by swap_remove and push.
     */
    method Redistribute(b: nat) returns (ghost moved: seq<NodeWrapper>)
      requires b + 1 < |buckets|
      requires forall j :: 0 <= j < |buckets[b]| ==> b <= Dest(ourId, |buckets|, buckets[b][j].node.id) <= b + 1
      modifies this`buckets
      ensures Redistributed(ourId, old(buckets), buckets, b, moved, 0)
    {
      moved := [];
      var i := |buckets[b]|;
      NothingMovedYet(ourId, buckets, b);
      while i > 0
        invariant 0 <= i && b + 1 < |buckets|
        invariant Redistributed(ourId, old(buckets), buckets, b, moved, i)
      {
        i := i - 1;
        var ideal := GetDestBucketIdxForId(buckets[b][i].node.id);
        MoveOne(ourId, old(buckets), buckets, b, moved, i);
        if ideal != b {
          var node := buckets[b][i];
          buckets := buckets[b := SwapRemove(buckets[b], i)];
          buckets := buckets[ideal := buckets[ideal] + [node]];
          moved := moved + [node];
        }
      }
    }

    method Contains(id: Id) returns (r: bool)
      requires View().Valid()
      ensures r <==> id in IdsOf(View().Contents())
    {
      var slot := GetMut(id);
      r := slot.Some?;
    }

    /**
      Where the node with this id is stored, if it is. Only one bucket is searched;
      a failed search means that no bucket holds the id.
     */
    method GetMut(id: Id) returns (slot: Option<Slot>)
      requires View().Valid()
      ensures slot.None? <==> id !in IdsOf(View().Contents())
      ensures slot.Some? ==>
                && slot.value.bucket < |buckets| && slot.value.index < |buckets[slot.value.bucket]|
                && At(slot.value).node.id == id
                && At(slot.value) in View().Contents()
    {
      var dest := GetDestBucketIdxForId(id);
      for i := 0 to |buckets[dest]|
        invariant forall j :: 0 <= j < i ==> buckets[dest][j].node.id != id
      {
        if buckets[dest][i].node.id == id {
          StoredIn(buckets, buckets[dest][i]);
          return Some(Slot(dest, i));
        }
      }
      NotInItsBucket(View(), id);
      return None;
    }

    function At(slot: Slot): NodeWrapper
      requires slot.bucket < |buckets| && slot.index < |buckets[slot.bucket]|
      reads this
    {
      buckets[slot.bucket][slot.index]
    }

    /** Writing through the reference that GetMut gives: the node keeps its id. */
    method Write(slot: Slot, item: NodeWrapper)
      requires View().Valid()
      requires slot.bucket < |buckets| && slot.index < |buckets[slot.bucket]|
      requires item.node == At(slot).node
      modifies this`buckets
      ensures View().Valid() && |buckets| == |old(buckets)|
      ensures View().Contents() + multiset{old(At(slot))} == old(View().Contents()) + multiset{item}
    {
      SlotWritten(ourId, buckets, slot.bucket, slot.index, item);
      buckets := buckets[slot.bucket := buckets[slot.bucket][slot.index := item]];
    }

    /** Removes the node with this id, wherever splits and swaps have put it. */
    method Remove(id: Id) returns (r: Option<NodeWrapper>)
      requires View().Valid()
      modifies this`buckets
      ensures View().Valid() && |buckets| == |old(buckets)|
      ensures r.None? <==> id !in old(IdsOf(View().Contents()))
      ensures r.None? ==> buckets == old(buckets)
      ensures r.Some? ==> r.value.node.id == id
      ensures r.Some? ==> View().Contents() + multiset{r.value} == old(View().Contents())
    {
      var dest := GetDestBucketIdxForId(id);
      for i := 0 to |buckets[dest]|
        invariant buckets == old(buckets)
        invariant forall j :: 0 <= j < i ==> buckets[dest][j].node.id != id
      {
        if buckets[dest][i].node.id == id {
          r := Some(buckets[dest][i]);
          SlotRemoved(ourId, buckets, dest, i);
          buckets := buckets[dest := SwapRemove(buckets[dest], i)];
          return;
        }
      }
      NotInItsBucket(View(), id);
      return None;
    }

    /** Keeps exactly the nodes that satisfy f, each in its bucket. */
    method Retain(f: NodeWrapper -> bool)
      requires View().Valid()
      modifies this`buckets
      ensures View().Valid() && |buckets| == |old(buckets)|
      ensures forall x :: View().Contents()[x] == if f(x) then old(View().Contents())[x] else 0
    {
      var bs := buckets;
      for i := 0 to |bs|
        invariant |buckets| == |bs|
        invariant forall j :: 0 <= j < |bs| ==> buckets[j] == if j < i then Kept(bs[j], f) else bs[j]
      {
        buckets := buckets[i := Kept(bs[i], f)];
      }
      RetainedContents(bs, buckets, f);
    }

    /** The k nearest stored nodes to an id, leaving out an excluded one, nearest first. */
    method GetNearestNodes(id: Id, exclude: Option<Id>) returns (r: seq<NodeWrapper>)
      ensures KNearest(Without(View().Contents(), exclude), id, k, r)
    {
      var values := Values();
      var f := (x: NodeWrapper) => exclude != Some(x.node.id);
      var all := Kept(values, f);
      KeptIsWithout(values, f, exclude);
      var sorted := SortByDistance(all, id);
      TruncatedIsNearest(Without(View().Contents(), exclude), id, k, sorted);
      r := sorted[..Min(k, |sorted|)];
    }

    method Values() returns (r: seq<NodeWrapper>)
      ensures r == Flatten(buckets)
    {
      r := [];
      for i := 0 to |buckets|
        invariant r + Flatten(buckets[i..]) == Flatten(buckets)
      {
        assert buckets[i..][1..] == buckets[i + 1..];
        r := r + buckets[i];
      }
    }

    method Count() returns (n: nat)
      ensures n == |View().Contents()|
    {
      n := 0;
      for i := 0 to |buckets|
        invariant n + |Flatten(buckets[i..])| == |Flatten(buckets)|
      {
        assert buckets[i..][1..] == buckets[i + 1..];
        n := n + |buckets[i]|;
      }
    }
  }

  // ---------- facts the methods use ----------

  /** More than k nodes in the deepest bucket: they reach its depth, which is below the limit. */
  lemma OverfullIsDeep(t: Table)
    requires Placed(t.ourId, t.buckets) && |t.buckets[|t.buckets| - 1]| > t.k
    ensures |t.buckets| <= ID_BITS
    ensures |AtLeast(t.Contents(), t.ourId, |t.buckets| - 1)| > t.k
  {
    var last := |t.buckets| - 1;
    BucketIsClass(t.ourId, t.buckets, last);
    var x := t.buckets[last][0];
    assert x in t.buckets[last];
    PrefixLaws(t.ourId, x.node.id, x.node.id);
  }

  /** Replacing one bucket by nodes that belong there keeps every node in its place. */
  lemma PlacedUpdate(ourId: Id, bs: seq<seq<NodeWrapper>>, j: nat, s: seq<NodeWrapper>)
    requires Placed(ourId, bs) && j < |bs|
    requires forall x :: x in s ==> x.node.id != ourId && Dest(ourId, |bs|, x.node.id) == j
    ensures Placed(ourId, bs[j := s])
  {
  }

  lemma SlotWritten(ourId: Id, bs: seq<seq<NodeWrapper>>, j: nat, i: nat, item: NodeWrapper)
    requires Placed(ourId, bs) && j < |bs| && i < |bs[j]| && item.node == bs[j][i].node
    ensures Placed(ourId, bs[j := bs[j][i := item]])
    ensures Stored(bs[j := bs[j][i := item]]) + multiset{bs[j][i]} == Stored(bs) + multiset{item}
  {
    var s := bs[j][i := item];
    assert bs[j][i] in bs[j];
    forall x | x in s ensures x.node.id != ourId && Dest(ourId, |bs|, x.node.id) == j {
      var m :| 0 <= m < |s| && s[m] == x;
      assert bs[j][m] in bs[j];
    }
    PlacedUpdate(ourId, bs, j, s);
    StoredUpdate(bs, j, s);
    assert multiset(s) == multiset(bs[j]) - multiset{bs[j][i]} + multiset{item};
  }

  lemma SlotRemoved(ourId: Id, bs: seq<seq<NodeWrapper>>, j: nat, i: nat)
    requires Placed(ourId, bs) && j < |bs| && i < |bs[j]|
    ensures bs[j][i] in Stored(bs)
    ensures Placed(ourId, bs[j := SwapRemove(bs[j], i)])
    ensures Stored(bs[j := SwapRemove(bs[j], i)]) + multiset{bs[j][i]} == Stored(bs)
  {
    var s := SwapRemove(bs[j], i);
    SwapRemoveItems(bs[j], i);
    forall x | x in s ensures x in bs[j] {
      assert x in multiset(s) + multiset{bs[j][i]};
    }
    PlacedUpdate(ourId, bs, j, s);
    StoredUpdate(bs, j, s);
  }

  /**
    The state of the overflow loop, started at table t0, when it has dealt with
    all buckets before index b: only bucket b may be over capacity, by one node.
   */
  ghost predicate Overflowing(t0: Table, t: Table, b: nat, chumps: seq<NodeWrapper>) {
    && t.ourId == t0.ourId && t.k == t0.k
    && Placed(t.ourId, t.buckets)
    && |t.buckets| <= ID_BITS + 1
    && (forall j :: 0 <= j < |t.buckets| ==> |t.buckets[j]| <= if j == b && chumps == [] then t.k + 1 else t.k)
    && t.Contents() + multiset(chumps) == t0.Contents()
    && |chumps| <= 1
    && (chumps != [] ==> Ejected(t, chumps[0]))
    && Deepens(t0, t0.Contents(), t)
  }

  /** Right after the push only the bucket that took the node may be over capacity. */
  lemma ItemPushed(t: Table, b: nat, x: NodeWrapper)
    requires t.Valid() && x.node.id != t.ourId && b == Dest(t.ourId, |t.buckets|, x.node.id)
    ensures var t' := t.(buckets := t.buckets[b := t.buckets[b] + [x]]);
            t'.Contents() == t.Contents() + multiset{x} && Overflowing(t', t', b, [])
  {
    var s := t.buckets[b] + [x];
    PlacedUpdate(t.ourId, t.buckets, b, s);
    PushStored(t.buckets, b, x);
    var t' := t.(buckets := t.buckets[b := s]);
    NothingPushedOut(t'.Contents(), t'.Contents());
  }

  lemma PushStored(bs: seq<seq<NodeWrapper>>, b: nat, x: NodeWrapper)
    requires b < |bs|
    ensures Stored(bs[b := bs[b] + [x]]) == Stored(bs) + multiset{x}
  {
    StoredUpdate(bs, b, bs[b] + [x]);
    assert multiset(bs[b] + [x]) == multiset(bs[b]) + multiset{x};
  }

  lemma OverflowMeansAdded(t0: Table, x: NodeWrapper, t: Table, t': Table, chumps: seq<NodeWrapper>)
    requires x.node.id != t0.ourId && t.ourId == t0.ourId && t.k == t0.k && |t.buckets| == |t0.buckets|
    requires t.Contents() == t0.Contents() + multiset{x}
    requires t'.Valid() && Overflowing(t, t', |t'.buckets|, chumps)
    ensures AddStep(t0, x, t', chumps)
  {
  }

  /** Two rounds of the overflow loop: the first pushed nothing out, or there would be no second. */
  lemma SplitStep(t0: Table, t: Table, b: nat, chumps: seq<NodeWrapper>, t': Table, remainder: seq<NodeWrapper>)
    requires Overflowing(t0, t, b, chumps) && b < |t.buckets| && |t.buckets[b]| > t.k
    requires Overflowing(t, t', b + 1, remainder)
    ensures Overflowing(t0, t', b + 1, chumps + remainder)
  {
    assert chumps == [];
    assert chumps + remainder == remainder;
    NothingPushedOut(t.Contents(), t0.Contents());
    DeepensChain(t0, t, t', t0.Contents());
  }

  lemma NothingPushedOut(a: Items, b: Items)
    ensures a + multiset([]) == b <==> a == b
  {
    assert a + multiset([]) == a;
  }

  lemma DeepensChain(t0: Table, t: Table, t': Table, m: Items)
    requires t.ourId == t0.ourId && t.k == t0.k
    requires Deepens(t0, m, t) && Deepens(t, m, t')
    ensures Deepens(t0, m, t')
  {
  }

  /** Of the bucket all, the nodes own remain and moved went on, with positions below i still to be looked at. */
  ghost predicate Sifted(ourId: Id, n: nat, b: nat, all: seq<NodeWrapper>, own: seq<NodeWrapper>,
                         moved: seq<NodeWrapper>, i: nat)
    requires n > 0
  {
    && multiset(own) + multiset(moved) == multiset(all)
    && |own| + |moved| == |all|
    && i <= |own|
    && (forall j :: 0 <= j < i ==> b <= Dest(ourId, n, own[j].node.id) <= b + 1)
    && (forall j :: i <= j < |own| ==> Dest(ourId, n, own[j].node.id) == b)
    && (forall x :: x in moved ==> Dest(ourId, n, x.node.id) == b + 1)
  }

  /** bs is bs0 after part of bucket b has been sifted into itself and its successor. */
  ghost predicate Redistributed(ourId: Id, bs0: seq<seq<NodeWrapper>>, bs: seq<seq<NodeWrapper>>, b: nat,
                                moved: seq<NodeWrapper>, i: nat)
  {
    && b + 1 < |bs0| == |bs|
    && bs == bs0[b := bs[b]][b + 1 := bs0[b + 1] + moved]
    && Sifted(ourId, |bs|, b, bs0[b], bs[b], moved, i)
  }

  lemma SiftMove(ourId: Id, n: nat, b: nat, all: seq<NodeWrapper>, own: seq<NodeWrapper>,
                 moved: seq<NodeWrapper>, i: nat)
    requires n > 0 && i < |own| && Sifted(ourId, n, b, all, own, moved, i + 1)
    requires Dest(ourId, n, own[i].node.id) != b
    ensures Dest(ourId, n, own[i].node.id) == b + 1
    ensures Sifted(ourId, n, b, all, SwapRemove(own, i), moved + [own[i]], i)
  {
    SwapRemoveItems(own, i);
    MovedBalance(multiset(SwapRemove(own, i)), own[i], multiset(own), moved, multiset(all));
  }

  lemma NothingMovedYet(ourId: Id, bs: seq<seq<NodeWrapper>>, b: nat)
    requires b + 1 < |bs|
    requires forall j :: 0 <= j < |bs[b]| ==> b <= Dest(ourId, |bs|, bs[b][j].node.id) <= b + 1
    ensures Redistributed(ourId, bs, bs, b, [], |bs[b]|)
  {
    assert bs[b + 1] + [] == bs[b + 1];
    NothingPushedOut(multiset(bs[b]), multiset(bs[b]));
  }

  /** One step of the reverse loop: the node at i stays, or goes to the next bucket. */
  lemma MoveOne(ourId: Id, bs0: seq<seq<NodeWrapper>>, bs: seq<seq<NodeWrapper>>, b: nat,
                moved: seq<NodeWrapper>, i: nat)
    requires Redistributed(ourId, bs0, bs, b, moved, i + 1)
    ensures var node := bs[b][i];
            if Dest(ourId, |bs|, node.node.id) == b then Redistributed(ourId, bs0, bs, b, moved, i)
            else
              && Dest(ourId, |bs|, node.node.id) == b + 1
              && Redistributed(
                   ourId, bs0, bs[b := SwapRemove(bs[b], i)][b + 1 := bs[b + 1] + [node]], b, moved + [node], i)
  {
    if Dest(ourId, |bs|, bs[b][i].node.id) != b {
      SiftMove(ourId, |bs|, b, bs0[b], bs[b], moved, i);
      assert (bs0[b + 1] + moved) + [bs[b][i]] == bs0[b + 1] + (moved + [bs[b][i]]);
    }
  }

  lemma MovedBalance(kept: Items, x: NodeWrapper, own: Items, moved: seq<NodeWrapper>, all: Items)
    requires kept + multiset{x} == own && own + multiset(moved) == all
    ensures kept + multiset(moved + [x]) == all
  {
  }

  /** A bucket over capacity, and its new successor if it was the deepest. */
  ghost predicate Extended(t: Table, b: nat, bs1: seq<seq<NodeWrapper>>) {
    && Overflowing(t, t, b, []) && b < |t.buckets| && |t.buckets[b]| == t.k + 1
    && bs1 == if b + 1 == |t.buckets| then t.buckets + [[]] else t.buckets
  }

  lemma OverfullMayMove(t: Table, b: nat, bs1: seq<seq<NodeWrapper>>)
    requires Extended(t, b, bs1)
    ensures forall j :: 0 <= j < |bs1[b]| ==> b <= Dest(t.ourId, |bs1|, bs1[b][j].node.id) <= b + 1
  {
    forall j | 0 <= j < |bs1[b]| ensures b <= Dest(t.ourId, |bs1|, bs1[b][j].node.id) <= b + 1 {
      assert bs1[b][j] in t.buckets[b];
    }
  }

  /** After bucket b was sifted into itself and its successor, every node is in its place. */
  lemma RedistributedPlaced(
      t: Table, bs1: seq<seq<NodeWrapper>>, bs2: seq<seq<NodeWrapper>>, b: nat, moved: seq<NodeWrapper>)
    requires Extended(t, b, bs1) && Redistributed(t.ourId, bs1, bs2, b, moved, 0)
    ensures Placed(t.ourId, bs2)
    ensures b + 1 < |t.buckets| ==> moved == []
  {
    forall x | x in bs2[b] || x in moved ensures x in t.buckets[b] {
      assert x in multiset(bs2[b]) + multiset(moved);
    }
    var first := if moved == [] then b else Dest(t.ourId, |t.buckets|, moved[0].node.id);
    forall j, x | 0 <= j < |bs2| && x in bs2[j]
      ensures x.node.id != t.ourId && Dest(t.ourId, |bs2|, x.node.id) == j
    {
      if j != b && x !in moved {
        assert x in t.buckets[j];
      }
    }
  }

  lemma RedistributedStored(
      ourId: Id, bs: seq<seq<NodeWrapper>>, bs2: seq<seq<NodeWrapper>>, b: nat, moved: seq<NodeWrapper>)
    requires Redistributed(ourId, bs, bs2, b, moved, 0)
    ensures Stored(bs2) == Stored(bs)
  {
    var mid := bs[b := bs2[b]];
    StoredUpdate(bs, b, bs2[b]);
    StoredUpdate(mid, b + 1, bs[b + 1] + moved);
    BalanceMoved(Stored(bs), multiset(bs[b]), multiset(bs2[b]), multiset(bs[b + 1]), multiset(moved));
  }

  lemma RedistributedSizes(
      t: Table, bs1: seq<seq<NodeWrapper>>, bs2: seq<seq<NodeWrapper>>, b: nat, moved: seq<NodeWrapper>)
    requires Extended(t, b, bs1) && Redistributed(t.ourId, bs1, bs2, b, moved, 0)
    requires b + 1 < |t.buckets| ==> moved == []
    ensures forall j :: 0 <= j < |bs2| && j != b && (j != b + 1 || |bs2[b]| > t.k) ==> |bs2[j]| <= t.k
    ensures |bs2[b]| <= t.k + 1 && |bs2[b + 1]| <= t.k + 1
  {
    forall j | 0 <= j < |bs2| && j != b && j != b + 1 ensures |bs2[j]| <= t.k {
      assert bs2[j] == t.buckets[j];
    }
    assert b + 1 < |t.buckets| ==> |t.buckets[b + 1]| <= t.k;
  }

  lemma RedistributedDepth(t: Table, bs1: seq<seq<NodeWrapper>>, t': Table, b: nat)
    requires Extended(t, b, bs1) && |t'.buckets| == |bs1|
    ensures Stored(bs1) == t.Contents()
    ensures |t'.buckets| <= ID_BITS + 1
    ensures Deepens(t, t.Contents(), t')
  {
    StoredAppend(t.buckets, []);
    NothingPushedOut(t.Contents(), Stored(bs1));
    if b + 1 == |t.buckets| {
      OverfullIsDeep(t);
    }
  }

  /** The sifted table, if that brought bucket b within capacity, is ready for the next round. */
  lemma RedistributedState(t: Table, bs1: seq<seq<NodeWrapper>>, t': Table, b: nat, moved: seq<NodeWrapper>)
    requires Extended(t, b, bs1) && Redistributed(t.ourId, bs1, t'.buckets, b, moved, 0)
    requires t'.ourId == t.ourId && t'.k == t.k
    ensures Placed(t'.ourId, t'.buckets) && |t'.buckets| <= ID_BITS + 1
    ensures t'.Contents() == t.Contents()
    ensures Deepens(t, t.Contents(), t')
    ensures |t'.buckets[b]| <= t.k + 1
    ensures forall j :: 0 <= j < |t'.buckets| && j != b && (j != b + 1 || |t'.buckets[b]| > t.k) ==>
              |t'.buckets[j]| <= t.k
    ensures |t'.buckets[b]| <= t.k ==> Overflowing(t, t', b + 1, [])
  {
    RedistributedPlaced(t, bs1, t'.buckets, b, moved);
    RedistributedStored(t.ourId, bs1, t'.buckets, b, moved);
    RedistributedDepth(t, bs1, t', b);
    RedistributedSizes(t, bs1, t'.buckets, b, moved);
    NothingPushedOut(t'.Contents(), t.Contents());
  }

  lemma TruncatedState(t: Table, t1: Table, b: nat, sorted: seq<NodeWrapper>)
    requires t1.ourId == t.ourId && t1.k == t.k && t1.Contents() == t.Contents() && Deepens(t, t.Contents(), t1)
    requires Placed(t1.ourId, t1.buckets) && b + 1 < |t1.buckets| <= ID_BITS + 1
    requires forall j :: 0 <= j < |t1.buckets| && j != b ==> |t1.buckets[j]| <= t1.k
    requires multiset(sorted) == multiset(t1.buckets[b]) && |t1.buckets[b]| == t1.k + 1
    requires OldestFirst(sorted)
    ensures |sorted| == t.k + 1
    ensures Overflowing(t, t1.(buckets := t1.buckets[b := sorted[..t.k]]), b + 1, sorted[t.k..])
  {
    AfterTruncate(t1, sorted, b);
    assert sorted[t.k..] == [sorted[t.k]];
    var t' := t1.(buckets := t1.buckets[b := sorted[..t.k]]);
    DeepensChain(t, t1, t', t.Contents());
  }

  lemma BalanceMoved(all: Items, own: Items, kept: Items, next: Items, moved: Items)
    requires own <= all && kept + moved == own
    requires next <= all - own + kept
    ensures all - own + kept - next + (next + moved) == all
  {
  }

  /** The state of the table once an overfull bucket has been cut back to its k oldest. */
  lemma AfterTruncate(t: Table, sorted: seq<NodeWrapper>, b: nat)
    requires Placed(t.ourId, t.buckets) && b + 1 < |t.buckets| <= ID_BITS + 1
    requires forall j :: 0 <= j < |t.buckets| && j != b ==> |t.buckets[j]| <= t.k
    requires multiset(sorted) == multiset(t.buckets[b]) && |t.buckets[b]| == t.k + 1
    requires OldestFirst(sorted)
    ensures |sorted| == t.k + 1
    ensures var t' := t.(buckets := t.buckets[b := sorted[..t.k]]);
            && t'.Valid()
            && t'.Contents() + multiset(sorted[t.k..]) == t.Contents()
            && Ejected(t', sorted[t.k])
  {
    assert |sorted| == |multiset(sorted)| == |multiset(t.buckets[b])| == t.k + 1;
    assert sorted == sorted[..t.k] + sorted[t.k..];
    forall x | x in sorted ensures x in t.buckets[b] {
      assert x in multiset(sorted);
    }
    PlacedUpdate(t.ourId, t.buckets, b, sorted[..t.k]);
    StoredUpdate(t.buckets, b, sorted[..t.k]);
    assert sorted[t.k] in t.buckets[b];
    var t' := t.(buckets := t.buckets[b := sorted[..t.k]]);
    OldestStay(t', b, sorted);
  }

  lemma OldestStay(t: Table, b: nat, sorted: seq<NodeWrapper>)
    requires t.Valid() && b + 1 < |t.buckets| && OldestFirst(sorted)
    requires |sorted| == t.k + 1 && t.buckets[b] == sorted[..t.k]
    requires Dest(t.ourId, |t.buckets|, sorted[t.k].node.id) == b
    ensures Ejected(t, sorted[t.k])
  {
    BucketIsExact(t, b);
    assert |t.Class(b)| == |multiset(sorted[..t.k])| == t.k;
    forall y | y in t.Class(b) ensures y.firstSeen <= sorted[t.k].firstSeen {
      assert y in sorted[..t.k];
    }
  }

  lemma NotInItsBucket(t: Table, id: Id)
    requires Placed(t.ourId, t.buckets)
    requires forall x :: x in t.buckets[Dest(t.ourId, |t.buckets|, id)] ==> x.node.id != id
    ensures id !in IdsOf(t.Contents())
  {
    forall x | x in t.Contents() ensures x.node.id != id {
      StoredIn(t.buckets, x);
    }
  }

  function Kept(s: seq<NodeWrapper>, f: NodeWrapper -> bool): (r: seq<NodeWrapper>)
    ensures |r| <= |s|
  {
    if s == [] then [] else (if f(s[0]) then [s[0]] else []) + Kept(s[1..], f)
  }

  lemma {:induction false} KeptItems(s: seq<NodeWrapper>, f: NodeWrapper -> bool, x: NodeWrapper)
    ensures multiset(Kept(s, f))[x] == if f(x) then multiset(s)[x] else 0
  {
    if s != [] {
      KeptItems(s[1..], f, x);
      FirstItem(s[0], s[1..], x);
      FirstItem(s[0], Kept(s[1..], f), x);
      assert s == [s[0]] + s[1..];
    }
  }

  lemma FirstItem(a: NodeWrapper, s: seq<NodeWrapper>, x: NodeWrapper)
    ensures multiset([a] + s)[x] == (if a == x then 1 else 0) + multiset(s)[x]
  {
  }

  lemma KeptIsWithout(s: seq<NodeWrapper>, f: NodeWrapper -> bool, exclude: Option<Id>)
    requires forall x :: f(x) <==> exclude != Some(x.node.id)
    ensures multiset(Kept(s, f)) == Without(multiset(s), exclude)
  {
    forall x ensures multiset(Kept(s, f))[x] == Without(multiset(s), exclude)[x] {
      KeptItems(s, f, x);
    }
  }

  lemma {:induction false} RetainedContents(
      bs: seq<seq<NodeWrapper>>, bs': seq<seq<NodeWrapper>>, f: NodeWrapper -> bool)
    requires |bs'| == |bs| && forall j :: 0 <= j < |bs| ==> bs'[j] == Kept(bs[j], f)
    ensures forall x :: Stored(bs')[x] == if f(x) then Stored(bs)[x] else 0
    ensures forall j, x :: 0 <= j < |bs| && x in bs'[j] ==> x in bs[j]
  {
    forall j, x | 0 <= j < |bs| && x in bs'[j] ensures x in bs[j] {
      KeptItems(bs[j], f, x);
      assert multiset(bs[j])[x] > 0;
    }
    if bs != [] {
      RetainedContents(bs[1..], bs'[1..], f);
      forall x ensures Stored(bs')[x] == if f(x) then Stored(bs)[x] else 0 {
        KeptItems(bs[0], f, x);
      }
    }
  }
}
