/** What an iterative lookup keeps and gains, whatever the network answers. */
module Lookups {
  import opened Wrappers
  import opened Ids
  import opened Nodes
  import opened Tables
  import opened Nearest
  import opened BucketRuns
  import opened Outcomes

  /** The ids of ids that share at least d bits with the target. */
  ghost function Reaching(ids: set<Id>, target: Id, d: nat): set<Id> {
    set id | id in ids && Prefix(target, id) >= d
  }

  /** The ids of ids that share exactly d bits with the target. */
  ghost function Sharing(ids: set<Id>, target: Id, d: nat): set<Id> {
    set id | id in ids && Prefix(target, id) == d
  }

  /** The ids of a list of nodes. */
  ghost function IdsIn(xs: seq<NodeWrapper>): set<Id> {
    IdsOf(multiset(xs))
  }

  /** A node offered is added unless its id is stored already. */
  ghost predicate Offered(t: Table, x: NodeWrapper, t': Table) {
    if x.node.id in IdsOf(t.Contents()) then t' == t else exists chumps :: AddStep(t, x, t', chumps)
  }

  /** The nodes xs, offered one after the other, lead from table t to t'. */
  ghost predicate OfferedAll(t: Table, xs: seq<NodeWrapper>, t': Table)
    decreases |xs|
  {
    if xs == [] then t' == t
    else exists m :: Offered(t, xs[0], m) && OfferedAll(m, xs[1..], t')
  }

  /** The table knows the ids heard: each is stored, is the target, or belongs to a full class. */
  ghost predicate Knows(t: Table, heard: set<Id>) {
    && t.Valid() && Distinct(t.Contents()) && t.k > 0
    && IdsOf(t.Contents()) <= heard
    && forall id :: id in heard && id != t.ourId ==>
         id in IdsOf(t.Contents()) || |t.Class(Prefix(t.ourId, id))| == t.k
  }

  /** No prefix count of m is larger than that of m'. */
  ghost predicate NoFewer(m: Items, m': Items, target: Id) {
    forall d :: |AtLeast(m, target, d)| <= |AtLeast(m', target, d)|
  }

  // ---------- one offer ----------

  lemma AddNoFewer(t: Table, x: NodeWrapper, t': Table, chumps: seq<NodeWrapper>)
    requires t.Valid() && AddStep(t, x, t', chumps)
    ensures NoFewer(t.Contents(), t'.Contents(), t.ourId)
  {
    if x.node.id != t.ourId {
      forall d: nat ensures |AtLeast(t.Contents(), t.ourId, d)| <= |AtLeast(t'.Contents(), t.ourId, d)| {
        AddNoFewerAt(t, x, t', chumps, d);
      }
    }
  }

  lemma AddNoFewerAt(t: Table, x: NodeWrapper, t': Table, chumps: seq<NodeWrapper>, d: nat)
    requires t.Valid() && AddStep(t, x, t', chumps) && x.node.id != t.ourId
    ensures |AtLeast(t.Contents(), t.ourId, d)| <= |AtLeast(t'.Contents(), t.ourId, d)|
  {
    if chumps == [] {
      assert t'.Contents() + multiset(chumps) == t'.Contents();
      InRangeMonotone(t.Contents(), t'.Contents(), t.ourId, d, ID_BITS + 1, d, ID_BITS + 1);
    } else {
      EjectedSharesPrefix(t, x, t', chumps);
      assert multiset(chumps) == multiset{chumps[0]} by { assert chumps == [chumps[0]]; }
      SwapNoFewerAt(t.Contents(), x, t'.Contents(), chumps[0], t.ourId, d);
    }
  }

  lemma SwapNoFewerAt(m: Items, x: NodeWrapper, m': Items, e: NodeWrapper, t: Id, d: nat)
    requires m' + multiset{e} == m + multiset{x} && Prefix(t, e.node.id) == Prefix(t, x.node.id)
    ensures |AtLeast(m, t, d)| == |AtLeast(m', t, d)|
  {
    InRangeBalance(m', multiset{e}, m, multiset{x}, t, d, ID_BITS + 1);
    InRangeOne(x, t, d, ID_BITS + 1);
    InRangeOne(e, t, d, ID_BITS + 1);
  }

  lemma StoredStays(m: Items, x: NodeWrapper, m': Items, chumps: seq<NodeWrapper>, id: Id)
    requires m' + multiset(chumps) == m + multiset{x} && |chumps| <= 1
    requires id in IdsOf(m) || id == x.node.id
    ensures id in IdsOf(m') || (chumps != [] && chumps[0].node.id == id)
  {
    var y :| y in m + multiset{x} && y.node.id == id by {
      if id == x.node.id {
        assert x in m + multiset{x};
      } else {
        var z :| z in m && z.node.id == id;
        assert z in m + multiset{x};
      }
    }
    assert y in m' + multiset(chumps);
    if y !in m' {
      assert y in chumps;
    }
  }

  lemma FullStaysFull(t: Table, x: NodeWrapper, t': Table, chumps: seq<NodeWrapper>, c: nat)
    requires t.Valid() && AddStep(t, x, t', chumps) && x.node.id != t.ourId
    requires |t.Class(c)| == t.k
    ensures |t'.Class(c)| == t'.k
  {
    ClassAtMostK(t', c);
    AddStepClass(t, x, t', chumps, c);
    if c == Prefix(t.ourId, x.node.id) {
      assert |t'.Class(c) + multiset(chumps)| == |t.Class(c) + multiset{x}|;
    }
  }

  lemma OfferKeepsDistinct(m: Items, x: NodeWrapper, m': Items, chumps: seq<NodeWrapper>)
    requires m' + multiset(chumps) == m + multiset{x}
    requires Distinct(m) && x.node.id !in IdsOf(m)
    ensures Distinct(m') && IdsOf(m') <= IdsOf(m) + {x.node.id}
  {
    assert m' <= m + multiset{x};
    DistinctSubset(m', m + multiset{x});
    forall y | y in m' ensures y.node.id in IdsOf(m) + {x.node.id} {
      assert y in m + multiset{x};
    }
  }

  lemma OfferKnown(t: Table, heard: set<Id>, x: NodeWrapper, t': Table, chumps: seq<NodeWrapper>, id: Id)
    requires Knows(t, heard) && AddStep(t, x, t', chumps) && x.node.id != t.ourId
    requires id in heard + {x.node.id} && id != t.ourId
    ensures id in IdsOf(t'.Contents()) || |t'.Class(Prefix(t.ourId, id))| == t'.k
  {
    var c := Prefix(t.ourId, id);
    if id in IdsOf(t.Contents()) || id == x.node.id {
      StoredStays(t.Contents(), x, t'.Contents(), chumps, id);
      if id !in IdsOf(t'.Contents()) {
        assert Ejected(t', chumps[0]);
      }
    } else {
      FullStaysFull(t, x, t', chumps, c);
    }
  }

  /** Adding a node not yet stored: the table then knows its id too. */
  lemma OfferNew(t: Table, heard: set<Id>, x: NodeWrapper, t': Table, chumps: seq<NodeWrapper>)
    requires Knows(t, heard) && AddStep(t, x, t', chumps) && x.node.id !in IdsOf(t.Contents())
    ensures Knows(t', heard + {x.node.id})
    ensures t'.ourId == t.ourId && t'.k == t.k
  {
    if x.node.id != t.ourId {
      OfferKeepsDistinct(t.Contents(), x, t'.Contents(), chumps);
      forall id | id in heard + {x.node.id} && id != t'.ourId
        ensures id in IdsOf(t'.Contents()) || |t'.Class(Prefix(t'.ourId, id))| == t'.k
      {
        OfferKnown(t, heard, x, t', chumps, id);
      }
    }
  }

  lemma EmptyKnows(target: Id, k: nat)
    requires k > 0
    ensures Knows(EmptyTable(target, k), {})
  {
    EmptyRefines(target, k);
    assert EmptyTable(target, k).Contents() == multiset{};
  }

  /** The table is empty only while nothing but the target has been heard of. */
  lemma EmptyMeansUnheard(t: Table, heard: set<Id>)
    requires Knows(t, heard)
    ensures t.Contents() == multiset{} <==> heard <= {t.ourId}
  {
    if t.Contents() == multiset{} {
      forall id | id in heard ensures id == t.ourId {
        assert t.Class(Prefix(t.ourId, id)) == multiset{};
      }
    } else {
      var x :| x in t.Contents();
      ContentsNotOurs(t, x);
      assert x.node.id in heard;
    }
  }

  // ---------- many offers ----------

  lemma NoFewerChain(a: Items, b: Items, c: Items, target: Id)
    requires NoFewer(a, b, target) && NoFewer(b, c, target)
    ensures NoFewer(a, c, target)
  {
    forall d: nat ensures |AtLeast(a, target, d)| <= |AtLeast(c, target, d)| {
      assert |AtLeast(a, target, d)| <= |AtLeast(b, target, d)|;
      assert |AtLeast(b, target, d)| <= |AtLeast(c, target, d)|;
    }
  }

  lemma AnswerNoLonger(m: Items, m': Items, target: Id)
    requires NoFewer(m, m', target)
    ensures |m| <= |m'|
  {
    assert |AtLeast(m, target, 0)| <= |AtLeast(m', target, 0)|;
    assert AtLeast(m, target, 0) == m && AtLeast(m', target, 0) == m';
  }

  /**
    From one answer of the lookup to any later one no position is lost, and the
    node at a position never shares fewer bits with the target than before, even
    though newer nodes may have been displaced by older ones.
   */
  lemma ProgressIsNeverUndone(
      m: Items, m': Items, target: Id, k: nat, r: seq<NodeWrapper>, r': seq<NodeWrapper>, j: nat)
    requires NoFewer(m, m', target) && KNearest(m, target, k, r) && KNearest(m', target, k, r')
    requires j < |r|
    ensures j < |r'|
    ensures Prefix(target, r[j].node.id) <= Prefix(target, r'[j].node.id)
  {
    var d := Prefix(target, r[j].node.id);
    AnswerNoLonger(m, m', target);
    NthNearestPrefix(m, target, k, r, j, d);
    NthNearestPrefix(m', target, k, r', j, d);
  }

  /** Offering a node: the table then knows its id too, and no prefix count falls. */
  lemma OfferedKnows(t: Table, heard: set<Id>, x: NodeWrapper, t': Table)
    requires Knows(t, heard) && Offered(t, x, t')
    ensures Knows(t', heard + {x.node.id}) && t'.ourId == t.ourId && t'.k == t.k
    ensures NoFewer(t.Contents(), t'.Contents(), t.ourId)
  {
    if x.node.id in IdsOf(t.Contents()) {
      assert heard + {x.node.id} == heard;
    } else {
      var chumps :| AddStep(t, x, t', chumps);
      OfferNew(t, heard, x, t', chumps);
      AddNoFewer(t, x, t', chumps);
    }
  }

  lemma {:induction false} OfferedAllKnows(t: Table, heard: set<Id>, xs: seq<NodeWrapper>, t': Table)
    requires Knows(t, heard) && OfferedAll(t, xs, t')
    ensures Knows(t', heard + IdsIn(xs)) && t'.ourId == t.ourId && t'.k == t.k
    ensures NoFewer(t.Contents(), t'.Contents(), t.ourId)
    decreases |xs|
  {
    if xs == [] {
      assert heard + IdsIn(xs) == heard;
    } else {
      var m :| Offered(t, xs[0], m) && OfferedAll(m, xs[1..], t');
      OfferedKnows(t, heard, xs[0], m);
      OfferedAllKnows(m, heard + {xs[0].node.id}, xs[1..], t');
      OneMoreHeard(heard, xs);
      NoFewerChain(t.Contents(), m.Contents(), t'.Contents(), t.ourId);
    }
  }

  lemma OneMoreHeard(heard: set<Id>, xs: seq<NodeWrapper>)
    requires xs != []
    ensures heard + {xs[0].node.id} + IdsIn(xs[1..]) == heard + IdsIn(xs)
  {
    IdsOfBoth(multiset{xs[0]}, multiset(xs[1..]));
    assert xs == [xs[0]] + xs[1..];
    assert multiset(xs) == multiset{xs[0]} + multiset(xs[1..]);
  }

  lemma IdsOfBoth(a: Items, b: Items)
    ensures IdsOf(a + b) == IdsOf(a) + IdsOf(b)
  {
    forall id | id in IdsOf(a) + IdsOf(b) ensures id in IdsOf(a + b) {
      var x :| x in (if id in IdsOf(a) then a else b) && x.node.id == id;
      assert x in a + b;
    }
  }

  lemma OfferedThen(t: Table, x: NodeWrapper, m: Table, xs: seq<NodeWrapper>, t': Table)
    requires Offered(t, x, m) && OfferedAll(m, xs, t')
    ensures OfferedAll(t, [x] + xs, t')
  {
    var all := [x] + xs;
    assert all[0] == x && all[1..] == xs;
  }

  /** One more node offered after the others. */
  lemma {:induction false} OfferedOneMore(t: Table, xs: seq<NodeWrapper>, m: Table, x: NodeWrapper, t': Table)
    requires OfferedAll(t, xs, m) && Offered(m, x, t')
    ensures OfferedAll(t, xs + [x], t')
    decreases |xs|
  {
    if xs == [] {
      assert OfferedAll(t', [], t');
      OfferedThen(t, x, t', [], t');
      assert xs + [x] == [x] + [];
    } else {
      var m' := FirstOffered(t, xs, m);
      OfferedOneMore(m', xs[1..], m, x, t');
      OfferedThen(t, xs[0], m', xs[1..] + [x], t');
      assert [xs[0]] + (xs[1..] + [x]) == xs + [x];
    }
  }

  lemma FirstOffered(t: Table, xs: seq<NodeWrapper>, t': Table) returns (m: Table)
    requires xs != [] && OfferedAll(t, xs, t')
    ensures Offered(t, xs[0], m) && OfferedAll(m, xs[1..], t')
  {
    m :| Offered(t, xs[0], m) && OfferedAll(m, xs[1..], t');
  }

  /** Of nodes with different ids, offering the rest after the first i adds them all. */
  lemma {:induction false} OfferedRefines(t: Table, xs: seq<NodeWrapper>, i: nat, t': Table)
    requires i <= |xs| && Refines(t, Added(xs[..i], t.ourId)) && OfferedAll(t, xs[i..], t') && Distinct(multiset(xs))
    ensures t'.ourId == t.ourId && t'.k == t.k && Refines(t', Added(xs, t.ourId))
    decreases |xs| - i
  {
    if i == |xs| {
      assert xs[..i] == xs;
    } else {
      var m := OfferedFirst(t, xs, i, t');
      OfferedRefinesOne(t, xs, i, m);
      OfferedRefines(m, xs, i + 1, t');
    }
  }

  lemma OfferedFirst(t: Table, xs: seq<NodeWrapper>, i: nat, t': Table) returns (m: Table)
    requires i < |xs| && OfferedAll(t, xs[i..], t')
    ensures Offered(t, xs[i], m) && OfferedAll(m, xs[i + 1..], t')
  {
    assert xs[i..][0] == xs[i] && xs[i..][1..] == xs[i + 1..];
    m := FirstOffered(t, xs[i..], t');
  }

  lemma OfferedRefinesOne(t: Table, xs: seq<NodeWrapper>, i: nat, m: Table)
    requires i < |xs| && Refines(t, Added(xs[..i], t.ourId)) && Offered(t, xs[i], m) && Distinct(multiset(xs))
    ensures m.ourId == t.ourId && m.k == t.k && Refines(m, Added(xs[..i + 1], t.ourId))
  {
    NotYetStored(t, xs, i);
    var chumps :| AddStep(t, xs[i], m, chumps);
    RefinesNext(t, xs, i, m, chumps);
  }

  lemma NotYetStored(t: Table, xs: seq<NodeWrapper>, i: nat)
    requires i < |xs| && t.Contents() <= Added(xs[..i], t.ourId) && Distinct(multiset(xs))
    ensures xs[i].node.id !in IdsOf(t.Contents())
  {
    AddedIsTheOthers(xs[..i], t.ourId);
    forall y | y in t.Contents() ensures y.node.id != xs[i].node.id {
      assert y in Added(xs[..i], t.ourId);
      assert y in multiset(xs[..i]);
      var j :| 0 <= j < i && xs[j] == y;
      DistinctSeq(multiset(xs), xs, j, i);
      assert xs[j] in multiset(xs) && xs[i] in multiset(xs);
    }
  }

  /** Any nodes can be offered to any valid table. */
  lemma {:induction false} OfferExists(t: Table, xs: seq<NodeWrapper>) returns (t': Table)
    requires t.Valid()
    ensures OfferedAll(t, xs, t') && t'.Valid() && t'.ourId == t.ourId && t'.k == t.k
    decreases |xs|
  {
    if xs == [] {
      t' := t;
    } else {
      var m, chumps := t, [];
      if xs[0].node.id !in IdsOf(t.Contents()) {
        m, chumps := AddExists(t, xs[0]);
      }
      assert Offered(t, xs[0], m);
      t' := OfferExists(m, xs[1..]);
    }
  }

  // ---------- the final answer ----------

  lemma ReachingIds(m: Items, target: Id, d: nat)
    ensures IdsOf(AtLeast(m, target, d)) == Reaching(IdsOf(m), target, d)
  {
    forall id | id in Reaching(IdsOf(m), target, d) ensures id in IdsOf(AtLeast(m, target, d)) {
      var y :| y in m && y.node.id == id;
      assert y in AtLeast(m, target, d);
    }
    forall id | id in IdsOf(AtLeast(m, target, d)) ensures id in Reaching(IdsOf(m), target, d) {
      var y :| y in AtLeast(m, target, d) && y.node.id == id;
      assert y in m;
    }
  }

  lemma ReachingStored(m: Items, target: Id, d: nat)
    requires Distinct(m)
    ensures |Reaching(IdsOf(m), target, d)| == |AtLeast(m, target, d)|
  {
    ReachingIds(m, target, d);
    DistinctSubset(AtLeast(m, target, d), m);
    DistinctSize(AtLeast(m, target, d));
  }

  lemma SetSubsetSize(a: set<Id>, b: set<Id>)
    requires a <= b
    ensures |a| <= |b|
  {
    assert b == a + (b - a);
  }

  lemma StoredWasHeard(t: Table, heard: set<Id>, d: nat)
    requires Knows(t, heard)
    ensures Reaching(IdsOf(t.Contents()), t.ourId, d) <= Reaching(heard - {t.ourId}, t.ourId, d)
  {
    forall id | id in IdsOf(t.Contents()) ensures id in heard - {t.ourId} {
      var y :| y in t.Contents() && y.node.id == id;
      ContentsNotOurs(t, y);
    }
  }

  /** Up to the capacity, the table stores as many ids of any prefix as were heard of. */
  lemma KnowsAsManyAsHeard(t: Table, heard: set<Id>, d: nat)
    requires Knows(t, heard)
    ensures Min(t.k, |AtLeast(t.Contents(), t.ourId, d)|) == Min(t.k, |Reaching(heard - {t.ourId}, t.ourId, d)|)
  {
    var stored := Reaching(IdsOf(t.Contents()), t.ourId, d);
    var all := Reaching(heard - {t.ourId}, t.ourId, d);
    ReachingStored(t.Contents(), t.ourId, d);
    StoredWasHeard(t, heard, d);
    SetSubsetSize(stored, all);
    if !(all <= stored) {
      var id :| id in all && id !in stored;
      ExactInAtLeast(t.Contents(), t.ourId, Prefix(t.ourId, id), d);
    } else {
      assert all == stored;
    }
  }

  /** The ids in a list of nodes. */
  ghost function ResultIds(r: seq<Node>): set<Id> {
    set n | n in r :: n.id
  }

  lemma ResultOf(m: Items, r: seq<NodeWrapper>, nodes: seq<Node>)
    requires Distinct(m) && multiset(r) <= m
    requires |nodes| == |r| && forall i :: 0 <= i < |r| ==> nodes[i] == r[i].node
    ensures ResultIds(nodes) == IdsOf(multiset(r))
    ensures Distinct(multiset(r))
    ensures |ResultIds(nodes)| == |nodes|
  {
    DistinctSubset(multiset(r), m);
    DistinctSize(multiset(r));
    forall id | id in ResultIds(nodes) ensures id in IdsOf(multiset(r)) {
      var n :| n in nodes && n.id == id;
      var i :| 0 <= i < |nodes| && nodes[i] == n;
      assert r[i] in multiset(r);
    }
    forall id | id in IdsOf(multiset(r)) ensures id in ResultIds(nodes) {
      var x :| x in multiset(r) && x.node.id == id;
      var i :| 0 <= i < |r| && r[i] == x;
      assert nodes[i] in nodes;
    }
  }

  /** The answer covers every prefix length as well as the ids heard of allow. */
  lemma AnswerIsPrefixOptimal(t: Table, heard: set<Id>, r: seq<NodeWrapper>, nodes: seq<Node>, d: nat)
    requires Knows(t, heard) && KNearest(t.Contents(), t.ourId, t.k, r)
    requires |nodes| == |r| && forall i :: 0 <= i < |r| ==> nodes[i] == r[i].node
    ensures |Reaching(ResultIds(nodes), t.ourId, d)| == Min(t.k, |Reaching(heard - {t.ourId}, t.ourId, d)|)
  {
    ResultOf(t.Contents(), r, nodes);
    ReachingStored(multiset(r), t.ourId, d);
    AnswerCoversPrefix(t.Contents(), t.ourId, t.k, r, d);
    KnowsAsManyAsHeard(t, heard, d);
  }

  /**
    Of an answer, the ids heard of decide how many positions it has and how many bits
    the node at a position shares with the target: at least d exactly if more
    ids than that position has before it do.
   */
  lemma PositionFromHeard(t: Table, heard: set<Id>, r: seq<NodeWrapper>, p: nat, d: nat)
    requires Knows(t, heard) && KNearest(t.Contents(), t.ourId, t.k, r) && p < t.k
    ensures p < |r| <==> p < |heard - {t.ourId}|
    ensures p < |r| ==>
              (Prefix(t.ourId, r[p].node.id) >= d <==> p < |Reaching(heard - {t.ourId}, t.ourId, d)|)
  {
    var m := t.Contents();
    KnowsAsManyAsHeard(t, heard, 0);
    assert AtLeast(m, t.ourId, 0) == m;
    assert Reaching(heard - {t.ourId}, t.ourId, 0) == heard - {t.ourId};
    if p < |r| {
      NthNearestPrefix(m, t.ourId, t.k, r, p, d);
      KnowsAsManyAsHeard(t, heard, d);
    }
  }

  /** When more has been heard of, no position of an answer is lost, and none shares fewer bits. */
  lemma MoreHeardNoFarther(
      t: Table, heard: set<Id>, r: seq<NodeWrapper>, t': Table, heard': set<Id>, r': seq<NodeWrapper>,
      p: nat)
    requires Knows(t, heard) && KNearest(t.Contents(), t.ourId, t.k, r) && p < |r|
    requires Knows(t', heard') && KNearest(t'.Contents(), t'.ourId, t'.k, r')
    requires t'.ourId == t.ourId && t'.k == t.k && heard <= heard'
    ensures p < |r'| && Prefix(t.ourId, r[p].node.id) <= Prefix(t.ourId, r'[p].node.id)
  {
    var d := Prefix(t.ourId, r[p].node.id);
    PositionFromHeard(t, heard, r, p, d);
    PositionFromHeard(t', heard', r', p, d);
    SetSubsetSize(heard - {t.ourId}, heard' - {t.ourId});
    SetSubsetSize(Reaching(heard - {t.ourId}, t.ourId, d), Reaching(heard' - {t.ourId}, t.ourId, d));
  }
}
