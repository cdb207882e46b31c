/** A lookup that gets worse: it asks the node nearest to its target and then forgets it. */
module Forgetting {
  import opened Ids
  import opened Nodes
  import opened Tables
  import opened Nearest
  import opened BucketRuns
  import opened Lookups
  import opened LookupRuns
  import opened Closeness

  /** The main table holds the nodes xs at first, and then also y; nobody replies. */
  ghost predicate TwoRounds(rounds: seq<Round>, xs: seq<NodeWrapper>, y: NodeWrapper) {
    && |rounds| == 2
    && rounds[0].seeds == xs && rounds[0].replies == []
    && rounds[1].seeds == xs + [y] && rounds[1].replies == []
  }

  /**
    Two rounds: the main table first holds eight nodes of one class, and then also y, an
    older node of that class. The node z is the nearest of all, and the newest.
   */
  ghost predicate Displacing(
      target: Id, rounds: seq<Round>, xs: seq<NodeWrapper>, y: NodeWrapper, z: NodeWrapper, d: nat)
  {
    && TwoRounds(rounds, xs, y)
    && |xs| == LOOKUP_K && Distinct(multiset(xs + [y])) && z in xs && d < ID_BITS
    && (forall x :: x in xs + [y] ==> Prefix(target, x.node.id) == d)
    && (forall x :: x in xs + [y] && x != z ==>
          x.firstSeen < z.firstSeen && Far(z, target) < Far(x, target))
  }

  lemma {:induction false} OfferedStored(t: Table, xs: seq<NodeWrapper>, y: NodeWrapper, t': Table)
    requires OfferedAll(t, xs + [y], t') && IdsIn(xs) <= IdsOf(t.Contents())
    ensures Offered(t, y, t')
    decreases |xs|
  {
    var m := FirstOffered(t, xs + [y], t');
    if xs == [] {
      assert (xs + [y])[1..] == [];
    } else {
      assert xs[0] in multiset(xs);
      assert (xs + [y])[1..] == xs[1..] + [y];
      forall x | x in multiset(xs[1..]) ensures x in multiset(xs) {
        assert x in xs[1..];
      }
      OfferedStored(t, xs[1..], y, t');
    }
  }

  /** No more than k ids heard of are all stored. */
  lemma FewAreStored(t: Table, heard: set<Id>)
    requires Knows(t, heard) && |heard| <= t.k && t.ourId !in heard
    ensures IdsOf(t.Contents()) == heard && |t.Contents()| == |heard|
  {
    forall id | id in heard ensures id in IdsOf(t.Contents()) {
      if id !in IdsOf(t.Contents()) {
        ForgottenMeansCrowd(t, heard, id);
        SetSubsetSize(Sharing(heard - {t.ourId}, t.ourId, Prefix(t.ourId, id)), heard);
      }
    }
    DistinctSize(t.Contents());
  }

  /** An answer that lists all stored nodes begins with the nearest id. */
  lemma NearestComesFirst(m: Items, target: Id, chosen: seq<NodeWrapper>, z: Id)
    requires KNearest(m, target, LOOKUP_K, chosen) && |m| <= LOOKUP_K && z in IdsOf(m)
    requires forall id :: id in IdsOf(m) && id != z ==> Distance(z, target) < Distance(id, target)
    ensures chosen != [] && chosen[0].node.id == z
  {
    SubsetSize(multiset(chosen), m);
    var x :| x in m && x.node.id == z;
    assert x in multiset(chosen);
    var p :| 0 <= p < |chosen| && chosen[p] == x;
    assert chosen[0] in multiset(chosen);
    assert Far(chosen[0], target) <= Far(chosen[p], target);
  }

  lemma FirstTable(target: Id, rounds: seq<Round>, xs: seq<NodeWrapper>, y: NodeWrapper, turns: seq<Turn>)
    requires TwoRounds(rounds, xs, y) && LookupRun(target, rounds, turns) && turns != [] && Distinct(multiset(xs))
    ensures Refines(turns[0].after, Added(xs, target)) && turns[0].seeded == turns[0].after
    ensures Aware(turns[0].after, target, IdsIn(xs))
    ensures KNearest(turns[0].after.Contents(), target, LOOKUP_K, turns[0].chosen)
  {
    TurnOf(target, rounds, turns, 0);
    NoReplies(EmptyTable(target, LOOKUP_K), rounds[0], xs, BestIds(turns, 0), turns[0]);
    SeededRefines(target, xs, turns[0].after);
    QueryIsAware(target, rounds, turns, 0);
    assert HeardAtQuery(rounds, 0, target) == IdsIn(xs);
  }

  lemma BothTurns(target: Id, rounds: seq<Round>, turns: seq<Turn>, r: seq<Node>)
    requires |rounds| == 2 && Lookup(target, rounds, turns, r)
    ensures |turns| == 2
  {
    ConvergedMeansSameAgain(target, rounds, turns, r);
  }

  lemma FirstStored(target: Id, t: Table, xs: seq<NodeWrapper>, d: nat)
    requires Aware(t, target, IdsIn(xs)) && |xs| == LOOKUP_K && Distinct(multiset(xs)) && d < ID_BITS
    requires forall x :: x in xs ==> Prefix(target, x.node.id) == d
    ensures IdsOf(t.Contents()) == IdsIn(xs) && |t.Contents()| == LOOKUP_K
  {
    DistinctSize(multiset(xs));
    ClassIds(target, xs, d);
    FewAreStored(t, IdsIn(xs));
  }

  lemma FirstQuery(
      target: Id, rounds: seq<Round>, xs: seq<NodeWrapper>, y: NodeWrapper, z: NodeWrapper, d: nat,
      turns: seq<Turn>, r: seq<Node>)
    requires Displacing(target, rounds, xs, y, z, d) && Lookup(target, rounds, turns, r)
    ensures |turns| == 2 && turns[0].chosen != [] && turns[0].chosen[0].node.id == z.node.id
    ensures Aware(turns[0].after, target, IdsIn(xs))
    ensures Refines(turns[0].after, Added(xs, target)) && IdsIn(xs) == IdsOf(turns[0].after.Contents())
  {
    BothTurns(target, rounds, turns, r);
    DistinctFront(xs, y);
    FirstTable(target, rounds, xs, y, turns);
    FirstStored(target, turns[0].after, xs, d);
    NearestOfAll(target, xs, y, z);
    assert z in multiset(xs);
    NearestComesFirst(turns[0].after.Contents(), target, turns[0].chosen, z.node.id);
  }

  lemma DistinctFront(xs: seq<NodeWrapper>, y: NodeWrapper)
    requires Distinct(multiset(xs + [y]))
    ensures Distinct(multiset(xs))
  {
    assert multiset(xs) <= multiset(xs + [y]);
    DistinctSubset(multiset(xs), multiset(xs + [y]));
  }

  lemma ClassIds(target: Id, xs: seq<NodeWrapper>, d: nat)
    requires d < ID_BITS && forall x :: x in xs ==> Prefix(target, x.node.id) == d
    ensures target !in IdsIn(xs) && Sharing(IdsIn(xs) - {target}, target, d) == IdsIn(xs)
  {
    PrefixLaws(target, target, target);
    forall id | id in IdsIn(xs) ensures Prefix(target, id) == d {
      var x: NodeWrapper :| x in multiset(xs) && x.node.id == id;
      assert x in xs;
    }
  }

  lemma NearestOfAll(target: Id, xs: seq<NodeWrapper>, y: NodeWrapper, z: NodeWrapper)
    requires forall x :: x in xs + [y] && x != z ==> Far(z, target) < Far(x, target)
    ensures forall id :: id in IdsIn(xs + [y]) && id != z.node.id ==> Distance(z.node.id, target) < Distance(id, target)
    ensures IdsIn(xs) <= IdsIn(xs + [y])
  {
    forall id | id in IdsIn(xs + [y]) && id != z.node.id ensures Distance(z.node.id, target) < Distance(id, target) {
      var x: NodeWrapper :| x in multiset(xs + [y]) && x.node.id == id;
      assert x in xs + [y];
    }
    assert multiset(xs) <= multiset(xs + [y]);
    forall x | x in multiset(xs) ensures x in multiset(xs + [y]) {
    }
  }

  lemma SecondTable(
      target: Id, rounds: seq<Round>, xs: seq<NodeWrapper>, y: NodeWrapper, turns: seq<Turn>)
    requires TwoRounds(rounds, xs, y) && LookupRun(target, rounds, turns) && |turns| == 2
    requires Distinct(multiset(xs + [y])) && turns[0].after.ourId == target && turns[0].after.k == LOOKUP_K
    requires Refines(turns[0].after, Added(xs, target)) && IdsIn(xs) == IdsOf(turns[0].after.Contents())
    ensures turns[1].after.ourId == target && turns[1].after.k == LOOKUP_K
    ensures Refines(turns[1].after, Added(xs + [y], target))
  {
    TurnOf(target, rounds, turns, 1);
    NoReplies(turns[0].after, rounds[1], xs + [y], BestIds(turns, 1), turns[1]);
    OfferedStored(turns[0].after, xs, y, turns[1].after);
    assert (xs + [y])[..|xs|] == xs;
    OneMoreRefines(turns[0].after, xs + [y], |xs|, turns[1].after);
  }

  lemma OneMoreRefines(t: Table, all: seq<NodeWrapper>, n: nat, t': Table)
    requires |all| == n + 1 && Refines(t, Added(all[..n], t.ourId)) && Offered(t, all[n], t')
    requires Distinct(multiset(all))
    ensures t'.ourId == t.ourId && t'.k == t.k && Refines(t', Added(all, t.ourId))
  {
    assert all[..n + 1] == all;
    OfferedRefinesOne(t, all, n, t');
  }

  lemma SecondQuery(target: Id, t: Table, xs: seq<NodeWrapper>, y: NodeWrapper, z: NodeWrapper, d: nat)
    requires t.ourId == target && t.k == LOOKUP_K && Refines(t, Added(xs + [y], target))
    requires |xs| == LOOKUP_K && Distinct(multiset(xs + [y])) && z in xs && d < ID_BITS
    requires forall x :: x in xs + [y] ==> Prefix(target, x.node.id) == d
    requires forall x :: x in xs + [y] && x != z ==> x.firstSeen < z.firstSeen
    ensures z.node.id !in IdsOf(t.Contents())
  {
    ClassIds(target, xs + [y], d);
    DistinctSize(multiset(xs + [y]));
    assert z in xs + [y];
    PrefixLaws(target, target, target);
    NewestIsForgotten(t, xs + [y], z);
  }

  /**
    The first query of such a lookup lists the nearest node first; the result does not
    list it, although it was heard of, and every node listed is farther.
   */
  lemma AskedAndForgotten(
      target: Id, rounds: seq<Round>, xs: seq<NodeWrapper>, y: NodeWrapper, z: NodeWrapper, d: nat,
      turns: seq<Turn>, r: seq<Node>)
    requires Displacing(target, rounds, xs, y, z, d) && Lookup(target, rounds, turns, r)
    ensures |turns| == 2 && turns[0].chosen != [] && turns[0].chosen[0].node.id == z.node.id
    ensures z.node.id in HeardAtEnd(rounds, turns, target)
    ensures |r| == LOOKUP_K && forall i :: 0 <= i < |r| ==> Distance(z.node.id, target) < Distance(r[i].id, target)
  {
    FirstQuery(target, rounds, xs, y, z, d, turns, r);
    SecondTable(target, rounds, xs, y, turns);
    SecondQuery(target, turns[1].after, xs, y, z, d);
    NotListed(target, rounds, turns, r, z.node.id);
    HeardOfAll(target, rounds, xs, y, turns);
    LookupCoversHeard(target, rounds, turns, r);
    AllFarther(target, xs, y, z, d, r);
  }

  lemma HeardOfAll(target: Id, rounds: seq<Round>, xs: seq<NodeWrapper>, y: NodeWrapper, turns: seq<Turn>)
    requires TwoRounds(rounds, xs, y) && |turns| == 2
    ensures HeardAtEnd(rounds, turns, target) == IdsIn(xs + [y])
  {
    HeardNext(rounds, 0, target);
    HeardNext(rounds, 1, target);
    assert Heard(rounds, 0, target) == {};
    assert Received([]) == [] && IdsIn([]) == {};
    assert multiset(xs) <= multiset(xs + [y]);
    forall x | x in multiset(xs) ensures x in multiset(xs + [y]) {
    }
  }

  lemma AllFarther(target: Id, xs: seq<NodeWrapper>, y: NodeWrapper, z: NodeWrapper, d: nat, r: seq<Node>)
    requires CoversHeard(r, IdsIn(xs + [y]), target, LOOKUP_K) && z.node.id !in ResultIds(r)
    requires |xs| == LOOKUP_K && Distinct(multiset(xs + [y])) && z in xs && d < ID_BITS
    requires forall x :: x in xs + [y] ==> Prefix(target, x.node.id) == d
    requires forall x :: x in xs + [y] && x != z ==> Far(z, target) < Far(x, target)
    ensures |r| == LOOKUP_K && z.node.id in IdsIn(xs + [y])
    ensures forall i :: 0 <= i < |r| ==> Distance(z.node.id, target) < Distance(r[i].id, target)
  {
    NinthLeftOut(target, xs + [y], d, r);
    NearestOfAll(target, xs, y, z);
    forall i | 0 <= i < |r| ensures Distance(z.node.id, target) < Distance(r[i].id, target) {
      assert r[i].id in ResultIds(r);
    }
    assert z in xs + [y];
    assert z in multiset(xs + [y]);
  }

  lemma NinthLeftOut(target: Id, all: seq<NodeWrapper>, d: nat, r: seq<Node>)
    requires CoversHeard(r, IdsIn(all), target, LOOKUP_K) && |all| > LOOKUP_K && Distinct(multiset(all))
    requires d < ID_BITS && forall x :: x in all ==> Prefix(target, x.node.id) == d
    ensures |r| == LOOKUP_K && ResultIds(r) <= IdsIn(all)
  {
    ClassIds(target, all, d);
    DistinctSize(multiset(all));
    assert Reaching(ResultIds(r), target, 0) == ResultIds(r);
    assert Reaching(IdsIn(all) - {target}, target, 0) == IdsIn(all);
  }

  // ---------- one such lookup ----------

  function ExampleNode(b: bv8, firstSeen: Instant): NodeWrapper {
    NewWrapper(Node(FirstByteId(b), V4([127, 0, 0, 1], 6881)), firstSeen)
  }

  /** Eight nodes of the class farthest from the zero id; the nearest of them was seen first last. */
  const EIGHT: seq<NodeWrapper> := [
    ExampleNode(0x80, 1), ExampleNode(0x81, 0), ExampleNode(0x82, 0), ExampleNode(0x83, 0),
    ExampleNode(0x84, 0), ExampleNode(0x85, 0), ExampleNode(0x86, 0), ExampleNode(0x87, 0)]

  const NINTH: NodeWrapper := ExampleNode(0x88, 0)

  const EXAMPLE_ROUNDS: seq<Round> := [Round(EIGHT, []), Round(EIGHT + [NINTH], [])]

  lemma ExampleDistance(b: bv8, c: bv8)
    requires b < c
    ensures Distance(FirstByteId(b), ZERO) < Distance(FirstByteId(c), ZERO)
  {
    XorWithZero(b);
    XorWithZero(c);
    FirstSmallerByteDecides(FirstByteId(b), FirstByteId(c), 0);
  }

  lemma XorZero(x: bv8)
    ensures x ^ 0 == x
  {
  }

  lemma XorWithZero(b: bv8)
    ensures XorBytes(FirstByteId(b), ZERO) == FirstByteId(b)
  {
    var id := FirstByteId(b);
    forall i | 0 <= i < ID_SIZE ensures XorBytes(id, ZERO)[i] == id[i] {
      XorZero(id[i]);
    }
  }

  /** The example lookup asks its nearest node first and ends without it, with eight nodes that are all farther. */
  lemma ExampleForgetsTheNearest(turns: seq<Turn>, r: seq<Node>)
    requires Lookup(ZERO, EXAMPLE_ROUNDS, turns, r)
    ensures |turns| == 2 && turns[0].chosen != [] && turns[0].chosen[0].node.id == FirstByteId(0x80)
    ensures |r| == 8 && forall i :: 0 <= i < |r| ==> Distance(FirstByteId(0x80), ZERO) < Distance(r[i].id, ZERO)
  {
    ExampleDisplaces();
    AskedAndForgotten(ZERO, EXAMPLE_ROUNDS, EIGHT, NINTH, EIGHT[0], 0, turns, r);
  }

  lemma ExampleDisplaces()
    ensures Displacing(ZERO, EXAMPLE_ROUNDS, EIGHT, NINTH, EIGHT[0], 0)
  {
    var all := EIGHT + [NINTH];
    forall x | x in all ensures Prefix(ZERO, x.node.id) == 0 {
      ExampleShape(x);
      HighBitDiffers(x.node.id);
    }
    forall x | x in all && x != EIGHT[0]
      ensures x.firstSeen < EIGHT[0].firstSeen && Far(EIGHT[0], ZERO) < Far(x, ZERO)
    {
      ExampleShape(x);
      ExampleDistance(0x80, x.node.id[0]);
    }
    ExampleDistinct();
  }

  lemma ExampleShape(x: NodeWrapper)
    requires x in EIGHT + [NINTH]
    ensures x.node.id == FirstByteId(x.node.id[0]) && x.node.id[0] >= 0x80
    ensures x != EIGHT[0] ==> x.node.id[0] > 0x80 && x.firstSeen < EIGHT[0].firstSeen
  {
  }

  /** The nodes of the example are numbered by their first byte. */
  lemma ExampleByte(i: nat)
    requires i <= LOOKUP_K
    ensures (EIGHT + [NINTH])[i].node.id[0] as nat == 0x80 + i
  {
    assert 0x80 as bv8 as nat == 0x80 && 0x81 as bv8 as nat == 0x81 && 0x82 as bv8 as nat == 0x82;
    assert 0x83 as bv8 as nat == 0x83 && 0x84 as bv8 as nat == 0x84 && 0x85 as bv8 as nat == 0x85;
    assert 0x86 as bv8 as nat == 0x86 && 0x87 as bv8 as nat == 0x87 && 0x88 as bv8 as nat == 0x88;
  }

  lemma ExampleDistinct()
    ensures Distinct(multiset(EIGHT + [NINTH]))
  {
    var all := EIGHT + [NINTH];
    forall i, j | 0 <= i < j < |all| ensures all[i].node.id != all[j].node.id {
      ExampleByte(i);
      ExampleByte(j);
    }
    AllDifferent(all);
  }

  lemma {:induction false} AllDifferent(xs: seq<NodeWrapper>)
    requires forall i, j :: 0 <= i < j < |xs| ==> xs[i].node.id != xs[j].node.id
    ensures Distinct(multiset(xs))
  {
    if xs == [] {
    } else {
      AllDifferent(xs[1..]);
      FirstDiffers(xs);
      OneMoreNode(xs[0], xs[1..]);
      assert [xs[0]] + xs[1..] == xs;
    }
  }

  lemma FirstDiffers(xs: seq<NodeWrapper>)
    requires xs != [] && forall i, j :: 0 <= i < j < |xs| ==> xs[i].node.id != xs[j].node.id
    ensures xs[0].node.id !in IdsIn(xs[1..])
  {
    forall x: NodeWrapper | x in multiset(xs[1..]) ensures x.node.id != xs[0].node.id {
      var i :| 0 <= i < |xs[1..]| && xs[1..][i] == x;
      assert xs[i + 1] == x;
    }
  }
}
