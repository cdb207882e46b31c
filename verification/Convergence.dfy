/**
  Why a lookup stops (src/dht/operations.rs, find_node): a node that a full class has
  turned away never comes in, and one that it gave up never comes back. So each turn that asks
  anew has more nodes stored than the one before, or the main table has offered it a node
  that it had no answer to yet, and there are only so many of either.
 */
module Convergence {
  import opened Ids
  import opened Nodes
  import opened Tables
  import opened Nearest
  import opened BucketRuns
  import opened Lookups
  import opened LookupRuns

  /** A node as a table tells it from others: its id and when it was first seen. */
  datatype Birth = Birth(id: Id, at: Instant)

  function BirthOf(x: NodeWrapper): Birth {
    Birth(x.node.id, x.firstSeen)
  }

  /** What the main table offers in round i, the target aside. */
  ghost function Offers(rounds: seq<Round>, target: Id, i: nat): set<Birth>
    requires i < |rounds|
  {
    set x | x in rounds[i].seeds && x.node.id != target :: BirthOf(x)
  }

  /** What it offers in any round. */
  ghost function AllOffers(rounds: seq<Round>, target: Id): set<Birth> {
    set i, b | 0 <= i < |rounds| && b in Offers(rounds, target, i) :: b
  }

  /** What it offers in some round but not in round f. */
  ghost function Newcomers(rounds: seq<Round>, target: Id, f: nat): set<Birth>
    requires f < |rounds|
  {
    AllOffers(rounds, target) - Offers(rounds, target, f)
  }

  /** The nodes that a round's replies bring. */
  function Brought(rounds: seq<Round>, i: nat): seq<NodeWrapper>
    requires i < |rounds|
  {
    Received(rounds[i].replies)
  }

  /** x is of another age than every node of bs that has another id. */
  ghost predicate OwnAge(x: NodeWrapper, bs: set<Birth>) {
    forall b :: b in bs && b.at == x.firstSeen ==> b.id == x.node.id
  }

  /**
    The main table holds different ids in each round, the nodes it offers are of an age of their
    own, and what replies bring is newer than all that was offered before.
   */
  ghost predicate Timely(rounds: seq<Round>, target: Id) {
    && (forall i :: 0 <= i < |rounds| ==> Distinct(multiset(rounds[i].seeds)))
    && (forall i, x :: 0 <= i < |rounds| && (x in rounds[i].seeds || x in Brought(rounds, i)) ==>
          OwnAge(x, AllOffers(rounds, target)))
    && (forall j, i, s, x :: 0 <= j <= i < |rounds| && s in rounds[j].seeds && x in Brought(rounds, i) ==>
          s.firstSeen < x.firstSeen)
    && (forall j, i, y, x :: 0 <= j < i < |rounds| && y in Brought(rounds, j) && x in Brought(rounds, i) ==>
          y.firstSeen < x.firstSeen)
  }

  // ---------- what a full class turns away ----------

  /** The class of b is full of older nodes. */
  ghost predicate Shut(t: Table, b: Birth) {
    var c := Prefix(t.ourId, b.id);
    |t.Class(c)| == t.k && forall y :: y in t.Class(c) ==> y.firstSeen < b.at
  }

  lemma ShutOut(t: Table, x: NodeWrapper, t': Table)
    requires t.Valid() && Offered(t, x, t') && x.node.id != t.ourId && Shut(t, BirthOf(x))
    ensures t'.Valid() && t'.ourId == t.ourId && t'.k == t.k && t'.Contents() == t.Contents()
  {
    if x.node.id !in IdsOf(t.Contents()) {
      var chumps :| AddStep(t, x, t', chumps);
      AddStepClass(t, x, t', chumps, Prefix(t.ourId, x.node.id));
      NewestTurnedAway(t, x, t', chumps);
    }
  }

  lemma NewestTurnedAway(t: Table, x: NodeWrapper, t': Table, chumps: seq<NodeWrapper>)
    requires t.Valid() && AddStep(t, x, t', chumps) && x.node.id != t.ourId && Shut(t, BirthOf(x)) && chumps != []
    requires var c := Prefix(t.ourId, x.node.id); t'.Class(c) + multiset(chumps) == t.Class(c) + multiset{x}
    ensures t'.Contents() == t.Contents()
  {
    var c, e := Prefix(t.ourId, x.node.id), chumps[0];
    EjectedSharesPrefix(t, x, t', chumps);
    assert multiset(chumps) == multiset{e} by { assert chumps == [e]; }
    EjectedIsNewest(t.Class(c), x, t'.Class(c), e);
    SameRest(t.Contents(), x, t'.Contents());
  }

  lemma EjectedIsNewest(m: Items, x: NodeWrapper, m': Items, e: NodeWrapper)
    requires m' + multiset{e} == m + multiset{x}
    requires forall y :: y in m ==> y.firstSeen < x.firstSeen
    requires forall y :: y in m' ==> y.firstSeen <= e.firstSeen
    ensures e == x
  {
    assert (m' + multiset{e})[e] == (m + multiset{x})[e];
    assert (m' + multiset{e})[x] == (m + multiset{x})[x];
  }

  // ---------- a node dealt with stays dealt with ----------

  ghost predicate Stored(t: Table, b: Birth) {
    exists w :: w in t.Contents() && BirthOf(w) == b
  }

  /** The table has an answer to b: it is stored, or its class is full of older nodes. */
  ghost predicate Settled(t: Table, b: Birth) {
    Stored(t, b) || Shut(t, b)
  }

  /** The nodes of bs that t has an answer to. */
  ghost function SettledOf(t: Table, bs: set<Birth>): set<Birth> {
    set b | b in bs && Settled(t, b)
  }

  /** What an insertion does not leave stored, of what was and what came, it pushed out. */
  lemma GoneIsEjected(t: Table, x: NodeWrapper, t': Table, chumps: seq<NodeWrapper>, w: NodeWrapper)
    requires t.Valid() && AddStep(t, x, t', chumps) && x.node.id != t.ourId
    requires (w in t.Contents() || w == x) && w !in t'.Contents()
    ensures chumps == [w] && Ejected(t', w)
  {
    assert (t'.Contents() + multiset(chumps))[w] == (t.Contents() + multiset{x})[w];
    assert w in chumps;
    assert chumps[0] == w;
  }

  /** No other node of the age of b but those with its id. */
  ghost predicate AgeOf(m: Items, b: Birth) {
    forall y :: y in m && y.firstSeen == b.at ==> y.node.id == b.id
  }

  /** A node of a different id than all stored that was pushed out leaves a class full of older ones. */
  lemma EjectedIsShut(t': Table, w: NodeWrapper)
    requires Ejected(t', w) && AgeOf(t'.Contents(), BirthOf(w)) && w.node.id !in IdsOf(t'.Contents())
    ensures Shut(t', BirthOf(w))
  {
    forall y | y in t'.Class(Prefix(t'.ourId, w.node.id)) ensures y.firstSeen < w.firstSeen {
      assert y in t'.Contents();
    }
  }

  /** A stored node that is given up leaves such a class. */
  lemma GivenUpIsShut(t: Table, x: NodeWrapper, t': Table, chumps: seq<NodeWrapper>, w: NodeWrapper)
    requires t.Valid() && Distinct(t.Contents()) && AddStep(t, x, t', chumps) && x.node.id != t.ourId
    requires x.node.id !in IdsOf(t.Contents()) && w in t.Contents() && w !in t'.Contents()
    requires AgeOf(t'.Contents(), BirthOf(w))
    ensures Shut(t', BirthOf(w))
  {
    GoneIsEjected(t, x, t', chumps, w);
    IdIsGone(t.Contents(), x, t'.Contents(), w);
    EjectedIsShut(t', w);
  }

  lemma IdIsGone(m: Items, x: NodeWrapper, m': Items, w: NodeWrapper)
    requires Distinct(m) && x.node.id !in IdsOf(m) && (w in m || w == x) && w !in m'
    requires m' + multiset([w]) == m + multiset{x}
    ensures w.node.id !in IdsOf(m')
  {
    forall y | y in m' ensures y.node.id != w.node.id {
      assert y in m + multiset{x} by { assert y in m' + multiset([w]); }
    }
  }

  /** A shut class stays shut. */
  lemma ShutStaysShut(t: Table, x: NodeWrapper, t': Table, chumps: seq<NodeWrapper>, b: Birth)
    requires t.Valid() && AddStep(t, x, t', chumps) && x.node.id != t.ourId && Shut(t, b)
    ensures Shut(t', b)
  {
    var c := Prefix(t.ourId, b.id);
    AddStepClass(t, x, t', chumps, c);
    if c == Prefix(t.ourId, x.node.id) {
      EjectedSharesPrefix(t, x, t', chumps);
      var e := chumps[0];
      assert multiset(chumps) == multiset{e} by { assert chumps == [e]; }
      ExchangeIsOlder(t.Class(c), x, t'.Class(c), e, b.at);
    }
  }

  lemma ExchangeIsOlder(m: Items, x: NodeWrapper, m': Items, e: NodeWrapper, at: Instant)
    requires m' + multiset{e} == m + multiset{x}
    requires forall y :: y in m ==> y.firstSeen < at
    requires forall y :: y in m' ==> y.firstSeen <= e.firstSeen
    ensures forall y :: y in m' ==> y.firstSeen < at
  {
    assert (m' + multiset{e})[e] == (m + multiset{x})[e];
    forall y | y in m' ensures y.firstSeen < at {
      assert (m' + multiset{e})[y] == (m + multiset{x})[y];
    }
  }

  lemma SettledStays(t: Table, x: NodeWrapper, t': Table, b: Birth)
    requires t.Valid() && Distinct(t.Contents()) && Offered(t, x, t') && Settled(t, b)
    requires AgeOf(t'.Contents(), b)
    ensures Settled(t', b)
  {
    if x.node.id != t.ourId && x.node.id !in IdsOf(t.Contents()) {
      var chumps :| AddStep(t, x, t', chumps);
      if Stored(t, b) {
        var w :| w in t.Contents() && BirthOf(w) == b;
        if w !in t'.Contents() {
          GivenUpIsShut(t, x, t', chumps, w);
        }
      } else {
        ShutStaysShut(t, x, t', chumps, b);
      }
    }
  }

  /** Offering a node not stored gives the table an answer to it, and changes nothing if it had one. */
  lemma OfferSettles(t: Table, x: NodeWrapper, t': Table)
    requires t.Valid() && Distinct(t.Contents()) && Offered(t, x, t')
    requires x.node.id != t.ourId && x.node.id !in IdsOf(t.Contents()) && AgeOf(t'.Contents(), BirthOf(x))
    ensures Settled(t', BirthOf(x))
    ensures Settled(t, BirthOf(x)) ==> t'.Contents() == t.Contents()
  {
    var chumps :| AddStep(t, x, t', chumps);
    if x !in t'.Contents() {
      GoneIsEjected(t, x, t', chumps, x);
      IdIsGone(t.Contents(), x, t'.Contents(), x);
      EjectedIsShut(t', x);
    }
    if Settled(t, BirthOf(x)) {
      ShutOut(t, x, t');
    }
  }

  // ---------- one offer ----------

  /** A well-formed table of different ids, whose nodes have an age of their own. */
  ghost predicate Sane(t: Table, bs: set<Birth>) {
    t.Valid() && Distinct(t.Contents()) && forall y :: y in t.Contents() ==> OwnAge(y, bs)
  }

  lemma OfferedSane(t: Table, x: NodeWrapper, t': Table, bs: set<Birth>)
    requires Sane(t, bs) && OwnAge(x, bs) && Offered(t, x, t')
    ensures Sane(t', bs) && t'.ourId == t.ourId && t'.k == t.k
    ensures forall y :: y in t'.Contents() ==> y in t.Contents() || y == x
    ensures |t'.Contents()| >= |t.Contents()|
  {
    if x.node.id !in IdsOf(t.Contents()) && x.node.id != t.ourId {
      var chumps :| AddStep(t, x, t', chumps);
      OfferKeepsDistinct(t.Contents(), x, t'.Contents(), chumps);
      assert |t'.Contents() + multiset(chumps)| == |t.Contents() + multiset{x}|;
      forall y | y in t'.Contents() ensures y in t.Contents() || y == x {
        assert y in t'.Contents() + multiset(chumps);
      }
    }
  }

  /** No answer is taken back. */
  lemma OfferedKeepsSettled(t: Table, x: NodeWrapper, t': Table, bs: set<Birth>)
    requires Sane(t, bs) && OwnAge(x, bs) && Offered(t, x, t')
    ensures SettledOf(t, bs) <= SettledOf(t', bs)
  {
    OfferedSane(t, x, t', bs);
    forall b | b in SettledOf(t, bs) ensures Settled(t', b) {
      SettledStays(t, x, t', b);
    }
  }

  /** t' has all the answers t has, as many nodes or more, and an answer more if its nodes are others. */
  ghost predicate MoreSettled(t: Table, t': Table, bs: set<Birth>) {
    && SettledOf(t, bs) <= SettledOf(t', bs)
    && |t'.Contents()| >= |t.Contents()|
    && (t'.Contents() == t.Contents() || SettledOf(t, bs) < SettledOf(t', bs))
  }

  lemma SeedOffered(t: Table, x: NodeWrapper, t': Table, bs: set<Birth>)
    requires Sane(t, bs) && OwnAge(x, bs) && Offered(t, x, t') && (x.node.id == t.ourId || BirthOf(x) in bs)
    ensures MoreSettled(t, t', bs)
  {
    OfferedSane(t, x, t', bs);
    OfferedKeepsSettled(t, x, t', bs);
    if x.node.id != t.ourId && x.node.id !in IdsOf(t.Contents()) {
      AgesApart(t', bs, BirthOf(x));
      OfferSettles(t, x, t');
      OneMoreSettled(t, t', bs, BirthOf(x));
    }
  }

  lemma OneMoreSettled(t: Table, t': Table, bs: set<Birth>, b: Birth)
    requires SettledOf(t, bs) <= SettledOf(t', bs) && b in bs && Settled(t', b)
    ensures Settled(t, b) || SettledOf(t, bs) < SettledOf(t', bs)
  {
    assert b in SettledOf(t', bs);
    assert b in SettledOf(t, bs) ==> Settled(t, b);
  }

  lemma AgesApart(t: Table, bs: set<Birth>, b: Birth)
    requires Sane(t, bs) && b in bs
    ensures AgeOf(t.Contents(), b)
  {
  }

  lemma {:induction false} SeedsOffered(t: Table, xs: seq<NodeWrapper>, t': Table, bs: set<Birth>)
    requires Sane(t, bs) && OfferedAll(t, xs, t')
    requires forall x :: x in xs ==> OwnAge(x, bs) && (x.node.id == t.ourId || BirthOf(x) in bs)
    ensures MoreSettled(t, t', bs) && Sane(t', bs) && t'.ourId == t.ourId && t'.k == t.k
    decreases |xs|
  {
    if xs != [] {
      var m := FirstOffered(t, xs, t');
      SeedOffered(t, xs[0], m, bs);
      OfferedSane(t, xs[0], m, bs);
      SeedsOffered(m, xs[1..], t', bs);
    }
  }

  lemma {:induction false} OfferedAllSane(t: Table, xs: seq<NodeWrapper>, t': Table, bs: set<Birth>)
    requires Sane(t, bs) && OfferedAll(t, xs, t') && forall x :: x in xs ==> OwnAge(x, bs)
    ensures Sane(t', bs) && t'.ourId == t.ourId && t'.k == t.k
    ensures forall y :: y in t'.Contents() ==> y in t.Contents() || y in xs
    ensures SettledOf(t, bs) <= SettledOf(t', bs)
    decreases |xs|
  {
    if xs != [] {
      var m := FirstOffered(t, xs, t');
      OfferedSane(t, xs[0], m, bs);
      OfferedKeepsSettled(t, xs[0], m, bs);
      OfferedAllSane(m, xs[1..], t', bs);
    }
  }

  // ---------- the first seeding ----------

  /** Offered nodes of different ids, none of which is stored, a table ends with an answer to each. */
  lemma {:induction false} FreshOffered(t: Table, xs: seq<NodeWrapper>, t': Table, bs: set<Birth>)
    requires Sane(t, bs) && OfferedAll(t, xs, t') && Distinct(multiset(xs))
    requires forall x :: x in xs ==> OwnAge(x, bs) && x.node.id !in IdsOf(t.Contents())
    ensures forall x :: x in xs && x.node.id != t.ourId && BirthOf(x) in bs ==> Settled(t', BirthOf(x))
    decreases |xs|
  {
    if xs != [] {
      var m := FirstOffered(t, xs, t');
      OfferedSane(t, xs[0], m, bs);
      OthersStayFresh(t, xs, m);
      FreshOffered(m, xs[1..], t', bs);
      if xs[0].node.id != t.ourId && BirthOf(xs[0]) in bs {
        AgesApart(m, bs, BirthOf(xs[0]));
        OfferSettles(t, xs[0], m);
        OfferedAllSane(m, xs[1..], t', bs);
        assert BirthOf(xs[0]) in SettledOf(m, bs);
      }
    }
  }

  lemma OthersStayFresh(t: Table, xs: seq<NodeWrapper>, m: Table)
    requires xs != [] && Distinct(multiset(xs)) && forall x :: x in xs ==> x.node.id !in IdsOf(t.Contents())
    requires forall y :: y in m.Contents() ==> y in t.Contents() || y == xs[0]
    ensures Distinct(multiset(xs[1..])) && forall x :: x in xs[1..] ==> x in xs && x.node.id !in IdsOf(m.Contents())
  {
    assert xs == [xs[0]] + xs[1..];
    assert multiset(xs) == multiset{xs[0]} + multiset(xs[1..]);
    DistinctRemove(multiset(xs), xs[0], multiset(xs[1..]));
    forall x | x in xs[1..] ensures x.node.id !in IdsOf(m.Contents()) {
      assert x in multiset(xs[1..]);
      forall y | y in m.Contents() ensures y.node.id != x.node.id {
        if y in t.Contents() {
          assert x in xs;
        }
      }
    }
  }

  // ---------- taking in replies ----------

  /** Every class is as it was or has grown. */
  ghost predicate Grown(t: Table, t': Table) {
    forall c :: t'.Class(c) == t.Class(c) || |t'.Class(c)| > |t.Class(c)|
  }

  lemma ReplyGrows(base: Table, t: Table, x: NodeWrapper, t': Table, c: nat)
    requires t.Valid() && Offered(t, x, t') && Grown(base, t)
    requires base.ourId == t.ourId && base.k == t.k && forall y :: y in base.Contents() ==> y.firstSeen < x.firstSeen
    ensures t'.Class(c) == base.Class(c) || |t'.Class(c)| > |base.Class(c)|
  {
    if x.node.id == t.ourId || x.node.id in IdsOf(t.Contents()) {
      assert t' == t;
    } else {
      var chumps :| AddStep(t, x, t', chumps);
      AddStepClass(t, x, t', chumps, c);
      if c == Prefix(t.ourId, x.node.id) {
        ClassGrows(base, t, x, t', chumps);
      }
    }
  }

  lemma ClassGrows(base: Table, t: Table, x: NodeWrapper, t': Table, chumps: seq<NodeWrapper>)
    requires t.Valid() && AddStep(t, x, t', chumps) && x.node.id != t.ourId && x.node.id !in IdsOf(t.Contents())
    requires base.ourId == t.ourId && base.k == t.k && forall y :: y in base.Contents() ==> y.firstSeen < x.firstSeen
    requires Grown(base, t)
    ensures var c := Prefix(t.ourId, x.node.id); t'.Class(c) == base.Class(c) || |t'.Class(c)| > |base.Class(c)|
  {
    var c := Prefix(t.ourId, x.node.id);
    AddStepClass(t, x, t', chumps, c);
    assert |t'.Class(c) + multiset(chumps)| == |t.Class(c) + multiset{x}|;
    if t.Class(c) == base.Class(c) && |t.Class(c)| == t.k {
      forall y | y in t.Class(c) ensures y.firstSeen < x.firstSeen {
        assert y in base.Class(c);
        assert y in base.Contents();
      }
      ShutOut(t, x, t');
    }
  }

  lemma OneReplyGrows(base: Table, t: Table, x: NodeWrapper, t': Table)
    requires t.Valid() && Offered(t, x, t') && Grown(base, t)
    requires base.ourId == t.ourId && base.k == t.k && forall y :: y in base.Contents() ==> y.firstSeen < x.firstSeen
    ensures Grown(base, t')
  {
    forall c: nat ensures t'.Class(c) == base.Class(c) || |t'.Class(c)| > |base.Class(c)| {
      ReplyGrows(base, t, x, t', c);
    }
  }

  lemma {:induction false} RepliesGrow(base: Table, t: Table, xs: seq<NodeWrapper>, t': Table, bs: set<Birth>)
    requires Sane(t, bs) && base.ourId == t.ourId && base.k == t.k && Grown(base, t) && OfferedAll(t, xs, t')
    requires forall x :: x in xs ==> OwnAge(x, bs) && forall y :: y in base.Contents() ==> y.firstSeen < x.firstSeen
    ensures Grown(base, t') && t'.ourId == t.ourId
    decreases |xs|
  {
    if xs != [] {
      var m := FirstOffered(t, xs, t');
      OfferedSane(t, xs[0], m, bs);
      OneReplyGrows(base, t, xs[0], m);
      RepliesGrow(base, m, xs[1..], t', bs);
    }
  }

  // ---------- sizes ----------

  lemma RangeSplit(m: Items, target: Id, d: nat)
    requires d <= ID_BITS
    ensures AtLeast(m, target, d) == Exact(m, target, d) + AtLeast(m, target, d + 1)
  {
  }

  lemma NothingBeyond(m: Items, target: Id)
    ensures AtLeast(m, target, ID_BITS + 1) == multiset{}
  {
  }

  lemma {:induction false} GrownReach(t: Table, t': Table, d: nat)
    requires Grown(t, t') && t'.ourId == t.ourId && d <= ID_BITS + 1
    ensures var a, b := AtLeast(t.Contents(), t.ourId, d), AtLeast(t'.Contents(), t.ourId, d); a == b || |b| > |a|
    decreases ID_BITS + 1 - d
  {
    if d == ID_BITS + 1 {
      NothingBeyond(t.Contents(), t.ourId);
      NothingBeyond(t'.Contents(), t.ourId);
    } else {
      GrownReach(t, t', d + 1);
      RangeSplit(t.Contents(), t.ourId, d);
      RangeSplit(t'.Contents(), t.ourId, d);
      assert t'.Class(d) == t.Class(d) || |t'.Class(d)| > |t.Class(d)|;
    }
  }

  /** A table whose classes are as they were or have grown is as it was or has grown. */
  lemma GrownContents(t: Table, t': Table)
    requires Grown(t, t') && t'.ourId == t.ourId
    ensures t'.Contents() == t.Contents() || |t'.Contents()| > |t.Contents()|
  {
    GrownReach(t, t', 0);
    AllReachZero(t.Contents(), t.ourId);
    AllReachZero(t'.Contents(), t.ourId);
  }

  lemma AllReachZero(m: Items, target: Id)
    ensures AtLeast(m, target, 0) == m
  {
  }

  lemma NobodyIsUs(t: Table)
    requires t.Valid()
    ensures AtLeast(t.Contents(), t.ourId, ID_BITS) == multiset{}
  {
    forall x | x in t.Contents() ensures Prefix(t.ourId, x.node.id) < ID_BITS {
      ContentsNotOurs(t, x);
    }
    assert forall x :: AtLeast(t.Contents(), t.ourId, ID_BITS)[x] == 0;
  }

  lemma ReachGrowsByClass(t: Table, d: nat)
    requires t.Valid() && d < ID_BITS
    ensures |AtLeast(t.Contents(), t.ourId, d)| <= t.k + |AtLeast(t.Contents(), t.ourId, d + 1)|
  {
    RangeSplit(t.Contents(), t.ourId, d);
    ClassAtMostK(t, d);
  }

  lemma OneMoreTimes(k: nat, n: nat)
    ensures k * (n + 1) == k + k * n
  {
  }

  lemma {:induction false} ReachAtMost(t: Table, d: nat)
    requires t.Valid() && d <= ID_BITS
    ensures |AtLeast(t.Contents(), t.ourId, d)| <= t.k * (ID_BITS - d)
    decreases ID_BITS - d
  {
    if d == ID_BITS {
      NobodyIsUs(t);
    } else {
      ReachAtMost(t, d + 1);
      ReachGrowsByClass(t, d);
      OneMoreTimes(t.k, ID_BITS - (d + 1));
    }
  }

  /** No table holds more than k nodes for each bit of an id. */
  lemma TableHolds(t: Table)
    requires t.Valid()
    ensures |t.Contents()| <= t.k * ID_BITS
  {
    ReachAtMost(t, 0);
    AllReachZero(t.Contents(), t.ourId);
  }

  // ---------- turns ----------

  /** Whatever replies are still to come are newer than all stored nodes. */
  ghost predicate Ahead(t: Table, rounds: seq<Round>, i: nat) {
    forall j, y, x :: i <= j < |rounds| && y in t.Contents() && x in Brought(rounds, j) ==> y.firstSeen < x.firstSeen
  }

  /** A table of the lookup, sane and behind the replies of rounds i on. */
  ghost predicate Calm(t: Table, target: Id, rounds: seq<Round>, i: nat) {
    Sane(t, AllOffers(rounds, target)) && t.ourId == target && t.k == LOOKUP_K && Ahead(t, rounds, i)
  }

  lemma EmptyIsCalm(target: Id, rounds: seq<Round>)
    ensures Calm(EmptyTable(target, LOOKUP_K), target, rounds, 0)
  {
    EmptyRefines(target, LOOKUP_K);
    assert EmptyTable(target, LOOKUP_K).Contents() == multiset{};
  }

  lemma SeedsAreOffers(rounds: seq<Round>, target: Id, i: nat, x: NodeWrapper)
    requires i < |rounds| && x in rounds[i].seeds && x.node.id != target
    ensures BirthOf(x) in Offers(rounds, target, i) && BirthOf(x) in AllOffers(rounds, target)
  {
    assert BirthOf(x) in Offers(rounds, target, i);
  }

  lemma SeedingKeepsCalm(target: Id, rounds: seq<Round>, i: nat, t: Table, t': Table)
    requires Timely(rounds, target) && i < |rounds| && Calm(t, target, rounds, i)
    requires OfferedAll(t, rounds[i].seeds, t')
    ensures Calm(t', target, rounds, i) && MoreSettled(t, t', AllOffers(rounds, target))
  {
    var bs, seeds := AllOffers(rounds, target), rounds[i].seeds;
    SeedsAreTimely(rounds, target, i);
    SeedsOffered(t, seeds, t', bs);
    OfferedAllSane(t, seeds, t', bs);
    SeedsStayBehind(t, t', rounds, target, i);
  }

  lemma SeedsAreTimely(rounds: seq<Round>, target: Id, i: nat)
    requires Timely(rounds, target) && i < |rounds|
    ensures Distinct(multiset(rounds[i].seeds))
    ensures forall x :: x in rounds[i].seeds ==>
              OwnAge(x, AllOffers(rounds, target)) && (x.node.id == target || BirthOf(x) in AllOffers(rounds, target))
  {
    forall x | x in rounds[i].seeds && x.node.id != target ensures BirthOf(x) in AllOffers(rounds, target) {
      SeedsAreOffers(rounds, target, i, x);
    }
  }

  lemma SeedsStayBehind(t: Table, t': Table, rounds: seq<Round>, target: Id, i: nat)
    requires Timely(rounds, target) && i < |rounds| && Ahead(t, rounds, i)
    requires forall y :: y in t'.Contents() ==> y in t.Contents() || y in rounds[i].seeds
    ensures Ahead(t', rounds, i)
  {
  }

  lemma RepliesStayBehind(t: Table, t': Table, rounds: seq<Round>, target: Id, i: nat)
    requires Timely(rounds, target) && i < |rounds| && Ahead(t, rounds, i)
    requires forall y :: y in t'.Contents() ==> y in t.Contents() || y in Brought(rounds, i)
    ensures Ahead(t', rounds, i + 1)
  {
  }

  lemma RepliesKeepCalm(target: Id, rounds: seq<Round>, i: nat, t: Table, t': Table)
    requires Timely(rounds, target) && i < |rounds| && Calm(t, target, rounds, i)
    requires OfferedAll(t, Brought(rounds, i), t')
    ensures Calm(t', target, rounds, i + 1)
    ensures SettledOf(t, AllOffers(rounds, target)) <= SettledOf(t', AllOffers(rounds, target))
    ensures t'.Contents() == t.Contents() || |t'.Contents()| > |t.Contents()|
  {
    var bs, xs := AllOffers(rounds, target), Brought(rounds, i);
    forall x | x in xs ensures OwnAge(x, bs) && forall y :: y in t.Contents() ==> y.firstSeen < x.firstSeen {
    }
    OfferedAllSane(t, xs, t', bs);
    RepliesStayBehind(t, t', rounds, target, i);
    RepliesGrow(t, t, xs, t', bs);
    GrownContents(t, t');
  }

  /** A lookup in a network where time passes. */
  ghost predicate Steady(target: Id, rounds: seq<Round>, turns: seq<Turn>) {
    LookupRun(target, rounds, turns) && Timely(rounds, target)
  }

  lemma TurnKeepsCalm(target: Id, rounds: seq<Round>, turns: seq<Turn>, i: nat)
    requires Steady(target, rounds, turns) && i < |turns| && Calm(turns[i].seeded, target, rounds, i)
    ensures Calm(turns[i].after, target, rounds, i + 1)
    ensures var bs := AllOffers(rounds, target); SettledOf(turns[i].seeded, bs) <= SettledOf(turns[i].after, bs)
    ensures turns[i].after.Contents() == turns[i].seeded.Contents()
         || |turns[i].after.Contents()| > |turns[i].seeded.Contents()|
  {
    TurnOf(target, rounds, turns, i);
    if turns[i].outcome == Asked {
      RepliesKeepCalm(target, rounds, i, turns[i].seeded, turns[i].after);
    }
  }

  lemma NextSeeding(target: Id, rounds: seq<Round>, turns: seq<Turn>, i: nat)
    requires Steady(target, rounds, turns) && i < |turns| && Calm(Before(target, turns, i), target, rounds, i)
    ensures Calm(turns[i].seeded, target, rounds, i)
    ensures MoreSettled(Before(target, turns, i), turns[i].seeded, AllOffers(rounds, target))
  {
    TurnOf(target, rounds, turns, i);
    SeedingKeepsCalm(target, rounds, i, Before(target, turns, i), turns[i].seeded);
  }

  lemma NextIsCalm(target: Id, rounds: seq<Round>, turns: seq<Turn>, i: nat)
    requires Steady(target, rounds, turns) && i < |turns| && Calm(Before(target, turns, i), target, rounds, i)
    ensures Calm(Before(target, turns, i + 1), target, rounds, i + 1)
  {
    NextSeeding(target, rounds, turns, i);
    TurnKeepsCalm(target, rounds, turns, i);
  }

  lemma {:induction false} BeforeIsCalm(target: Id, rounds: seq<Round>, turns: seq<Turn>, i: nat)
    requires Steady(target, rounds, turns) && i < |turns|
    ensures Calm(Before(target, turns, i), target, rounds, i)
    decreases i
  {
    if i == 0 {
      EmptyIsCalm(target, rounds);
    } else {
      BeforeIsCalm(target, rounds, turns, i - 1);
      NextIsCalm(target, rounds, turns, i - 1);
    }
  }

  lemma QueryIsCalm(target: Id, rounds: seq<Round>, turns: seq<Turn>, i: nat)
    requires Steady(target, rounds, turns) && i < |turns|
    ensures Calm(turns[i].seeded, target, rounds, i)
  {
    BeforeIsCalm(target, rounds, turns, i);
    NextSeeding(target, rounds, turns, i);
  }

  // ---------- the measure ----------

  lemma BirthSetSize(a: set<Birth>, b: set<Birth>)
    requires a <= b
    ensures |a| <= |b| && (a < b ==> |a| < |b|) && |b - a| == |b| - |a|
  {
    assert b == a + (b - a);
  }

  /** The nodes a table stores and the nodes of bs it has an answer to, counted together. */
  ghost function Weight(t: Table, bs: set<Birth>): nat {
    |t.Contents()| + |SettledOf(t, bs)|
  }

  lemma MoreWeight(t: Table, m: Table, t': Table, bs: set<Birth>)
    requires SettledOf(t, bs) <= SettledOf(m, bs)
    requires m.Contents() == t.Contents() || |m.Contents()| > |t.Contents()|
    requires MoreSettled(m, t', bs)
    ensures t'.Contents() == t.Contents() || Weight(t', bs) > Weight(t, bs)
  {
    BirthSetSize(SettledOf(t, bs), SettledOf(m, bs));
    BirthSetSize(SettledOf(m, bs), SettledOf(t', bs));
  }

  /**
    A turn that asks right after another weighs more: it has more nodes stored, or
    the main table has offered a node that the table had no answer to.
   */
  lemma AsksOnlyWithMore(target: Id, rounds: seq<Round>, turns: seq<Turn>, i: nat)
    requires Steady(target, rounds, turns) && i + 1 < |turns|
    requires turns[i].outcome == Asked && turns[i + 1].outcome == Asked
    ensures Weight(turns[i + 1].seeded, AllOffers(rounds, target)) > Weight(turns[i].seeded, AllOffers(rounds, target))
  {
    QueryIsCalm(target, rounds, turns, i);
    TurnKeepsCalm(target, rounds, turns, i);
    BeforeIsCalm(target, rounds, turns, i + 1);
    NextSeeding(target, rounds, turns, i + 1);
    MoreWeight(turns[i].seeded, turns[i].after, turns[i + 1].seeded, AllOffers(rounds, target));
    if turns[i + 1].seeded.Contents() == turns[i].seeded.Contents() {
      SameTableSameAnswer(target, rounds, turns, i);
    }
  }

  lemma SameTableSameAnswer(target: Id, rounds: seq<Round>, turns: seq<Turn>, i: nat)
    requires LookupRun(target, rounds, turns) && i + 1 < |turns| && turns[i].outcome == Asked
    requires turns[i + 1].seeded.Contents() == turns[i].seeded.Contents()
    ensures turns[i + 1].outcome == NothingNew
  {
    assert IdList(turns[i + 1].chosen) == IdList(turns[i].chosen) by {
      QueryAnswers(target, rounds, turns, i);
      QueryAnswers(target, rounds, turns, i + 1);
      OneAnswer(turns[i].seeded.Contents(), target, turns[i].chosen,
                turns[i + 1].seeded.Contents(), turns[i + 1].chosen);
    }
    SameAgain(target, rounds, turns, i + 1);
  }

  lemma OneAnswer(m: Items, target: Id, r: seq<NodeWrapper>, m': Items, s: seq<NodeWrapper>)
    requires KNearest(m, target, LOOKUP_K, r) && KNearest(m', target, LOOKUP_K, s) && Distinct(m) && m' == m
    ensures IdList(r) == IdList(s)
  {
    AnswersAgree(m, target, LOOKUP_K, r, s, |r|);
    assert r == r[..|r|] == s[..|r|] == s;
  }

  ghost predicate Rises(ws: seq<nat>, i: nat)
    requires i + 1 < |ws|
  {
    ws[i] < ws[i + 1]
  }

  lemma {:induction false} RisesByOneEach(ws: seq<nat>, f: nat, i: nat)
    requires f <= i < |ws| && forall l :: f <= l < i ==> Rises(ws, l)
    ensures ws[i] >= ws[f] + (i - f)
    decreases i
  {
    if f < i {
      RisesByOneEach(ws, f, i - 1);
      assert Rises(ws, i - 1);
    }
  }

  /** The weights of the tables of all queries. */
  ghost function Weights(target: Id, rounds: seq<Round>, turns: seq<Turn>): (ws: seq<nat>)
    ensures |ws| == |turns|
    ensures forall i :: 0 <= i < |turns| ==> ws[i] == Weight(turns[i].seeded, AllOffers(rounds, target))
  {
    seq(|turns|, i requires 0 <= i < |turns| => Weight(turns[i].seeded, AllOffers(rounds, target)))
  }

  lemma WeightRises(target: Id, rounds: seq<Round>, turns: seq<Turn>, f: nat, i: nat)
    requires Steady(target, rounds, turns) && f <= i && i + 1 < |turns|
    requires turns[f].outcome == turns[i + 1].outcome == Asked
    ensures Rises(Weights(target, rounds, turns), i)
  {
    NeverIdleAgain(target, rounds, turns, f, i + 1);
    AsksOnlyWithMore(target, rounds, turns, i);
  }

  lemma AskedInBetween(target: Id, rounds: seq<Round>, turns: seq<Turn>, f: nat, l: nat, i: nat)
    requires LookupRun(target, rounds, turns) && f < l <= i < |turns| && turns[f].outcome == turns[i].outcome == Asked
    ensures turns[l].outcome == Asked
  {
    NeverIdleAgain(target, rounds, turns, f, l);
    OutcomeOf(target, rounds, turns, l);
  }

  lemma RisesInBetween(target: Id, rounds: seq<Round>, turns: seq<Turn>, f: nat, l: nat, i: nat)
    requires Steady(target, rounds, turns) && f <= l < i < |turns| && turns[f].outcome == turns[i].outcome == Asked
    ensures Rises(Weights(target, rounds, turns), l)
  {
    AskedInBetween(target, rounds, turns, f, l + 1, i);
    WeightRises(target, rounds, turns, f, l);
  }

  lemma HeavierAndHeavier(target: Id, rounds: seq<Round>, turns: seq<Turn>, f: nat, i: nat, ws: seq<nat>)
    requires Steady(target, rounds, turns) && f <= i < |turns| && turns[f].outcome == turns[i].outcome == Asked
    requires ws == Weights(target, rounds, turns)
    ensures ws[i] >= ws[f] + (i - f)
  {
    forall l | f <= l < i ensures Rises(ws, l) {
      RisesInBetween(target, rounds, turns, f, l, i);
    }
    RisesByOneEach(ws, f, i);
  }

  // ---------- the first query ----------

  /** Turn f is the first that asks; those before it knew nobody. */
  ghost predicate FirstAsked(turns: seq<Turn>, f: nat) {
    f < |turns| && turns[f].outcome == Asked && forall j :: 0 <= j < f ==> turns[j].outcome == Idle
  }

  lemma NothingBefore(target: Id, rounds: seq<Round>, turns: seq<Turn>, f: nat)
    requires LookupRun(target, rounds, turns) && FirstAsked(turns, f)
    ensures Before(target, turns, f).Contents() == multiset{}
  {
    if f == 0 {
      assert EmptyTable(target, LOOKUP_K).Contents() == multiset{};
    } else {
      IdleStoresNothing(target, rounds, turns, f - 1);
    }
  }

  lemma IdleStoresNothing(target: Id, rounds: seq<Round>, turns: seq<Turn>, i: nat)
    requires LookupRun(target, rounds, turns) && i < |turns| && turns[i].outcome == Idle
    ensures turns[i].after.Contents() == multiset{}
  {
    QueryIsAware(target, rounds, turns, i);
    EmptyMeansUnheard(turns[i].seeded, HeardAtQuery(rounds, i, target));
    TurnOf(target, rounds, turns, i);
  }

  /** It is made on a table that has an answer to each node the main table offered. */
  lemma FirstQuerySettled(target: Id, rounds: seq<Round>, turns: seq<Turn>, f: nat)
    requires Steady(target, rounds, turns) && FirstAsked(turns, f)
    ensures Offers(rounds, target, f) <= SettledOf(turns[f].seeded, AllOffers(rounds, target))
    ensures |turns[f].seeded.Contents()| > 0
  {
    NothingBefore(target, rounds, turns, f);
    BeforeIsCalm(target, rounds, turns, f);
    FirstSeeding(target, rounds, f, Before(target, turns, f), turns[f].seeded) by {
      TurnOf(target, rounds, turns, f);
    }
    FirstStores(target, rounds, turns, f);
  }

  lemma FirstStores(target: Id, rounds: seq<Round>, turns: seq<Turn>, f: nat)
    requires LookupRun(target, rounds, turns) && f < |turns| && turns[f].outcome == Asked
    ensures |turns[f].seeded.Contents()| > 0
  {
    OutcomeOf(target, rounds, turns, f);
    QueryAnswers(target, rounds, turns, f);
  }

  /** Seeding an empty table gives it an answer to each node offered. */
  lemma FirstSeeding(target: Id, rounds: seq<Round>, f: nat, t: Table, t': Table)
    requires Timely(rounds, target) && f < |rounds| && Calm(t, target, rounds, f)
    requires t.Contents() == multiset{} && OfferedAll(t, rounds[f].seeds, t')
    ensures Offers(rounds, target, f) <= SettledOf(t', AllOffers(rounds, target))
  {
    var bs := AllOffers(rounds, target);
    SeedsAreTimely(rounds, target, f);
    FreshOffered(t, rounds[f].seeds, t', bs);
    forall b | b in Offers(rounds, target, f) ensures b in SettledOf(t', bs) {
      var x :| x in rounds[f].seeds && x.node.id != target && BirthOf(x) == b;
      SeedsAreOffers(rounds, target, f, x);
    }
  }

  // ---------- the bound ----------

  lemma OffersAmongAll(rounds: seq<Round>, target: Id, f: nat)
    requires f < |rounds|
    ensures Offers(rounds, target, f) <= AllOffers(rounds, target)
    ensures |Newcomers(rounds, target, f)| == |AllOffers(rounds, target)| - |Offers(rounds, target, f)|
  {
    BirthSetSize(Offers(rounds, target, f), AllOffers(rounds, target));
  }

  lemma StoredOrNew(target: Id, rounds: seq<Round>, turns: seq<Turn>, f: nat, i: nat)
    requires Steady(target, rounds, turns) && FirstAsked(turns, f) && f <= i < |turns| && turns[i].outcome == Asked
    ensures i - f < |turns[i].seeded.Contents()| + |Newcomers(rounds, target, f)|
  {
    var bs := AllOffers(rounds, target);
    HeavierAndHeavier(target, rounds, turns, f, i, Weights(target, rounds, turns));
    FirstQuerySettled(target, rounds, turns, f);
    BirthSetSize(Offers(rounds, target, f), SettledOf(turns[f].seeded, bs));
    BirthSetSize(SettledOf(turns[i].seeded, bs), bs);
    OffersAmongAll(rounds, target, f);
  }

  /**
    From its first query on a lookup asks at most as many times as it hears of ids, or eight times
    for each bit of an id if that is less, and once more for each node that the main table
    offers at another time than that of the first query; whatever the network replies.
   */
  lemma AsksNoMoreThanHeard(target: Id, rounds: seq<Round>, turns: seq<Turn>, f: nat, i: nat)
    requires Steady(target, rounds, turns) && FirstAsked(turns, f) && f <= i < |turns| && turns[i].outcome == Asked
    ensures i - f < |HeardAtEnd(rounds, turns, target) - {target}| + |Newcomers(rounds, target, f)|
    ensures i - f < LOOKUP_K * ID_BITS + |Newcomers(rounds, target, f)|
  {
    StoredOrNew(target, rounds, turns, f, i);
    QueryIsAware(target, rounds, turns, i);
    TableHolds(turns[i].seeded);
    DistinctSize(turns[i].seeded.Contents());
    StoredAmong(turns[i].seeded, HeardAtQuery(rounds, i, target));
    HeardByTheEnd(rounds, turns, i, target);
    SetSubsetSize(HeardAtQuery(rounds, i, target) - {target}, HeardAtEnd(rounds, turns, target) - {target});
  }

  lemma StoredAmong(t: Table, heard: set<Id>)
    requires Knows(t, heard)
    ensures |IdsOf(t.Contents())| <= |heard - {t.ourId}|
  {
    StoredWasHeard(t, heard, 0);
    assert Reaching(IdsOf(t.Contents()), t.ourId, 0) == IdsOf(t.Contents());
    assert Reaching(heard - {t.ourId}, t.ourId, 0) == heard - {t.ourId};
    SetSubsetSize(IdsOf(t.Contents()), heard - {t.ourId});
  }

  // ---------- stopping ----------

  /** Round f is the first in which the main table knows anybody but the target. */
  ghost predicate FirstKnown(rounds: seq<Round>, target: Id, f: nat) {
    && f < |rounds| && !(IdsIn(rounds[f].seeds) <= {target})
    && forall j :: 0 <= j < f ==> IdsIn(rounds[j].seeds) <= {target}
  }

  lemma {:induction false} NothingHeard(target: Id, rounds: seq<Round>, n: nat)
    requires n <= |rounds| && forall j :: 0 <= j < n ==> IdsIn(rounds[j].seeds) <= {target}
    ensures Heard(rounds, n, target) <= {target}
    decreases n
  {
    if n > 0 {
      NothingHeard(target, rounds, n - 1);
      HeardNext(rounds, n - 1, target);
    }
  }

  lemma IdleWhileUnknown(target: Id, rounds: seq<Round>, turns: seq<Turn>, i: nat)
    requires LookupRun(target, rounds, turns) && i < |turns|
    requires forall j :: 0 <= j <= i ==> IdsIn(rounds[j].seeds) <= {target}
    ensures turns[i].outcome == Idle
  {
    NothingHeard(target, rounds, i);
    QueryIsAware(target, rounds, turns, i);
  }

  /** A lookup that is never told of anybody never converges. */
  lemma NeverConverges(target: Id, rounds: seq<Round>, turns: seq<Turn>)
    requires LookupRun(target, rounds, turns)
    requires forall j :: 0 <= j < |rounds| ==> IdsIn(rounds[j].seeds) <= {target}
    ensures !Converged(turns)
  {
    if turns != [] {
      IdleWhileUnknown(target, rounds, turns, |turns| - 1);
    }
  }

  lemma FirstKnownAsks(target: Id, rounds: seq<Round>, turns: seq<Turn>, f: nat)
    requires LookupRun(target, rounds, turns) && FirstKnown(rounds, target, f) && f < |turns|
    ensures FirstAsked(turns, f)
  {
    forall j | 0 <= j < f ensures turns[j].outcome == Idle {
      IdleWhileUnknown(target, rounds, turns, j);
    }
    QueryIsAware(target, rounds, turns, f);
    NobodyAsked(turns, f);
    OutcomeOf(target, rounds, turns, f);
  }

  lemma AsksOrConverges(target: Id, rounds: seq<Round>, turns: seq<Turn>, f: nat, i: nat)
    requires LookupRun(target, rounds, turns) && FirstAsked(turns, f) && f <= i < |turns| && !Converged(turns)
    ensures turns[i].outcome == Asked
  {
    if f < i {
      NeverIdleAgain(target, rounds, turns, f, i);
    }
    NotLast(target, rounds, turns, i);
  }

  /**
    So it stops by itself: given time for that many turns after the main table first
    knows anybody, it converges.
   */
  lemma LookupConverges(target: Id, rounds: seq<Round>, turns: seq<Turn>, f: nat)
    requires Steady(target, rounds, turns) && (Converged(turns) || |turns| == |rounds|)
    requires FirstKnown(rounds, target, f)
    requires |rounds| > f + LOOKUP_K * ID_BITS + |Newcomers(rounds, target, f)|
    ensures Converged(turns)
  {
    if !Converged(turns) {
      var i := f + LOOKUP_K * ID_BITS + |Newcomers(rounds, target, f)|;
      FirstKnownAsks(target, rounds, turns, f);
      AsksOrConverges(target, rounds, turns, f, i);
      AsksNoMoreThanHeard(target, rounds, turns, f, i);
    }
  }

  lemma NoNewcomers(rounds: seq<Round>, target: Id)
    requires rounds != [] && forall i :: 0 <= i < |rounds| ==> rounds[i].seeds == rounds[0].seeds
    ensures Newcomers(rounds, target, 0) == {}
  {
    forall i | 0 <= i < |rounds| ensures Offers(rounds, target, i) == Offers(rounds, target, 0) {
      assert rounds[i].seeds == rounds[0].seeds;
    }
  }

  /**
    While the main table stays as it is, 1280 turns are enough, and the lookup then stops
    by itself exactly if that table knows anybody but the target.
   */
  lemma ConvergesWhileNothingChanges(target: Id, rounds: seq<Round>, turns: seq<Turn>, r: seq<Node>)
    requires Lookup(target, rounds, turns, r) && Timely(rounds, target)
    requires |rounds| > LOOKUP_K * ID_BITS && forall i :: 0 <= i < |rounds| ==> rounds[i].seeds == rounds[0].seeds
    ensures Converged(turns) <==> !(IdsIn(rounds[0].seeds) <= {target})
  {
    NoNewcomers(rounds, target);
    if IdsIn(rounds[0].seeds) <= {target} {
      NeverConverges(target, rounds, turns);
    } else {
      LookupConverges(target, rounds, turns, 0);
    }
  }
}
