/**
  The pair of routing tables of a DHT node, one of verified and one of unverified
  nodes, as values: the meaning of each operation and what every run of them keeps.
 */
module Storages {
  import opened Wrappers
  import opened Ids
  import opened Nodes
  import opened Tables
  import opened BucketRuns

  datatype Storage = Storage(verified: Table, unverified: Table) {
    ghost function All(): Items {
      verified.Contents() + unverified.Contents()
    }
  }

  /** Operations with the readings of the clock they take, in the order they take them. */
  datatype Op =
    | AddOrUpdate(node: Node, verified: bool, now: Instant, later: Instant)
    | Prune(grace: nat, unverifiedGrace: nat, now: Instant, later: Instant)
    | Clear
    | SetId(newId: Id)

  // ---------- the steps ----------

  /** t' is t with the stored node x overwritten by y. */
  ghost predicate Updated(t: Table, x: NodeWrapper, y: NodeWrapper, t': Table) {
    && x in t.Contents()
    && t'.Valid() && t'.ourId == t.ourId && t'.k == t.k && |t'.buckets| == |t.buckets|
    && t'.Contents() + multiset{x} == t.Contents() + multiset{y}
  }

  ghost predicate Removed(t: Table, x: NodeWrapper, t': Table) {
    && x in t.Contents()
    && t'.Valid() && t'.ourId == t.ourId && t'.k == t.k && |t'.buckets| == |t.buckets|
    && t'.Contents() + multiset{x} == t.Contents()
  }

  function Seen(x: NodeWrapper, now: Instant): NodeWrapper {
    x.(lastSeen := now)
  }

  function Verified(x: NodeWrapper, now: Instant): NodeWrapper {
    x.(lastSeen := now, lastVerified := Some(now))
  }

  /** w goes into the verified table, and what it pushes out goes into the unverified one. */
  ghost predicate Admitted(s: Storage, w: NodeWrapper, s': Storage) {
    exists chumps ::
      && AddStep(s.verified, w, s'.verified, chumps)
      && if chumps == [] then s'.unverified == s.unverified
         else exists lost :: AddStep(s.unverified, chumps[0], s'.unverified, lost)
  }

  ghost predicate SeenStep(s: Storage, node: Node, now: Instant, s': Storage) {
    if node.id in IdsOf(s.verified.Contents()) then
      && s'.unverified == s.unverified
      && exists x: NodeWrapper :: x.node.id == node.id && Updated(s.verified, x, Seen(x, now), s'.verified)
    else if node.id in IdsOf(s.unverified.Contents()) then
      && s'.verified == s.verified
      && exists x: NodeWrapper :: x.node.id == node.id && Updated(s.unverified, x, Seen(x, now), s'.unverified)
    else
      && s'.verified == s.verified
      && exists lost :: AddStep(s.unverified, NewWrapper(node, now), s'.unverified, lost)
  }

  /** The stored unverified node p is taken out, marked verified and admitted. */
  ghost predicate Promoted(s: Storage, p: NodeWrapper, now: Instant, s': Storage) {
    exists u :: Removed(s.unverified, p, u) && Admitted(s.(unverified := u), Verified(p, now), s')
  }

  ghost predicate VerifiedStep(s: Storage, node: Node, now: Instant, later: Instant, s': Storage) {
    if node.id in IdsOf(s.unverified.Contents()) then
      exists p: NodeWrapper :: p.node.id == node.id && Promoted(s, p, now, s')
    else if node.id in IdsOf(s.verified.Contents()) then
      && s'.unverified == s.unverified
      && exists x: NodeWrapper :: x.node.id == node.id && Updated(s.verified, x, Verified(x, now), s'.verified)
    else
      Admitted(s, Verified(NewWrapper(node, later), now), s')
  }

  predicate KeepVerified(x: NodeWrapper, time: Instant) {
    x.lastVerified.Some? && x.lastVerified.value >= time
  }

  predicate KeepUnverified(x: NodeWrapper, time: Instant, unverifiedTime: Instant) {
    KeepVerified(x, time) || (x.lastSeen >= time && x.lastSeen >= unverifiedTime)
  }

  ghost predicate PruneStep(s: Storage, grace: nat, unverifiedGrace: nat, now: Instant, later: Instant, s': Storage) {
    if now < grace || later < unverifiedGrace then s' == s
    else
      && SameShape(s.verified, s'.verified) && SameShape(s.unverified, s'.unverified)
      && (forall x {:trigger s'.verified.Contents()[x]} ::
            s'.verified.Contents()[x] == if KeepVerified(x, now - grace) then s.verified.Contents()[x] else 0)
      && (forall x {:trigger s'.unverified.Contents()[x]} ::
            s'.unverified.Contents()[x] ==
              if KeepUnverified(x, now - grace, later - unverifiedGrace) then s.unverified.Contents()[x] else 0)
  }

  ghost predicate SameShape(t: Table, t': Table) {
    t'.Valid() && t'.ourId == t.ourId && t'.k == t.k && |t'.buckets| == |t.buckets|
  }

  ghost predicate Step(s: Storage, op: Op, s': Storage) {
    match op
    case AddOrUpdate(node, verified, now, later) =>
      if verified then VerifiedStep(s, node, now, later, s') else SeenStep(s, node, now, s')
    case Prune(grace, unverifiedGrace, now, later) => PruneStep(s, grace, unverifiedGrace, now, later, s')
    case Clear =>
      s' == Storage(EmptyTable(s.verified.ourId, s.verified.k), EmptyTable(s.unverified.ourId, s.unverified.k))
    case SetId(newId) =>
      s' == Storage(EmptyTable(newId, s.verified.k), EmptyTable(newId, s.unverified.k))
  }

  // ---------- what the tables share ----------

  /** Both tables are well formed and see the same id of ours. */
  ghost predicate Sound(s: Storage) {
    && s.verified.Valid() && s.unverified.Valid()
    && s.verified.ourId == s.unverified.ourId && s.verified.k == s.unverified.k
  }

  /** Admitting a node changes nothing else but that one node may be lost, and only from a full class. */
  lemma AdmitBalance(s: Storage, w: NodeWrapper, s': Storage) returns (lost: Items)
    requires Sound(s) && Admitted(s, w, s')
    ensures Sound(s') && s'.verified.ourId == s.verified.ourId && s'.verified.k == s.verified.k
    ensures w.node.id == s.verified.ourId ==> s' == s && lost == multiset{}
    ensures w.node.id != s.verified.ourId ==> s'.All() + lost == s.All() + multiset{w}
    ensures w.node.id != s.verified.ourId ==> s'.verified.Contents() <= s.verified.Contents() + multiset{w}
    ensures |lost| <= 1
    ensures lost != multiset{} ==> |s.unverified.Class(Prefix(s.verified.ourId, w.node.id))| == s.verified.k
    ensures lost != multiset{} ==> |s.verified.Class(Prefix(s.verified.ourId, w.node.id))| == s.verified.k
    ensures forall x :: x in lost ==> Prefix(s.verified.ourId, x.node.id) == Prefix(s.verified.ourId, w.node.id)
  {
    var chumps :|
      && AddStep(s.verified, w, s'.verified, chumps)
      && if chumps == [] then s'.unverified == s.unverified
         else exists l :: AddStep(s.unverified, chumps[0], s'.unverified, l);
    lost := multiset{};
    if w.node.id != s.verified.ourId {
      if chumps == [] {
        BalanceNone(s.verified.Contents(), s'.verified.Contents(), multiset(chumps), w, s.unverified.Contents());
      } else {
        var l :| AddStep(s.unverified, chumps[0], s'.unverified, l);
        EjectedBalance(s, w, s', chumps, l);
        lost := multiset(l);
      }
    }
  }

  /** The case that the verified table pushes a node out into the unverified one. */
  lemma EjectedBalance(s: Storage, w: NodeWrapper, s': Storage, chumps: seq<NodeWrapper>, l: seq<NodeWrapper>)
    requires Sound(s) && w.node.id != s.verified.ourId && chumps != []
    requires AddStep(s.verified, w, s'.verified, chumps) && AddStep(s.unverified, chumps[0], s'.unverified, l)
    ensures Sound(s') && |multiset(l)| <= 1
    ensures s'.All() + multiset(l) == s.All() + multiset{w}
    ensures s'.verified.Contents() <= s.verified.Contents() + multiset{w}
    ensures multiset(l) != multiset{} ==> |s.unverified.Class(Prefix(s.verified.ourId, w.node.id))| == s.verified.k
    ensures |s.verified.Class(Prefix(s.verified.ourId, w.node.id))| == s.verified.k
    ensures forall x :: x in multiset(l) ==> Prefix(s.verified.ourId, x.node.id) == Prefix(s.verified.ourId, w.node.id)
  {
    var e := chumps[0];
    assert multiset(chumps) == multiset{e} by { assert chumps == [e]; }
    EjectedSharesPrefix(s.verified, w, s'.verified, chumps);
    EjectedNotOurs(s.verified, w, s'.verified, e);
    AddStepClass(s.unverified, e, s'.unverified, l, Prefix(s.verified.ourId, w.node.id));
    EjectedAlike(s.unverified, e, s'.unverified, l);
    BalanceTwo(s.verified.Contents(), s'.verified.Contents(), e, w,
               s.unverified.Contents(), s'.unverified.Contents(), multiset(l));
  }

  lemma EjectedAlike(t: Table, x: NodeWrapper, t': Table, lost: seq<NodeWrapper>)
    requires t.Valid() && AddStep(t, x, t', lost)
    ensures forall y :: y in multiset(lost) ==> Prefix(t.ourId, y.node.id) == Prefix(t.ourId, x.node.id)
    ensures lost != [] ==> |t.Class(Prefix(t.ourId, x.node.id))| == t.k
  {
    if lost != [] {
      EjectedSharesPrefix(t, x, t', lost);
      assert lost == [lost[0]];
    }
  }

  lemma EjectedNotOurs(t: Table, w: NodeWrapper, t': Table, e: NodeWrapper)
    requires t.Valid() && w.node.id != t.ourId
    requires t'.Contents() + multiset{e} == t.Contents() + multiset{w}
    ensures e.node.id != t.ourId
  {
    assert e in t'.Contents() + multiset{e};
    if e in t.Contents() {
      ContentsNotOurs(t, e);
    }
  }

  lemma BalanceNone(v: Items, v': Items, none: Items, w: NodeWrapper, u: Items)
    requires v' + none == v + multiset{w} && none == multiset{}
    ensures v' + u + multiset{} == v + u + multiset{w}
    ensures v' <= v + multiset{w}
  {
    assert v' == v' + none;
  }

  lemma BalanceTwo(v: Items, v': Items, e: NodeWrapper, w: NodeWrapper, u: Items, u': Items, lost: Items)
    requires v' + multiset{e} == v + multiset{w}
    requires u' + lost == u + multiset{e}
    ensures v' + u' + lost == v + u + multiset{w}
    ensures v' <= v + multiset{w}
  {
    assert v' + u' + lost == v' + (u' + lost);
    assert v' + (u + multiset{e}) == (v' + multiset{e}) + u;
  }

  // ---------- nobody is lost by a promotion ----------

  /**
    Marking an unverified node as verified loses nobody: the node it pushes out
    of the verified table, if any, fits into the place it leaves.
   */
  lemma PromotionLosesNobody(s: Storage, p: NodeWrapper, now: Instant, s': Storage)
    requires Sound(s) && Promoted(s, p, now, s')
    ensures Sound(s') && s'.verified.ourId == s.verified.ourId && s'.verified.k == s.verified.k
    ensures p in s.unverified.Contents()
    ensures s'.All() + multiset{p} == s.All() + multiset{Verified(p, now)}
    ensures IdsOf(s'.All()) == IdsOf(s.All())
    ensures |s'.All()| == |s.All()|
    ensures s'.verified.Contents() <= s.verified.Contents() + multiset{Verified(p, now)}
  {
    var u :| Removed(s.unverified, p, u) && Admitted(s.(unverified := u), Verified(p, now), s');
    ReturnedFits(s, p, u, Verified(p, now), s');
    assert p in s.All();
    SwapKeepsIds(s.All(), p, Verified(p, now), s'.All());
  }

  /** Whatever the promoted node w pushes out of the verified table has room where p was. */
  lemma ReturnedFits(s: Storage, p: NodeWrapper, u: Table, w: NodeWrapper, s': Storage)
    requires Sound(s) && Removed(s.unverified, p, u) && p.node == w.node && Admitted(s.(unverified := u), w, s')
    ensures Sound(s') && s'.verified.ourId == s.verified.ourId && s'.verified.k == s.verified.k
    ensures s'.All() + multiset{p} == s.All() + multiset{w}
    ensures s'.verified.Contents() <= s.verified.Contents() + multiset{w}
  {
    ContentsNotOurs(s.unverified, p);
    var lost := AdmitBalance(s.(unverified := u), w, s');
    RoomAfterRemoval(s.unverified, p, u);
    Swapped(s.verified.Contents(), s.unverified.Contents(), u.Contents(), p, w, s'.All(), lost);
  }

  lemma RoomAfterRemoval(t: Table, p: NodeWrapper, u: Table)
    requires t.Valid() && Removed(t, p, u)
    ensures |u.Class(Prefix(t.ourId, p.node.id))| < t.k
  {
    var c := Prefix(t.ourId, p.node.id);
    ClassAtMostK(t, c);
    InRangeAdd(u.Contents(), p, t.ourId, c, c + 1);
    assert t.Class(c) == u.Class(c) + multiset{p};
  }

  lemma Swapped(v: Items, u0: Items, u: Items, p: NodeWrapper, w: NodeWrapper, all: Items, none: Items)
    requires u + multiset{p} == u0 && none == multiset{}
    requires all + none == v + u + multiset{w}
    ensures all + multiset{p} == v + u0 + multiset{w}
  {
    assert all == all + none;
    assert v + u + multiset{w} + multiset{p} == v + (u + multiset{p}) + multiset{w};
  }

  lemma SwapKeepsIds(m: Items, x: NodeWrapper, y: NodeWrapper, m': Items)
    requires x in m && x.node.id == y.node.id && m' + multiset{x} == m + multiset{y}
    ensures IdsOf(m') == IdsOf(m) && |m'| == |m|
  {
    SwapIn(m, x, y, m');
    SwapIn(m', y, x, m);
    assert |m' + multiset{x}| == |m + multiset{y}|;
  }

  lemma SwapIn(m: Items, x: NodeWrapper, y: NodeWrapper, m': Items)
    requires m' + multiset{x} == m + multiset{y} && x.node.id == y.node.id
    requires x in m || y in m'
    ensures y in m'
    ensures IdsOf(m) <= IdsOf(m')
  {
    assert (m' + multiset{x})[y] == (m + multiset{y})[y];
    assert (m' + multiset{x})[x] == (m + multiset{y})[x];
    forall z | z in m ensures z.node.id in IdsOf(m') {
      if z !in m' {
        assert (m' + multiset{x})[z] == (m + multiset{y})[z];
        assert z == x;
      }
    }
  }

  // ---------- what every run keeps ----------

  ghost predicate TimesUpTo(x: NodeWrapper, clock: Instant) {
    && x.firstSeen <= clock && x.lastSeen <= clock
    && (x.lastVerified.Some? ==> x.lastVerified.value <= clock)
  }

  /** Verified at some time, and not after it was last seen. */
  ghost predicate Honest(x: NodeWrapper) {
    x.lastVerified.Some? && x.lastVerified.value <= x.lastSeen
  }

  /** No id is stored twice in either table or across them, and all times are as they should be. */
  ghost predicate Tidy(v: Items, u: Items, clock: Instant) {
    && Distinct(v + u)
    && (forall x :: x in v ==> Honest(x))
    && (forall x :: x in v + u ==> TimesUpTo(x, clock))
  }

  ghost predicate Invariant(s: Storage, clock: Instant) {
    && Sound(s)
    && Tidy(s.verified.Contents(), s.unverified.Contents(), clock)
    && s.verified.ourId !in IdsOf(s.All())
    && Roomy(s.verified) && Roomy(s.unverified)
  }

  lemma OursNotStored(s: Storage)
    requires Sound(s)
    ensures s.verified.ourId !in IdsOf(s.All())
  {
    forall x | x in s.All() ensures x.node.id != s.verified.ourId {
      if x in s.verified.Contents() {
        ContentsNotOurs(s.verified, x);
      } else {
        ContentsNotOurs(s.unverified, x);
      }
    }
  }

  /** w comes for gone, which is either the node with w's id or, if there is none, anything. */
  ghost predicate Exchange(m: Items, gone: Items, w: NodeWrapper, m': Items) {
    && m' + gone == m + multiset{w}
    && (w.node.id !in IdsOf(m) || exists p :: p in m && p.node.id == w.node.id && gone == multiset{p})
  }

  lemma CancelOne(m: Items, p: NodeWrapper, w: NodeWrapper, m': Items)
    requires p in m && m' + multiset{p} == m + multiset{w}
    ensures m - multiset{p} + multiset{p} == m
    ensures m' == m - multiset{p} + multiset{w}
  {
    forall x ensures m'[x] == (m - multiset{p} + multiset{w})[x] {
      assert (m' + multiset{p})[x] == (m + multiset{w})[x];
    }
  }

  lemma ReplaceKeepsDistinct(m: Items, p: NodeWrapper, w: NodeWrapper, m': Items)
    requires Distinct(m) && p in m && p.node.id == w.node.id && m' + multiset{p} == m + multiset{w}
    ensures Distinct(m')
  {
    CancelOne(m, p, w, m');
    DistinctRemove(m, p, m - multiset{p});
    DistinctAdd(m - multiset{p}, w);
  }

  lemma NothingElseNew(m: Items, gone: Items, w: NodeWrapper, m': Items)
    requires m' + gone == m + multiset{w}
    ensures m' <= m + multiset{w}
    ensures forall x :: x in m' ==> x in m || x == w
  {
    forall x | x in m' ensures x in m || x == w {
      assert x in m + multiset{w};
    }
  }

  lemma ExchangeKeepsDistinct(m: Items, gone: Items, w: NodeWrapper, m': Items)
    requires Distinct(m) && Exchange(m, gone, w, m')
    ensures Distinct(m')
    ensures forall x :: x in m' ==> x in m || x == w
  {
    NothingElseNew(m, gone, w, m');
    if w.node.id !in IdsOf(m) {
      DistinctAdd(m, w);
      DistinctSubset(m', m + multiset{w});
    } else {
      var p :| p in m && p.node.id == w.node.id && gone == multiset{p};
      ReplaceKeepsDistinct(m, p, w, m');
    }
  }

  lemma AllHonest(v: Items, v': Items, w: NodeWrapper)
    requires forall x :: x in v ==> Honest(x)
    requires v' == v || (Honest(w) && v' <= v + multiset{w})
    ensures forall x :: x in v' ==> Honest(x)
  {
    forall x | x in v' ensures Honest(x) {
      if v' != v {
        assert x in v + multiset{w};
      }
    }
  }

  lemma ExchangeKeepsTidy(
      v: Items, u: Items, gone: Items, w: NodeWrapper, v': Items, u': Items, clock: Instant, clock': Instant)
    requires Tidy(v, u, clock) && clock <= clock' && TimesUpTo(w, clock')
    requires Exchange(v + u, gone, w, v' + u')
    requires v' == v || (Honest(w) && v' <= v + multiset{w})
    ensures Tidy(v', u', clock')
  {
    ExchangeKeepsDistinct(v + u, gone, w, v' + u');
    AllHonest(v, v', w);
  }

  lemma ExchangeKeepsInvariant(s: Storage, gone: Items, w: NodeWrapper, s': Storage, clock: Instant, clock': Instant)
    requires Invariant(s, clock) && clock <= clock' && TimesUpTo(w, clock')
    requires Sound(s') && Roomy(s'.verified) && Roomy(s'.unverified)
    requires Exchange(s.All(), gone, w, s'.All())
    requires s'.verified == s.verified || (Honest(w) && s'.verified.Contents() <= s.verified.Contents() + multiset{w})
    ensures Invariant(s', clock')
  {
    ExchangeKeepsTidy(s.verified.Contents(), s.unverified.Contents(), gone, w,
                      s'.verified.Contents(), s'.unverified.Contents(), clock, clock');
    OursNotStored(s');
  }

  lemma AdmitRoomy(s: Storage, w: NodeWrapper, s': Storage)
    requires Sound(s) && Admitted(s, w, s') && w.node.id != s.verified.ourId
    requires Distinct(s.All() + multiset{w}) && Roomy(s.verified) && Roomy(s.unverified)
    ensures Roomy(s'.verified) && Roomy(s'.unverified)
  {
    DistinctParts(s.verified.Contents(), s.unverified.Contents(), w);
    var chumps :|
      && AddStep(s.verified, w, s'.verified, chumps)
      && if chumps == [] then s'.unverified == s.unverified
         else exists l :: AddStep(s.unverified, chumps[0], s'.unverified, l);
    AddKeepsRoomy(s.verified, w, s'.verified, chumps);
    if chumps != [] {
      var l :| AddStep(s.unverified, chumps[0], s'.unverified, l);
      EjectedKeepsRoomy(s, w, s'.verified, chumps, s'.unverified, l);
    }
  }

  lemma EjectedKeepsRoomy(
      s: Storage, w: NodeWrapper, v': Table, chumps: seq<NodeWrapper>, u': Table, l: seq<NodeWrapper>)
    requires s.unverified.Valid() && w.node.id != s.verified.ourId
    requires AddStep(s.verified, w, v', chumps) && chumps != []
    requires AddStep(s.unverified, chumps[0], u', l)
    requires Distinct(s.All() + multiset{w}) && Roomy(s.unverified)
    ensures Roomy(u')
  {
    var e := chumps[0];
    assert multiset(chumps) == multiset{e} by { assert chumps == [e]; }
    EjectedStaysDistinct(s.verified.Contents(), v'.Contents(), e, w, s.unverified.Contents());
    AddKeepsRoomy(s.unverified, e, u', l);
  }

  lemma DistinctParts(v: Items, u: Items, w: NodeWrapper)
    requires Distinct(v + u + multiset{w})
    ensures Distinct(v + multiset{w}) && Distinct(u + multiset{w})
  {
    assert v + multiset{w} <= v + u + multiset{w};
    assert u + multiset{w} <= v + u + multiset{w};
    DistinctSubset(v + multiset{w}, v + u + multiset{w});
    DistinctSubset(u + multiset{w}, v + u + multiset{w});
  }

  lemma EjectedStaysDistinct(v: Items, v': Items, e: NodeWrapper, w: NodeWrapper, u: Items)
    requires v' + multiset{e} == v + multiset{w} && Distinct(v + u + multiset{w})
    ensures Distinct(u + multiset{e})
  {
    forall x ensures (u + multiset{e})[x] <= (v + u + multiset{w})[x] {
      assert (v' + multiset{e})[x] == (v + multiset{w})[x];
    }
    DistinctSubset(u + multiset{e}, v + u + multiset{w});
  }

  // ---------- one operation ----------

  /** The clock after an operation; an operation reads it in nondecreasing order. */
  function ClockAfter(op: Op, clock: Instant): Instant {
    match op
    case AddOrUpdate(_, _, now, later) => later
    case Prune(_, _, now, later) => later
    case _ => clock
  }

  predicate InOrder(op: Op, clock: Instant) {
    match op
    case AddOrUpdate(_, _, now, later) => clock <= now <= later
    case Prune(_, _, now, later) => clock <= now <= later
    case _ => true
  }

  /** A balance of one table is a balance of both. */
  lemma MoveOver(v: Items, v': Items, a: Items, b: Items, u: Items)
    requires v' + a == v + b
    ensures v' + u + a == v + u + b
    ensures u + v' + a == u + v + b
    ensures |u + v'| + |a| == |u + v| + |b|
    ensures |v' + u| + |a| == |v + u| + |b|
  {
    forall x ensures (v' + u + a)[x] == (v + u + b)[x] && (u + v' + a)[x] == (u + v + b)[x] {
      assert (v' + a)[x] == (v + b)[x];
    }
    assert u + v' + a == u + v + b;
    assert |u + v' + a| == |u + v + b|;
    assert v' + u + a == v + u + b;
    assert |v' + u + a| == |v + u + b|;
  }

  /** Overwriting one of the nodes v by a reading of the same node, the nodes u staying as they are. */
  lemma UpdateExchange(v: Items, v': Items, u: Items, x: NodeWrapper, y: NodeWrapper)
    requires v' + multiset{x} == v + multiset{y} && x in v && x.node == y.node
    ensures Exchange(v + u, multiset{x}, y, v' + u) && Exchange(u + v, multiset{x}, y, u + v')
    ensures |v' + u| == |v + u| && |u + v'| == |u + v|
    ensures v' <= v + multiset{y}
  {
    MoveOver(v, v', multiset{x}, multiset{y}, u);
    NothingElseNew(v, multiset{x}, y, v');
    assert x in v + u && x in u + v;
  }

  lemma SameShapeSound(s: Storage, s': Storage)
    requires Sound(s) && Roomy(s.verified) && Roomy(s.unverified)
    requires SameShape(s.verified, s'.verified) && SameShape(s.unverified, s'.unverified)
    ensures Sound(s') && Roomy(s'.verified) && Roomy(s'.unverified)
  {
  }

  lemma ReplaceKeepsInvariant(s: Storage, x: NodeWrapper, y: NodeWrapper, s': Storage, clock: Instant, later: Instant)
    requires Invariant(s, clock) && clock <= later && TimesUpTo(y, later)
    requires SameShape(s.verified, s'.verified) && SameShape(s.unverified, s'.unverified)
    requires Exchange(s.All(), multiset{x}, y, s'.All())
    requires s'.verified == s.verified || (Honest(y) && s'.verified.Contents() <= s.verified.Contents() + multiset{y})
    ensures Invariant(s', later)
  {
    SameShapeSound(s, s');
    ExchangeKeepsInvariant(s, multiset{x}, y, s', clock, later);
  }

  /** Overwriting a verified node by a later reading of it. */
  lemma UpdateVerifiedKeeps(s: Storage, x: NodeWrapper, y: NodeWrapper, s': Storage, clock: Instant, later: Instant)
    requires Invariant(s, clock) && clock <= later
    requires Updated(s.verified, x, y, s'.verified) && s'.unverified == s.unverified
    requires x.node == y.node && Honest(y) && TimesUpTo(y, later)
    ensures Invariant(s', later)
    ensures |s'.All()| == |s.All()|
  {
    UpdateExchange(s.verified.Contents(), s'.verified.Contents(), s.unverified.Contents(), x, y);
    ReplaceKeepsInvariant(s, x, y, s', clock, later);
  }

  lemma UpdateUnverifiedKeeps(s: Storage, x: NodeWrapper, y: NodeWrapper, s': Storage, clock: Instant, later: Instant)
    requires Invariant(s, clock) && clock <= later
    requires Updated(s.unverified, x, y, s'.unverified) && s'.verified == s.verified
    requires x.node == y.node && TimesUpTo(y, later)
    ensures Invariant(s', later)
    ensures |s'.All()| == |s.All()|
  {
    UpdateExchange(s.unverified.Contents(), s'.unverified.Contents(), s.verified.Contents(), x, y);
    ReplaceKeepsInvariant(s, x, y, s', clock, later);
  }

  lemma NewUnverifiedKeeps(
      s: Storage, w: NodeWrapper, s': Storage, lost: seq<NodeWrapper>, clock: Instant, later: Instant)
    requires Invariant(s, clock) && clock <= later && TimesUpTo(w, later)
    requires w.node.id !in IdsOf(s.All()) && w.node.id != s.unverified.ourId
    requires AddStep(s.unverified, w, s'.unverified, lost) && s'.verified == s.verified
    ensures Invariant(s', later)
    ensures |s'.All()| >= |s.All()|
  {
    var v, u := s.verified.Contents(), s.unverified.Contents();
    MoveOver(u, s'.unverified.Contents(), multiset(lost), multiset{w}, v);
    DistinctAdd(s.All(), w);
    DistinctParts(v, u, w);
    AddKeepsRoomy(s.unverified, w, s'.unverified, lost);
    ExchangeKeepsInvariant(s, multiset(lost), w, s', clock, later);
  }

  lemma StoredTimes(s: Storage, x: NodeWrapper, clock: Instant)
    requires Invariant(s, clock)
    ensures x in s.verified.Contents() ==> Honest(x) && TimesUpTo(x, clock)
    ensures x in s.unverified.Contents() ==> TimesUpTo(x, clock)
  {
    assert s.All()[x] == s.verified.Contents()[x] + s.unverified.Contents()[x];
  }

  lemma SeenVerifiedKeeps(s: Storage, id: Id, now: Instant, s': Storage, clock: Instant, later: Instant)
    requires Invariant(s, clock) && clock <= now <= later && s'.unverified == s.unverified
    requires exists x: NodeWrapper :: x.node.id == id && Updated(s.verified, x, Seen(x, now), s'.verified)
    ensures Invariant(s', later) && |s'.All()| == |s.All()|
  {
    var x: NodeWrapper :| x.node.id == id && Updated(s.verified, x, Seen(x, now), s'.verified);
    StoredTimes(s, x, clock);
    UpdateVerifiedKeeps(s, x, Seen(x, now), s', clock, later);
  }

  lemma SeenUnverifiedKeeps(s: Storage, id: Id, now: Instant, s': Storage, clock: Instant, later: Instant)
    requires Invariant(s, clock) && clock <= now <= later && s'.verified == s.verified
    requires exists x: NodeWrapper :: x.node.id == id && Updated(s.unverified, x, Seen(x, now), s'.unverified)
    ensures Invariant(s', later) && |s'.All()| == |s.All()|
  {
    var x: NodeWrapper :| x.node.id == id && Updated(s.unverified, x, Seen(x, now), s'.unverified);
    StoredTimes(s, x, clock);
    UpdateUnverifiedKeeps(s, x, Seen(x, now), s', clock, later);
  }

  lemma NotStored(s: Storage, id: Id)
    requires id !in IdsOf(s.verified.Contents()) && id !in IdsOf(s.unverified.Contents())
    ensures id !in IdsOf(s.All())
  {
  }

  lemma TimePasses(s: Storage, clock: Instant, later: Instant)
    requires Invariant(s, clock) && clock <= later
    ensures Invariant(s, later)
  {
  }

  lemma SeenKeeps(s: Storage, node: Node, now: Instant, s': Storage, clock: Instant, later: Instant)
    requires Invariant(s, clock) && SeenStep(s, node, now, s') && clock <= now <= later
    ensures Invariant(s', later)
    ensures |s'.All()| >= |s.All()|
  {
    if node.id in IdsOf(s.verified.Contents()) {
      SeenVerifiedKeeps(s, node.id, now, s', clock, later);
    } else if node.id in IdsOf(s.unverified.Contents()) {
      SeenUnverifiedKeeps(s, node.id, now, s', clock, later);
    } else {
      var w := NewWrapper(node, now);
      var lost :| AddStep(s.unverified, w, s'.unverified, lost);
      if node.id == s.unverified.ourId {
        assert s' == s;
        TimePasses(s, clock, later);
      } else {
        NotStored(s, node.id);
        NewUnverifiedKeeps(s, w, s', lost, clock, later);
      }
    }
  }

  lemma AdmitKeeps(s: Storage, w: NodeWrapper, s': Storage, clock: Instant, later: Instant)
    requires Invariant(s, clock) && Admitted(s, w, s') && clock <= later
    requires Honest(w) && TimesUpTo(w, later) && w.node.id !in IdsOf(s.All())
    ensures Invariant(s', later)
    ensures |s'.All()| >= |s.All()|
  {
    var lost := AdmitBalance(s, w, s');
    if w.node.id != s.verified.ourId {
      assert |s'.All() + lost| == |s.All() + multiset{w}|;
      DistinctAdd(s.All(), w);
      AdmitRoomy(s, w, s');
      ExchangeKeepsInvariant(s, lost, w, s', clock, later);
    }
  }

  lemma PromotionRoomy(s: Storage, p: NodeWrapper, now: Instant, s': Storage)
    requires Sound(s) && Distinct(s.All()) && Roomy(s.verified) && Roomy(s.unverified)
    requires Promoted(s, p, now, s')
    ensures Roomy(s'.verified) && Roomy(s'.unverified)
  {
    var u :| Removed(s.unverified, p, u) && Admitted(s.(unverified := u), Verified(p, now), s');
    AdmittedRoomy(s, p, u, Verified(p, now), s');
  }

  lemma AdmittedRoomy(s: Storage, p: NodeWrapper, u: Table, w: NodeWrapper, s': Storage)
    requires Sound(s) && Distinct(s.All()) && Roomy(s.verified) && Roomy(s.unverified)
    requires Removed(s.unverified, p, u) && p.node == w.node && Admitted(s.(unverified := u), w, s')
    ensures Roomy(s'.verified) && Roomy(s'.unverified)
  {
    ContentsNotOurs(s.unverified, p);
    RemovedStaysDistinct(s.verified.Contents(), s.unverified.Contents(), u.Contents(), p, w);
    AdmitRoomy(s.(unverified := u), w, s');
  }

  lemma RemovedStaysDistinct(v: Items, u: Items, u': Items, p: NodeWrapper, w: NodeWrapper)
    requires Distinct(v + u) && u' + multiset{p} == u && p.node.id == w.node.id
    ensures Distinct(v + u' + multiset{w})
  {
    assert v + u' + multiset{p} == v + u;
    DistinctRemove(v + u, p, v + u');
    DistinctAdd(v + u', w);
  }

  lemma PromotionKeeps(s: Storage, p: NodeWrapper, now: Instant, s': Storage, clock: Instant, later: Instant)
    requires Invariant(s, clock) && Promoted(s, p, now, s') && clock <= now <= later
    ensures Invariant(s', later)
    ensures IdsOf(s'.All()) == IdsOf(s.All()) && |s'.All()| == |s.All()|
  {
    PromotionLosesNobody(s, p, now, s');
    PromotionRoomy(s, p, now, s');
    StoredTimes(s, p, clock);
    assert p in s.All();
    ExchangeKeepsInvariant(s, multiset{p}, Verified(p, now), s', clock, later);
  }

  lemma VerifiedKeeps(s: Storage, node: Node, now: Instant, later: Instant, s': Storage, clock: Instant)
    requires Invariant(s, clock) && VerifiedStep(s, node, now, later, s') && clock <= now <= later
    ensures Invariant(s', later)
    ensures |s'.All()| >= |s.All()|
  {
    if node.id in IdsOf(s.unverified.Contents()) {
      var p: NodeWrapper :| p.node.id == node.id && Promoted(s, p, now, s');
      PromotionKeeps(s, p, now, s', clock, later);
    } else if node.id in IdsOf(s.verified.Contents()) {
      var x: NodeWrapper :| x.node.id == node.id && Updated(s.verified, x, Verified(x, now), s'.verified);
      StoredTimes(s, x, clock);
      UpdateVerifiedKeeps(s, x, Verified(x, now), s', clock, later);
    } else {
      NotStored(s, node.id);
      AdmitKeeps(s, Verified(NewWrapper(node, later), now), s', clock, later);
    }
  }

  lemma SubsetKeepsTidy(v: Items, u: Items, v': Items, u': Items, clock: Instant, later: Instant)
    requires Tidy(v, u, clock) && v' <= v && u' <= u && clock <= later
    ensures Tidy(v', u', later)
  {
    assert v' + u' <= v + u;
    DistinctSubset(v' + u', v + u);
    forall x | x in v' + u' ensures x in v + u {
      assert (v' + u')[x] <= (v + u)[x];
    }
  }

  lemma SubsetKeepsInvariant(s: Storage, s': Storage, clock: Instant, later: Instant)
    requires Invariant(s, clock) && clock <= later
    requires SameShape(s.verified, s'.verified) && SameShape(s.unverified, s'.unverified)
    requires s'.verified.Contents() <= s.verified.Contents()
    requires s'.unverified.Contents() <= s.unverified.Contents()
    ensures Invariant(s', later)
  {
    SubsetKeepsTidy(s.verified.Contents(), s.unverified.Contents(),
                    s'.verified.Contents(), s'.unverified.Contents(), clock, later);
    SameShapeSound(s, s');
    OursNotStored(s');
  }

  lemma PruneKeeps(
      s: Storage, grace: nat, unverifiedGrace: nat, now: Instant, later: Instant, s': Storage,
      clock: Instant)
    requires Invariant(s, clock) && PruneStep(s, grace, unverifiedGrace, now, later, s') && clock <= later
    ensures Invariant(s', later)
  {
    if now >= grace && later >= unverifiedGrace {
      forall x ensures s'.verified.Contents()[x] <= s.verified.Contents()[x] {
      }
      forall x ensures s'.unverified.Contents()[x] <= s.unverified.Contents()[x] {
      }
      SubsetKeepsInvariant(s, s', clock, later);
    }
  }

  lemma EmptyKeeps(ourId: Id, k: nat, clock: Instant)
    ensures Invariant(Storage(EmptyTable(ourId, k), EmptyTable(ourId, k)), clock)
  {
    EmptyRefines(ourId, k);
    var s := Storage(EmptyTable(ourId, k), EmptyTable(ourId, k));
    assert s.All() == multiset{};
  }

  lemma StepKeepsInvariant(s: Storage, op: Op, s': Storage, clock: Instant)
    requires Invariant(s, clock) && Step(s, op, s') && InOrder(op, clock)
    ensures Invariant(s', ClockAfter(op, clock))
  {
    match op
    case AddOrUpdate(node, verified, now, later) =>
      if verified {
        VerifiedKeeps(s, node, now, later, s', clock);
      } else {
        SeenKeeps(s, node, now, s', clock, later);
      }
    case Prune(grace, unverifiedGrace, now, later) =>
      PruneKeeps(s, grace, unverifiedGrace, now, later, s', clock);
    case Clear =>
      EmptyKeeps(s.verified.ourId, s.verified.k, clock);
    case SetId(newId) =>
      EmptyKeeps(newId, s.verified.k, clock);
  }

  /** Adding or updating a node, verified or not, never lowers the number of nodes known. */
  lemma AddOrUpdateNeverShrinks(s: Storage, op: Op, s': Storage, clock: Instant)
    requires Invariant(s, clock) && op.AddOrUpdate? && Step(s, op, s') && InOrder(op, clock)
    ensures |s'.All()| >= |s.All()|
  {
    if op.verified {
      VerifiedKeeps(s, op.node, op.now, op.later, s', clock);
    } else {
      SeenKeeps(s, op.node, op.now, s', clock, op.later);
    }
  }

  // ---------- runs ----------

  /** Operation i leads from moment i to the next. */
  ghost predicate StepAt(ss: seq<Storage>, ops: seq<Op>, clocks: seq<Instant>, i: nat)
    requires i < |ops| && |ss| == |clocks| == |ops| + 1
  {
    Step(ss[i], ops[i], ss[i + 1]) && InOrder(ops[i], clocks[i]) && clocks[i + 1] == ClockAfter(ops[i], clocks[i])
  }

  ghost predicate Run(ss: seq<Storage>, ops: seq<Op>, clocks: seq<Instant>) {
    && |ss| == |clocks| == |ops| + 1
    && forall i :: 0 <= i < |ops| ==> StepAt(ss, ops, clocks, i)
  }

  lemma RunStep(ss: seq<Storage>, ops: seq<Op>, clocks: seq<Instant>, i: nat)
    requires Run(ss, ops, clocks) && i < |ops|
    ensures Step(ss[i], ops[i], ss[i + 1]) && InOrder(ops[i], clocks[i])
    ensures clocks[i + 1] == ClockAfter(ops[i], clocks[i])
  {
    assert StepAt(ss, ops, clocks, i);
  }

  /** What holds at moment i holds at the next. */
  ghost predicate Stays(ps: seq<bool>, i: nat)
    requires i + 1 < |ps|
  {
    ps[i] ==> ps[i + 1]
  }

  /** What holds at first and stays from moment to moment holds at all of them. */
  lemma {:induction false} HoldsAlong(ps: seq<bool>, n: nat)
    requires n < |ps| && ps[0] && forall i :: 0 <= i < n ==> Stays(ps, i)
    ensures ps[n]
    decreases n
  {
    if n > 0 {
      HoldsAlong(ps, n - 1);
      assert Stays(ps, n - 1);
    }
  }

  /**
    At every moment of every run from an empty storage: ids are unique across both tables, both
    see the same id of ours and never store it, a verified node was last verified
    no later than last seen, and neither table outgrows its ids.
   */
  lemma RunKeepsInvariant(ss: seq<Storage>, ops: seq<Op>, clocks: seq<Instant>, ourId: Id, k: nat, n: nat)
    requires Run(ss, ops, clocks) && ss[0] == Storage(EmptyTable(ourId, k), EmptyTable(ourId, k))
    requires n <= |ops|
    ensures Invariant(ss[n], clocks[n])
  {
    var ps := seq(|ss|, i requires 0 <= i < |ss| => Invariant(ss[i], clocks[i]));
    EmptyKeeps(ourId, k, clocks[0]);
    forall i | 0 <= i < n ensures Stays(ps, i) {
      NextKeepsInvariant(ss, ops, clocks, i);
    }
    HoldsAlong(ps, n);
  }

  lemma NextKeepsInvariant(ss: seq<Storage>, ops: seq<Op>, clocks: seq<Instant>, i: nat)
    requires Run(ss, ops, clocks) && i < |ops|
    ensures Invariant(ss[i], clocks[i]) ==> Invariant(ss[i + 1], clocks[i + 1])
  {
    RunStep(ss, ops, clocks, i);
    if Invariant(ss[i], clocks[i]) {
      StepKeepsInvariant(ss[i], ops[i], ss[i + 1], clocks[i]);
    }
  }
}
