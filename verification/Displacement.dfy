/**
  Pruning nodes that were verified before: they outlive their verification in the unverified
  table once they are displaced into it, so the documentation is kept over all runs exactly
  when no node can be displaced.
 */
module Displacement {
  import opened Ids
  import opened ClassSizes
  import opened Nodes
  import opened Tables
  import opened Storages
  import opened StorageRuns
  import opened Pruning

  /** More than k different ids that share just d bits with ourId. */
  ghost predicate Crowd(ourId: Id, ids: set<Id>, d: nat, k: nat) {
    |ids| > k && d < ID_BITS && forall id :: id in ids ==> Prefix(ourId, id) == d
  }

  /** No class, whatever our id, has more than k ids. */
  ghost predicate NoCrowd(k: nat) {
    forall ourId, ids, d :: !Crowd(ourId, ids, d, k)
  }

  // ---------- nothing is displaced ----------

  ghost predicate NoneVerified(m: Items) {
    forall x :: x in m ==> x.lastVerified.None?
  }

  lemma ClassIsNoCrowd(t: Table, w: NodeWrapper)
    requires t.Valid() && Distinct(t.Contents() + multiset{w}) && w.node.id != t.ourId
    requires |t.Class(Prefix(t.ourId, w.node.id))| == t.k
    ensures !NoCrowd(t.k)
  {
    var c := Prefix(t.ourId, w.node.id);
    var m := t.Class(c) + multiset{w};
    assert m <= t.Contents() + multiset{w};
    DistinctSubset(m, t.Contents() + multiset{w});
    DistinctSize(m);
    PrefixLaws(t.ourId, w.node.id, w.node.id);
    forall id | id in IdsOf(m) ensures Prefix(t.ourId, id) == c {
      var x :| x in m && x.node.id == id;
      assert x == w || x in t.Class(c);
    }
    assert Crowd(t.ourId, IdsOf(m), c, t.k);
  }

  lemma NothingDisplaced(s: Storage, w: NodeWrapper, s': Storage)
    requires Sound(s) && Admitted(s, w, s') && NoCrowd(s.verified.k)
    requires w.node.id != s.verified.ourId ==> Distinct(s.verified.Contents() + multiset{w})
    ensures s'.unverified == s.unverified
  {
    var chumps :|
      && AddStep(s.verified, w, s'.verified, chumps)
      && if chumps == [] then s'.unverified == s.unverified
         else exists l :: AddStep(s.unverified, chumps[0], s'.unverified, l);
    if chumps != [] {
      EjectedSharesPrefix(s.verified, w, s'.verified, chumps);
      ClassIsNoCrowd(s.verified, w);
    }
  }

  lemma AdmittedApart(v: Items, u: Items, w: NodeWrapper)
    requires Distinct(v + u) && w.node.id !in IdsOf(v)
    ensures Distinct(v + multiset{w})
  {
    assert v <= v + u;
    DistinctSubset(v, v + u);
    DistinctAdd(v, w);
  }

  lemma PromotionDisplacesNone(s: Storage, p: NodeWrapper, now: Instant, s': Storage)
    requires Sound(s) && Distinct(s.All()) && Promoted(s, p, now, s') && NoCrowd(s.verified.k)
    ensures s'.unverified.Contents() <= s.unverified.Contents()
  {
    var u :| Removed(s.unverified, p, u) && Admitted(s.(unverified := u), Verified(p, now), s');
    NotInBoth(s.verified.Contents(), s.unverified.Contents(), p);
    AdmittedApart(s.verified.Contents(), s.unverified.Contents(), Verified(p, now));
    NothingDisplaced(s.(unverified := u), Verified(p, now), s');
    assert s.unverified.Contents() == u.Contents() + multiset{p};
  }

  lemma NotInBoth(v: Items, u: Items, p: NodeWrapper)
    requires Distinct(v + u) && p in u
    ensures p.node.id !in IdsOf(v)
  {
    forall x | x in v ensures x.node.id != p.node.id {
      assert x in v + u && p in v + u;
      assert (v + u)[x] == v[x] + u[x] && (v + u)[p] == v[p] + u[p];
    }
  }

  lemma SeenLeavesUnverified(s: Storage, node: Node, now: Instant, s': Storage)
    requires Sound(s) && SeenStep(s, node, now, s') && NoneVerified(s.unverified.Contents())
    ensures NoneVerified(s'.unverified.Contents())
  {
    if node.id in IdsOf(s.verified.Contents()) {
    } else if node.id in IdsOf(s.unverified.Contents()) {
      var x: NodeWrapper :| x.node.id == node.id && Updated(s.unverified, x, Seen(x, now), s'.unverified);
      NothingElseNew(s.unverified.Contents(), multiset{x}, Seen(x, now), s'.unverified.Contents());
    } else {
      var lost :| AddStep(s.unverified, NewWrapper(node, now), s'.unverified, lost);
      if node.id != s.unverified.ourId {
        NothingElseNew(s.unverified.Contents(), multiset(lost), NewWrapper(node, now), s'.unverified.Contents());
      }
    }
  }

  lemma VerifiedLeavesUnverified(s: Storage, node: Node, now: Instant, later: Instant, s': Storage)
    requires Sound(s) && Distinct(s.All()) && VerifiedStep(s, node, now, later, s') && NoCrowd(s.verified.k)
    ensures s'.unverified.Contents() <= s.unverified.Contents()
  {
    if node.id in IdsOf(s.unverified.Contents()) {
      var p: NodeWrapper :| p.node.id == node.id && Promoted(s, p, now, s');
      PromotionDisplacesNone(s, p, now, s');
    } else if node.id !in IdsOf(s.verified.Contents()) {
      var w := Verified(NewWrapper(node, later), now);
      AdmittedApart(s.verified.Contents(), s.unverified.Contents(), w);
      NothingDisplaced(s, w, s');
    }
  }

  /** While no class is crowded no stored unverified node has been verified. */
  lemma StepKeepsNoneVerified(s: Storage, op: Op, s': Storage)
    requires Sound(s) && Distinct(s.All()) && Step(s, op, s') && NoCrowd(s.verified.k)
    requires NoneVerified(s.unverified.Contents())
    ensures NoneVerified(s'.unverified.Contents())
  {
    match op
    case AddOrUpdate(node, verified, now, later) =>
      if verified {
        VerifiedLeavesUnverified(s, node, now, later, s');
      } else {
        SeenLeavesUnverified(s, node, now, s');
      }
    case Prune(grace, unverifiedGrace, now, later) =>
      if now >= grace && later >= unverifiedGrace {
        forall x | x in s'.unverified.Contents() ensures x in s.unverified.Contents() {
          assert s'.unverified.Contents()[x] <= s.unverified.Contents()[x];
        }
      }
    case Clear => NothingIn(s.unverified.ourId, s.unverified.k);
    case SetId(newId) => NothingIn(newId, s.unverified.k);
  }

  lemma RunKeepsNoneVerified(ss: seq<Storage>, ops: seq<Op>, clocks: seq<Instant>, ourId: Id, k: nat, n: nat)
    requires FromEmpty(ss, ops, clocks, ourId, k) && NoCrowd(k) && n <= |ops|
    ensures NoneVerified(ss[n].unverified.Contents())
  {
    var ps := seq(|ss|, i requires 0 <= i < |ss| => NoneVerified(ss[i].unverified.Contents()));
    assert ps[0] by {
      NothingIn(ourId, k);
    }
    forall i | 0 <= i < n ensures Stays(ps, i) {
      NextKeepsNoneVerified(ss, ops, clocks, ourId, k, i);
    }
    HoldsAlong(ps, n);
  }

  lemma NextKeepsNoneVerified(ss: seq<Storage>, ops: seq<Op>, clocks: seq<Instant>, ourId: Id, k: nat, i: nat)
    requires FromEmpty(ss, ops, clocks, ourId, k) && NoCrowd(k) && i < |ops|
    ensures NoneVerified(ss[i].unverified.Contents()) ==> NoneVerified(ss[i + 1].unverified.Contents())
  {
    RunKeepsCapacity(ss, ops, clocks, ourId, k, i);
    RunStep(ss, ops, clocks, i);
    if NoneVerified(ss[i].unverified.Contents()) {
      StepKeepsNoneVerified(ss[i], ops[i], ss[i + 1]);
    }
  }

  // ---------- a node is displaced ----------

  /** n of the ids, in a list. */
  lemma {:induction false} IdListExists(ids: set<Id>, n: nat) returns (xs: seq<Id>)
    requires n <= |ids|
    ensures |xs| == n && forall i :: 0 <= i < n ==> xs[i] in ids
    ensures forall i, j :: 0 <= i < j < n ==> xs[i] != xs[j]
  {
    if n == 0 {
      xs := [];
    } else {
      var id :| id in ids;
      var rest := IdListExists(ids - {id}, n - 1);
      xs := [id] + rest;
    }
  }

  /** Different ids, one more than the capacity k, that share just d bits with ourId. */
  ghost predicate Crowding(ourId: Id, k: nat, d: nat, xs: seq<Id>) {
    && k > 0 && |xs| == k + 1 && d < ID_BITS
    && (forall i :: 0 <= i <= k ==> Prefix(ourId, xs[i]) == d)
    && forall i, j :: 0 <= i < j <= k ==> xs[i] != xs[j]
  }

  function Peer(id: Id): Node {
    Node(id, V4([127, 0, 0, 1], 6881))
  }

  /** The instant of the prune, and of the last sight of the node displaced. */
  function PruneTime(xs: seq<Id>, grace: nat, unverifiedGrace: nat): Instant {
    |xs| + grace + unverifiedGrace + 1
  }

  /**
    The first node is seen, the others are verified one after the other, the first is
    verified too, the last is seen again much later, and a prune follows at once.
   */
  function LateOp(xs: seq<Id>, grace: nat, unverifiedGrace: nat, i: nat): Op
    requires |xs| > 1
  {
    var end, k := PruneTime(xs, grace, unverifiedGrace), |xs| - 1;
    if i == 0 then AddOrUpdate(Peer(xs[0]), false, 0, 0)
    else if i <= k then AddOrUpdate(Peer(xs[i]), true, i, i)
    else if i == k + 1 then AddOrUpdate(Peer(xs[0]), true, i, i)
    else if i == k + 2 then AddOrUpdate(Peer(xs[k]), false, end, end)
    else Prune(grace, unverifiedGrace, end, end)
  }

  function LatePrune(xs: seq<Id>, grace: nat, unverifiedGrace: nat): (ops: seq<Op>)
    requires |xs| > 1
    ensures |ops| == |xs| + 3
    ensures forall i :: 0 <= i < |ops| ==> ops[i] == LateOp(xs, grace, unverifiedGrace, i)
  {
    seq(|xs| + 3, i requires 0 <= i => LateOp(xs, grace, unverifiedGrace, i))
  }

  lemma LatePruneExists(ourId: Id, k: nat, xs: seq<Id>, grace: nat, unverifiedGrace: nat)
    returns (ss: seq<Storage>, clocks: seq<Instant>)
    requires |xs| > 1
    ensures FromEmpty(ss, LatePrune(xs, grace, unverifiedGrace), clocks, ourId, k)
  {
    var ops := LatePrune(xs, grace, unverifiedGrace);
    forall i | 0 <= i < |ops| ensures InOrder(ops[i], ClockBefore(ops, i)) {
      if i > 0 {
        assert ClockBefore(ops, i) == ClockAfter(ops[i - 1], ClockBefore(ops, i - 1));
      }
    }
    ss, clocks := RunExists(ourId, k, ops);
  }

  /** Node i of the list once it is verified. */
  function VerifiedPeer(xs: seq<Id>, i: nat): NodeWrapper
    requires i < |xs|
  {
    Verified(NewWrapper(Peer(xs[i]), i), i)
  }

  /** Nodes 1 to i of the list, verified. */
  function PeerList(xs: seq<Id>, i: nat): (s: seq<NodeWrapper>)
    requires i < |xs|
    ensures |s| == i && forall j :: 0 <= j < i ==> s[j] == VerifiedPeer(xs, j + 1)
  {
    seq(i, j requires 0 <= j < i => VerifiedPeer(xs, j + 1))
  }

  ghost function VerifiedPeers(xs: seq<Id>, i: nat): Items
    requires i < |xs|
  {
    multiset(PeerList(xs, i))
  }

  lemma PeerCount(xs: seq<Id>, i: nat)
    requires i < |xs|
    ensures |VerifiedPeers(xs, i)| == i
  {
  }

  lemma NextPeer(xs: seq<Id>, i: nat)
    requires 0 < i < |xs|
    ensures VerifiedPeers(xs, i) == VerifiedPeers(xs, i - 1) + multiset{VerifiedPeer(xs, i)}
  {
    assert PeerList(xs, i) == PeerList(xs, i - 1) + [VerifiedPeer(xs, i)];
  }

  lemma PeerAt(xs: seq<Id>, i: nat, x: NodeWrapper) returns (j: nat)
    requires i < |xs| && x in VerifiedPeers(xs, i)
    ensures 1 <= j <= i && x == VerifiedPeer(xs, j)
  {
    assert x in PeerList(xs, i);
    j :| 0 <= j < i && PeerList(xs, i)[j] == x;
    j := j + 1;
  }

  /** A new node is marked as verified while its table has room. */
  lemma VerifyNew(s: Storage, ourId: Id, k: nat, v: Items, u: Items, node: Node, now: Instant, s': Storage)
    requires Holds(s, ourId, k, v, u) && |v| < k && node.id != ourId
    requires node.id !in IdsOf(v) && node.id !in IdsOf(u) && VerifiedStep(s, node, now, now, s')
    ensures Holds(s', ourId, k, v + multiset{Verified(NewWrapper(node, now), now)}, u)
  {
    var w := Verified(NewWrapper(node, now), now);
    var lost := AdmitBalance(s, w, s');
    var chumps :|
      && AddStep(s.verified, w, s'.verified, chumps)
      && if chumps == [] then s'.unverified == s.unverified
         else exists l :: AddStep(s.unverified, chumps[0], s'.unverified, l);
    AddWithRoom(s.verified, w, s'.verified, chumps);
  }

  lemma AddWithRoom(t: Table, x: NodeWrapper, t': Table, chumps: seq<NodeWrapper>)
    requires t.Valid() && |t.Contents()| < t.k && x.node.id != t.ourId && AddStep(t, x, t', chumps)
    ensures chumps == [] && t'.Contents() == t.Contents() + multiset{x}
  {
    var c := Prefix(t.ourId, x.node.id);
    SubsetSize(t.Class(c), t.Contents());
    AddStepClass(t, x, t', chumps, c);
    assert t'.Contents() + multiset(chumps) == t'.Contents();
  }

  /** In a table of one full class an older node takes the place of the newest. */
  lemma OlderTakesPlace(t: Table, y: NodeWrapper, x: NodeWrapper, t': Table, chumps: seq<NodeWrapper>)
    requires t.Valid() && |t.Contents()| == t.k && x.node.id != t.ourId && AddStep(t, x, t', chumps)
    requires forall z :: z in t.Contents() ==> Prefix(t.ourId, z.node.id) == Prefix(t.ourId, x.node.id)
    requires y in t.Contents() && x.firstSeen < y.firstSeen
    requires forall z :: z in t.Contents() && z != y ==> z.firstSeen < y.firstSeen
    ensures chumps == [y]
  {
    var c := Prefix(t.ourId, x.node.id);
    assert t.Class(c) == t.Contents();
    AddStepClass(t, x, t', chumps, c);
    EjectedSharesPrefix(t, x, t', chumps);
    var e := chumps[0];
    assert multiset(chumps) == multiset{e} by { assert chumps == [e]; }
    assert forall z :: z in t'.Class(c) ==> z.firstSeen <= e.firstSeen;
    NewestGoes(t.Class(c), t'.Class(c), e, y, x);
  }

  lemma NewestGoes(m: Items, m': Items, e: NodeWrapper, y: NodeWrapper, x: NodeWrapper)
    requires m' + multiset{e} == m + multiset{x} && y in m && x.firstSeen < y.firstSeen
    requires forall z :: z in m && z != y ==> z.firstSeen < y.firstSeen
    requires forall z :: z in m' ==> z.firstSeen <= e.firstSeen
    ensures e == y
  {
    assert e in m + multiset{x} by { assert e in m' + multiset{e}; }
    assert (m' + multiset{e})[y] == (m + multiset{x})[y];
  }

  /** An older unverified node is marked as verified, and the newest of the full verified table takes its place. */
  lemma Displace(s: Storage, ourId: Id, k: nat, v: Items, y: NodeWrapper, p: NodeWrapper, now: Instant, s': Storage)
    requires Holds(s, ourId, k, v, multiset{p}) && VerifiedStep(s, p.node, now, now, s')
    requires |v| == k > 0 && y in v && p.firstSeen < y.firstSeen && p.node.id != ourId
    requires forall z :: z in v ==> Prefix(ourId, z.node.id) == Prefix(ourId, p.node.id)
    requires forall z :: z in v && z != y ==> z.firstSeen < y.firstSeen
    ensures s'.unverified.Contents() == multiset{y}
  {
    assert p in s.unverified.Contents();
    var q: NodeWrapper :| q.node.id == p.node.id && Promoted(s, q, now, s');
    PromotionLosesNobody(s, q, now, s');
    assert q == p;
    var u :| Removed(s.unverified, p, u) && Admitted(s.(unverified := u), Verified(p, now), s');
    SameRest(multiset{}, p, u.Contents());
    DisplacedInto(s.verified, y, Verified(p, now), u, s');
  }

  lemma DisplacedInto(t: Table, y: NodeWrapper, w: NodeWrapper, u: Table, s': Storage)
    requires t.Valid() && |t.Contents()| == t.k > 0 && y in t.Contents() && w.node.id != t.ourId
    requires u.Valid() && u.k == t.k && u.ourId == t.ourId && u.Contents() == multiset{}
    requires w.firstSeen < y.firstSeen && Admitted(Storage(t, u), w, s')
    requires forall z :: z in t.Contents() ==> Prefix(t.ourId, z.node.id) == Prefix(t.ourId, w.node.id)
    requires forall z :: z in t.Contents() && z != y ==> z.firstSeen < y.firstSeen
    ensures s'.unverified.Contents() == multiset{y}
  {
    var chumps :|
      && AddStep(t, w, s'.verified, chumps)
      && if chumps == [] then s'.unverified == u else exists l :: AddStep(u, chumps[0], s'.unverified, l);
    OlderTakesPlace(t, y, w, s'.verified, chumps);
    ContentsNotOurs(t, y);
    var l :| AddStep(u, chumps[0], s'.unverified, l);
    AddToEmpty(u, y, s'.unverified, l);
  }

  /** The unverified node is seen again. */
  lemma SeeAgain(s: Storage, y: NodeWrapper, now: Instant, s': Storage)
    requires Sound(s) && s.unverified.Contents() == multiset{y} && y.node.id !in IdsOf(s.verified.Contents())
    requires SeenStep(s, y.node, now, s')
    ensures s'.unverified.Contents() == multiset{Seen(y, now)}
  {
    assert y in s.unverified.Contents();
    var x: NodeWrapper :| x.node.id == y.node.id && Updated(s.unverified, x, Seen(x, now), s'.unverified);
    assert x == y;
    forall z ensures s'.unverified.Contents()[z] == multiset{Seen(y, now)}[z] {
      assert (s'.unverified.Contents() + multiset{y})[z] == (multiset{y} + multiset{Seen(y, now)})[z];
    }
  }

  // ---------- the run ----------

  /** A run of these operations on a storage of that capacity. */
  ghost predicate LateRun(
      ourId: Id, k: nat, d: nat, xs: seq<Id>, grace: nat, unverifiedGrace: nat,
      ss: seq<Storage>, clocks: seq<Instant>)
  {
    Crowding(ourId, k, d, xs) && FromEmpty(ss, LatePrune(xs, grace, unverifiedGrace), clocks, ourId, k)
  }

  lemma LateStep(
      ourId: Id, k: nat, d: nat, xs: seq<Id>, grace: nat, unverifiedGrace: nat,
      ss: seq<Storage>, clocks: seq<Instant>, i: nat)
    requires LateRun(ourId, k, d, xs, grace, unverifiedGrace, ss, clocks) && i < |xs| + 3
    ensures |ss| == |xs| + 4 && Step(ss[i], LateOp(xs, grace, unverifiedGrace, i), ss[i + 1])
    ensures Sound(ss[i]) && Distinct(ss[i].All())
  {
    RunStep(ss, LatePrune(xs, grace, unverifiedGrace), clocks, i);
    RunKeepsCapacity(ss, LatePrune(xs, grace, unverifiedGrace), clocks, ourId, k, i);
  }

  lemma NotOurs(ourId: Id, k: nat, d: nat, xs: seq<Id>, i: nat)
    requires Crowding(ourId, k, d, xs) && i <= k
    ensures xs[i] != ourId
  {
    PrefixLaws(ourId, ourId, ourId);
  }

  lemma NotYetVerified(ourId: Id, k: nat, d: nat, xs: seq<Id>, i: nat, j: nat)
    requires Crowding(ourId, k, d, xs) && i < j <= k
    ensures xs[j] !in IdsOf(VerifiedPeers(xs, i))
  {
    forall x | x in VerifiedPeers(xs, i) ensures x.node.id != xs[j] {
      var l := PeerAt(xs, i, x);
    }
  }

  lemma FirstIsSeen(
      ourId: Id, k: nat, d: nat, xs: seq<Id>, grace: nat, unverifiedGrace: nat,
      ss: seq<Storage>, clocks: seq<Instant>)
    requires LateRun(ourId, k, d, xs, grace, unverifiedGrace, ss, clocks)
    ensures |ss| == k + 5 && VerifiedUpTo(ss[1], ourId, k, xs, 0)
  {
    LateStep(ourId, k, d, xs, grace, unverifiedGrace, ss, clocks, 0);
    NotOurs(ourId, k, d, xs, 0);
    EmptyHolds(ourId, k);
    SeeNew(ss[0], ourId, k, Peer(xs[0]), 0, ss[1]);
  }

  /** Operation i of a run marks a new node as verified while its table has room. */
  lemma VerifyNewAt(
      ss: seq<Storage>, ops: seq<Op>, clocks: seq<Instant>, ourId: Id, k: nat, i: nat, v: Items, u: Items, node: Node)
    requires FromEmpty(ss, ops, clocks, ourId, k) && i < |ops| && ops[i] == AddOrUpdate(node, true, i, i)
    requires Holds(ss[i], ourId, k, v, u) && |v| < k && node.id != ourId
    requires node.id !in IdsOf(v) && node.id !in IdsOf(u)
    ensures Holds(ss[i + 1], ourId, k, v + multiset{Verified(NewWrapper(node, i), i)}, u)
  {
    RunStep(ss, ops, clocks, i);
    VerifyNew(ss[i], ourId, k, v, u, node, i, ss[i + 1]);
  }

  /** When nodes 1 to i are verified, as they are at moment i + 1. */
  ghost predicate VerifiedUpTo(s: Storage, ourId: Id, k: nat, xs: seq<Id>, i: nat)
    requires i < |xs|
  {
    Holds(s, ourId, k, VerifiedPeers(xs, i), multiset{NewWrapper(Peer(xs[0]), 0)})
  }

  lemma OneMoreVerified(
      ourId: Id, k: nat, d: nat, xs: seq<Id>, grace: nat, unverifiedGrace: nat,
      ss: seq<Storage>, clocks: seq<Instant>, i: nat)
    requires LateRun(ourId, k, d, xs, grace, unverifiedGrace, ss, clocks) && 0 < i <= k && |ss| == k + 5
    ensures VerifiedUpTo(ss[i], ourId, k, xs, i - 1) ==> VerifiedUpTo(ss[i + 1], ourId, k, xs, i)
  {
    if VerifiedUpTo(ss[i], ourId, k, xs, i - 1) {
      NextIsNew(ourId, k, d, xs, i);
      NextPeer(xs, i);
      assert LatePrune(xs, grace, unverifiedGrace)[i] == AddOrUpdate(Peer(xs[i]), true, i, i);
      VerifyNewAt(ss, LatePrune(xs, grace, unverifiedGrace), clocks, ourId, k, i,
                  VerifiedPeers(xs, i - 1), multiset{NewWrapper(Peer(xs[0]), 0)}, Peer(xs[i]));
    }
  }

  lemma NextIsNew(ourId: Id, k: nat, d: nat, xs: seq<Id>, i: nat)
    requires Crowding(ourId, k, d, xs) && 0 < i <= k
    ensures xs[i] != ourId && |VerifiedPeers(xs, i - 1)| < k
    ensures xs[i] !in IdsOf(VerifiedPeers(xs, i - 1)) && xs[i] !in IdsOf(multiset{NewWrapper(Peer(xs[0]), 0)})
  {
    NotYetVerified(ourId, k, d, xs, i - 1, i);
    NotOurs(ourId, k, d, xs, i);
    PeerCount(xs, i - 1);
    NotTheFirst(ourId, k, d, xs, i);
  }

  lemma NotTheFirst(ourId: Id, k: nat, d: nat, xs: seq<Id>, i: nat)
    requires Crowding(ourId, k, d, xs) && 0 < i <= k
    ensures xs[i] !in IdsOf(multiset{NewWrapper(Peer(xs[0]), 0)})
  {
    NotThatOne(xs[i], NewWrapper(Peer(xs[0]), 0));
  }

  lemma NotThatOne(id: Id, x: NodeWrapper)
    requires x.node.id != id
    ensures id !in IdsOf(multiset{x})
  {
  }

  lemma AfterVerifying(
      ourId: Id, k: nat, d: nat, xs: seq<Id>, grace: nat, unverifiedGrace: nat,
      ss: seq<Storage>, clocks: seq<Instant>)
    requires LateRun(ourId, k, d, xs, grace, unverifiedGrace, ss, clocks)
    ensures |ss| == k + 5 && VerifiedUpTo(ss[k + 1], ourId, k, xs, k)
  {
    FirstIsSeen(ourId, k, d, xs, grace, unverifiedGrace, ss, clocks);
    var ps := seq(k + 1, i requires 0 <= i <= k => VerifiedUpTo(ss[i + 1], ourId, k, xs, i));
    forall i | 0 <= i < k ensures Stays(ps, i) {
      OneMoreVerified(ourId, k, d, xs, grace, unverifiedGrace, ss, clocks, i + 1);
    }
    HoldsAlong(ps, k);
  }

  lemma LastIsNewest(ourId: Id, k: nat, d: nat, xs: seq<Id>)
    requires Crowding(ourId, k, d, xs)
    ensures VerifiedPeer(xs, k) in VerifiedPeers(xs, k)
    ensures forall z :: z in VerifiedPeers(xs, k) ==> Prefix(ourId, z.node.id) == d
    ensures forall z :: z in VerifiedPeers(xs, k) && z != VerifiedPeer(xs, k) ==> z.firstSeen < k
  {
    assert PeerList(xs, k)[k - 1] in multiset(PeerList(xs, k));
    forall z | z in VerifiedPeers(xs, k)
      ensures Prefix(ourId, z.node.id) == d && (z != VerifiedPeer(xs, k) ==> z.firstSeen < k)
    {
      var j := PeerAt(xs, k, z);
    }
  }

  lemma LastIsDisplaced(
      ourId: Id, k: nat, d: nat, xs: seq<Id>, grace: nat, unverifiedGrace: nat,
      ss: seq<Storage>, clocks: seq<Instant>)
    requires LateRun(ourId, k, d, xs, grace, unverifiedGrace, ss, clocks)
    ensures ss[k + 2].unverified.Contents() == multiset{VerifiedPeer(xs, k)}
  {
    AfterVerifying(ourId, k, d, xs, grace, unverifiedGrace, ss, clocks);
    LateStep(ourId, k, d, xs, grace, unverifiedGrace, ss, clocks, k + 1);
    LastGoes(ourId, k, d, xs, ss[k + 1], ss[k + 2]);
  }

  lemma LastGoes(ourId: Id, k: nat, d: nat, xs: seq<Id>, s: Storage, s': Storage)
    requires Crowding(ourId, k, d, xs)
    requires VerifiedUpTo(s, ourId, k, xs, k) && Step(s, AddOrUpdate(Peer(xs[0]), true, k + 1, k + 1), s')
    ensures s'.unverified.Contents() == multiset{VerifiedPeer(xs, k)}
  {
    PeerCount(xs, k);
    LastIsNewest(ourId, k, d, xs);
    NotOurs(ourId, k, d, xs, 0);
    Displace(s, ourId, k, VerifiedPeers(xs, k), VerifiedPeer(xs, k), NewWrapper(Peer(xs[0]), 0), k + 1, s');
  }

  /** The node displaced, as it is seen when the prune begins. */
  function Displaced(xs: seq<Id>, grace: nat, unverifiedGrace: nat): NodeWrapper
    requires |xs| > 1
  {
    Seen(VerifiedPeer(xs, |xs| - 1), PruneTime(xs, grace, unverifiedGrace))
  }

  lemma SeenAfterwards(
      ourId: Id, k: nat, d: nat, xs: seq<Id>, grace: nat, unverifiedGrace: nat,
      ss: seq<Storage>, clocks: seq<Instant>)
    requires LateRun(ourId, k, d, xs, grace, unverifiedGrace, ss, clocks)
    ensures ss[k + 3].unverified.Contents() == multiset{Displaced(xs, grace, unverifiedGrace)}
  {
    var y := VerifiedPeer(xs, k);
    LastIsDisplaced(ourId, k, d, xs, grace, unverifiedGrace, ss, clocks);
    LateStep(ourId, k, d, xs, grace, unverifiedGrace, ss, clocks, k + 2);
    NotInBoth(ss[k + 2].verified.Contents(), ss[k + 2].unverified.Contents(), y);
    SeeAgain(ss[k + 2], y, PruneTime(xs, grace, unverifiedGrace), ss[k + 3]);
  }

  /**
    Whatever the capacity and the grace periods, a node verified before that is still seen
    outlives them: the unverified table keeps it although the documentation drops it.
   */
  lemma KeptTooLong(
      ourId: Id, k: nat, d: nat, xs: seq<Id>, grace: nat, unverifiedGrace: nat,
      ss: seq<Storage>, clocks: seq<Instant>)
    requires LateRun(ourId, k, d, xs, grace, unverifiedGrace, ss, clocks)
    ensures var x, end := Displaced(xs, grace, unverifiedGrace), PruneTime(xs, grace, unverifiedGrace);
            && x in ss[k + 3].unverified.Contents() && x in ss[k + 4].unverified.Contents()
            && !DocumentedKeep(x, end - grace, end - unverifiedGrace)
    ensures !AsDocumented(ss[k + 3], LatePrune(xs, grace, unverifiedGrace)[k + 3], ss[k + 4], true)
  {
    SeenAfterwards(ourId, k, d, xs, grace, unverifiedGrace, ss, clocks);
    LateStep(ourId, k, d, xs, grace, unverifiedGrace, ss, clocks, k + 3);
    KeptLate(ss[k + 3], Displaced(xs, grace, unverifiedGrace), grace, unverifiedGrace,
             PruneTime(xs, grace, unverifiedGrace), ss[k + 4]);
  }

  lemma KeptLate(s: Storage, x: NodeWrapper, grace: nat, unverifiedGrace: nat, end: Instant, s': Storage)
    requires end >= grace && end >= unverifiedGrace && Step(s, Prune(grace, unverifiedGrace, end, end), s')
    requires s.unverified.Contents() == multiset{x} && x.lastSeen == end
    requires x.lastVerified.Some? && x.lastVerified.value < end - grace
    ensures x in s'.unverified.Contents()
    ensures !AsDocumented(s, Prune(grace, unverifiedGrace, end, end), s', true)
  {
    assert s'.unverified.Contents()[x] == s.unverified.Contents()[x];
  }

  lemma CrowdKeepsTooLong(ourId: Id, ids: set<Id>, d: nat, k: nat, grace: nat, unverifiedGrace: nat)
    requires k > 0 && Crowd(ourId, ids, d, k)
    ensures !AlwaysAsDocumented(k, grace, unverifiedGrace, true)
  {
    var xs := IdListExists(ids, k + 1);
    assert Crowding(ourId, k, d, xs);
    var ss, clocks := LatePruneExists(ourId, k, xs, grace, unverifiedGrace);
    KeptTooLong(ourId, k, d, xs, grace, unverifiedGrace, ss, clocks);
    assert IsPrune(LatePrune(xs, grace, unverifiedGrace)[k + 3], grace, unverifiedGrace);
  }

  // ---------- all runs ----------

  /** The largest classes have 2^159 ids. */
  lemma NoCrowdAboveLargestClass(k: nat)
    ensures NoCrowd(k) <==> k >= Pow2(ID_BITS - 1)
  {
    if k >= Pow2(ID_BITS - 1) {
      forall ourId, ids, d ensures !Crowd(ourId, ids, d, k) {
        if Crowd(ourId, ids, d, k) {
          ClassAtMost(ourId, ids, d);
          Pow2Grows(ID_BITS - 1 - d, ID_BITS - 1);
        }
      }
    } else {
      var ids := LargestClass();
      assert Crowd(ZERO, ids, 0, k);
    }
  }

  /**
    Nodes verified before are pruned as documented in every run, for any grace periods, exactly
    if the storage holds no nodes at all or a class has room for half of all ids: then nothing is ever displaced.
   */
  lemma FormerlyVerifiedPrunedAsDocumented(k: nat, grace: nat, unverifiedGrace: nat)
    ensures AlwaysAsDocumented(k, grace, unverifiedGrace, true) <==> k == 0 || k >= Pow2(ID_BITS - 1)
  {
    NoCrowdAboveLargestClass(k);
    if k == 0 || NoCrowd(k) {
      PrunedAsDocumented(k, grace, unverifiedGrace);
    } else {
      var ourId, ids, d :| Crowd(ourId, ids, d, k);
      CrowdKeepsTooLong(ourId, ids, d, k, grace, unverifiedGrace);
    }
  }

  lemma PrunedAsDocumented(k: nat, grace: nat, unverifiedGrace: nat)
    requires k == 0 || NoCrowd(k)
    ensures AlwaysAsDocumented(k, grace, unverifiedGrace, true)
  {
    forall ss: seq<Storage>, ops: seq<Op>, clocks, ourId, i
      | FromEmpty(ss, ops, clocks, ourId, k) && 0 <= i < |ops| && IsPrune(ops[i], grace, unverifiedGrace)
      ensures AsDocumented(ss[i], ops[i], ss[i + 1], true)
    {
      if k == 0 {
        RunKeepsCapacity(ss, ops, clocks, ourId, k, i);
        NothingFits(ss[i].unverified);
      } else {
        RunKeepsNoneVerified(ss, ops, clocks, ourId, k, i);
      }
    }
  }

  /** So they are not with the default capacity of 8, nor with any other below 256 but 0. */
  lemma FormerlyVerifiedKeptTooLong(k: nat, grace: nat, unverifiedGrace: nat)
    requires 0 < k < 256
    ensures !AlwaysAsDocumented(k, grace, unverifiedGrace, true)
  {
    assert Pow2(1) == 2 && Pow2(2) == 4 && Pow2(4) == 16 && Pow2(6) == 64 && Pow2(8) == 256;
    Pow2Grows(8, ID_BITS - 1);
    FormerlyVerifiedPrunedAsDocumented(k, grace, unverifiedGrace);
  }
}
