/**
  Pruning the node storage (src/storage/node_bucket_storage.rs, prune) against its
  documentation: where the two agree, on one call and over all runs, and runs on which they do not.
 */
module Pruning {
  import opened Wrappers
  import opened Ids
  import opened Nodes
  import opened Tables
  import opened BucketRuns
  import opened Storages
  import opened StorageRuns

  /**
    The documented rule for an unverified node: one verified before is kept if that was
    no earlier than time, any other if it was seen no earlier than unverifiedTime.
   */
  predicate DocumentedKeep(x: NodeWrapper, time: int, unverifiedTime: int) {
    match x.lastVerified
    case Some(verified) => verified >= time
    case None => x.lastSeen >= unverifiedTime
  }

  /** The documented rule for a verified node. */
  predicate DocumentedKeepVerified(x: NodeWrapper, time: int) {
    x.lastVerified.Some? && x.lastVerified.value >= time
  }

  /** What pruning makes of s by the documentation; times before the clock's start are before all others. */
  ghost predicate DocumentedPrune(s: Storage, time: int, unverifiedTime: int, s': Storage) {
    && SameShape(s.verified, s'.verified) && SameShape(s.unverified, s'.unverified)
    && (forall x {:trigger s'.verified.Contents()[x]} ::
          s'.verified.Contents()[x] == if DocumentedKeepVerified(x, time) then s.verified.Contents()[x] else 0)
    && (forall x {:trigger s'.unverified.Contents()[x]} ::
          s'.unverified.Contents()[x] ==
            if DocumentedKeep(x, time, unverifiedTime) then s.unverified.Contents()[x] else 0)
  }

  /**
    Not among the nodes in dispute: those verified too long ago but seen since both
    instants, and those never verified and seen since the second instant but not the first.
   */
  predicate Undisputed(x: NodeWrapper, time: Instant, unverifiedTime: Instant) {
    match x.lastVerified
    case Some(verified) => verified >= time || x.lastSeen < time || x.lastSeen < unverifiedTime
    case None => x.lastSeen >= time || x.lastSeen < unverifiedTime
  }

  /** One call prunes as documented exactly if no stored unverified node is in dispute. */
  lemma PrunesAsDocumentedUnlessDisputed(
      s: Storage, grace: nat, unverifiedGrace: nat, now: Instant, later: Instant, s': Storage)
    requires PruneStep(s, grace, unverifiedGrace, now, later, s') && now >= grace && later >= unverifiedGrace
    ensures DocumentedPrune(s, now - grace, later - unverifiedGrace, s') <==>
            forall x :: x in s.unverified.Contents() ==> Undisputed(x, now - grace, later - unverifiedGrace)
  {
    var time, unverifiedTime := now - grace, later - unverifiedGrace;
    var m, m' := s.unverified.Contents(), s'.unverified.Contents();
    RulesAgree(m, m', time, unverifiedTime);
  }

  /** On nodes m of which the code keeps m', the two rules agree exactly if none is in dispute. */
  lemma RulesAgree(m: Items, m': Items, time: Instant, unverifiedTime: Instant)
    requires forall x {:trigger m'[x]} :: m'[x] == if KeepUnverified(x, time, unverifiedTime) then m[x] else 0
    ensures (forall x {:trigger m'[x]} :: m'[x] == if DocumentedKeep(x, time, unverifiedTime) then m[x] else 0) <==>
            forall x :: x in m ==> Undisputed(x, time, unverifiedTime)
  {
    if forall x {:trigger m'[x]} :: m'[x] == if DocumentedKeep(x, time, unverifiedTime) then m[x] else 0 {
      forall x | x in m ensures Undisputed(x, time, unverifiedTime) {
        assert m'[x] == if KeepUnverified(x, time, unverifiedTime) then m[x] else 0;
      }
    }
    if forall x :: x in m ==> Undisputed(x, time, unverifiedTime) {
      forall x ensures m'[x] == if DocumentedKeep(x, time, unverifiedTime) then m[x] else 0 {
        assert m[x] > 0 ==> Undisputed(x, time, unverifiedTime);
      }
    }
  }

  /**
    A prune for which a grace period reaches back before the clock's start changes nothing, which
    is as documented exactly if each stored node is one that the documentation keeps.
   */
  lemma SkippedPruneIsDocumentedUnlessStale(
      s: Storage, grace: nat, unverifiedGrace: nat, now: Instant, later: Instant, s': Storage)
    requires Sound(s) && Step(s, Prune(grace, unverifiedGrace, now, later), s')
    requires now < grace || later < unverifiedGrace
    ensures s' == s
    ensures DocumentedPrune(s, now - grace, later - unverifiedGrace, s') <==>
            && (forall x :: x in s.verified.Contents() ==> DocumentedKeepVerified(x, now - grace))
            && forall x :: x in s.unverified.Contents() ==> DocumentedKeep(x, now - grace, later - unverifiedGrace)
  {
    var time, unverifiedTime := now - grace, later - unverifiedGrace;
    var v, u := s.verified.Contents(), s.unverified.Contents();
    if DocumentedPrune(s, time, unverifiedTime, s') {
      forall x | x in v ensures DocumentedKeepVerified(x, time) {
        assert s'.verified.Contents()[x] > 0;
      }
      forall x | x in u ensures DocumentedKeep(x, time, unverifiedTime) {
        assert s'.unverified.Contents()[x] > 0;
      }
    }
  }

  // ---------- all runs ----------

  /**
    Of the nodes of the unverified table that were verified before, or of those that
    were not, a prune keeps just those that the documentation says.
   */
  ghost predicate AsDocumented(s: Storage, op: Op, s': Storage, formerly: bool) {
    op.Prune? && op.now >= op.grace && op.later >= op.unverifiedGrace ==>
      forall x :: x in s.unverified.Contents() && x.lastVerified.Some? == formerly ==>
        (x in s'.unverified.Contents() <==> DocumentedKeep(x, op.now - op.grace, op.later - op.unverifiedGrace))
  }

  predicate IsPrune(op: Op, grace: nat, unverifiedGrace: nat) {
    op.Prune? && op.grace == grace && op.unverifiedGrace == unverifiedGrace
  }

  /** So does every prune with these grace periods in every run from an empty storage. */
  ghost predicate AlwaysAsDocumented(k: nat, grace: nat, unverifiedGrace: nat, formerly: bool) {
    forall ss: seq<Storage>, ops: seq<Op>, clocks, ourId, i ::
      FromEmpty(ss, ops, clocks, ourId, k) && 0 <= i < |ops| && IsPrune(ops[i], grace, unverifiedGrace) ==>
      AsDocumented(ss[i], ops[i], ss[i + 1], formerly)
  }

  /**
    Nodes never verified are pruned as documented in every run exactly if the grace
    period is at least the unverified one, or the storage holds no nodes at all.
   */
  lemma NeverVerifiedPrunedAsDocumented(k: nat, grace: nat, unverifiedGrace: nat)
    ensures AlwaysAsDocumented(k, grace, unverifiedGrace, false) <==> grace >= unverifiedGrace || k == 0
  {
    if grace >= unverifiedGrace || k == 0 {
      forall ss: seq<Storage>, ops: seq<Op>, clocks, ourId, i
        | FromEmpty(ss, ops, clocks, ourId, k) && 0 <= i < |ops| && IsPrune(ops[i], grace, unverifiedGrace)
        ensures AsDocumented(ss[i], ops[i], ss[i + 1], false)
      {
        RunKeepsCapacity(ss, ops, clocks, ourId, k, i);
        RunStep(ss, ops, clocks, i);
        LongGraceFollows(ss[i], ops[i], ss[i + 1], clocks[i]);
      }
    } else {
      var ss, clocks := EarlyPruneExists(k, grace, unverifiedGrace);
      PrunedTooEarly(k, grace, unverifiedGrace, ss, clocks);
      assert IsPrune(EarlyPrune(grace, unverifiedGrace)[1], grace, unverifiedGrace);
    }
  }

  lemma LongGraceFollows(s: Storage, op: Op, s': Storage, clock: Instant)
    requires Sound(s) && op.Prune? && Step(s, op, s') && InOrder(op, clock)
    requires op.grace >= op.unverifiedGrace || s.unverified.k == 0
    ensures AsDocumented(s, op, s', false)
  {
    if s.unverified.k == 0 {
      NothingFits(s.unverified);
    }
    if op.now >= op.grace && op.later >= op.unverifiedGrace {
      forall x | x in s.unverified.Contents() && x.lastVerified.None?
        ensures x in s'.unverified.Contents() <==> DocumentedKeep(x, op.now - op.grace, op.later - op.unverifiedGrace)
      {
        assert s'.unverified.Contents()[x] ==
               if KeepUnverified(x, op.now - op.grace, op.later - op.unverifiedGrace)
               then s.unverified.Contents()[x] else 0;
      }
    }
  }

  lemma NothingFits(t: Table)
    requires t.Valid() && t.k == 0
    ensures t.Contents() == multiset{}
  {
    forall x | x in t.Contents() ensures false {
      StoredIn(t.buckets, x);
    }
  }

  // ---------- single insertions ----------

  lemma AddToEmpty(t: Table, x: NodeWrapper, t': Table, chumps: seq<NodeWrapper>)
    requires t.Valid() && t.k > 0 && t.Contents() == multiset{} && x.node.id != t.ourId && AddStep(t, x, t', chumps)
    ensures chumps == [] && t'.Contents() == multiset{x}
  {
    var c := Prefix(t.ourId, x.node.id);
    assert t.Class(c) == multiset{};
    AddStepClass(t, x, t', chumps, c);
    assert t'.Contents() + multiset(chumps) == t'.Contents();
  }

  // ---------- a node pruned too early ----------

  /** A sound storage of capacity k around our id that holds just the given nodes. */
  ghost predicate Holds(s: Storage, ourId: Id, k: nat, verified: Items, unverified: Items) {
    && Sound(s) && s.verified.ourId == ourId && s.verified.k == k
    && s.verified.Contents() == verified && s.unverified.Contents() == unverified
  }

  lemma EmptyHolds(ourId: Id, k: nat)
    ensures Holds(EmptyStorage(ourId, k), ourId, k, multiset{}, multiset{})
  {
    EmptyRefines(ourId, k);
    NothingIn(ourId, k);
  }

  function ExampleNode(b: bv8): Node {
    Node(FirstByteId(b), V4([127, 0, 0, 1], 6881))
  }

  lemma ExampleNotZero(b: bv8)
    requires b >= 0x80
    ensures FirstByteId(b) != ZERO && Prefix(ZERO, FirstByteId(b)) == 0
  {
    HighBitDiffers(FirstByteId(b));
    PrefixLaws(ZERO, ZERO, ZERO);
  }

  /** A new node is seen. */
  lemma SeeNew(s: Storage, ourId: Id, k: nat, node: Node, now: Instant, s': Storage)
    requires Holds(s, ourId, k, multiset{}, multiset{}) && k > 0 && node.id != ourId && SeenStep(s, node, now, s')
    ensures Holds(s', ourId, k, multiset{}, multiset{NewWrapper(node, now)})
  {
    var lost :| AddStep(s.unverified, NewWrapper(node, now), s'.unverified, lost);
    AddToEmpty(s.unverified, NewWrapper(node, now), s'.unverified, lost);
  }

  /** When the grace period is shorter than the unverified one: a node is seen, and a prune follows. */
  function EarlyPrune(grace: nat, unverifiedGrace: nat): seq<Op> {
    [AddOrUpdate(ExampleNode(0x80), false, 0, 0), Prune(grace, unverifiedGrace, unverifiedGrace, unverifiedGrace)]
  }

  /** The node is dropped although it was seen within the unverified grace period. */
  lemma PrunedTooEarly(k: nat, grace: nat, unverifiedGrace: nat, ss: seq<Storage>, clocks: seq<Instant>)
    requires k > 0 && grace < unverifiedGrace && FromEmpty(ss, EarlyPrune(grace, unverifiedGrace), clocks, ZERO, k)
    ensures var x := NewWrapper(ExampleNode(0x80), 0);
            && x in ss[1].unverified.Contents() && x !in ss[2].unverified.Contents()
            && DocumentedKeep(x, unverifiedGrace - grace, 0)
    ensures !AsDocumented(ss[1], EarlyPrune(grace, unverifiedGrace)[1], ss[2], false)
  {
    SeenFirst(k, EarlyPrune(grace, unverifiedGrace), ss, clocks);
    ThenDropped(ss, clocks, NewWrapper(ExampleNode(0x80), 0), grace, unverifiedGrace);
  }

  lemma ThenDropped(ss: seq<Storage>, clocks: seq<Instant>, x: NodeWrapper, grace: nat, unverifiedGrace: nat)
    requires Run(ss, EarlyPrune(grace, unverifiedGrace), clocks) && grace < unverifiedGrace
    requires ss[1].unverified.Contents() == multiset{x} && x.lastVerified == None && x.lastSeen == 0
    ensures x !in ss[2].unverified.Contents() && DocumentedKeep(x, unverifiedGrace - grace, 0)
    ensures !AsDocumented(ss[1], EarlyPrune(grace, unverifiedGrace)[1], ss[2], false)
  {
    RunStep(ss, EarlyPrune(grace, unverifiedGrace), clocks, 1);
    DroppedEarly(ss[1], x, grace, unverifiedGrace, ss[2]);
  }

  lemma SeenFirst(k: nat, ops: seq<Op>, ss: seq<Storage>, clocks: seq<Instant>)
    requires k > 0 && FromEmpty(ss, ops, clocks, ZERO, k)
    requires ops != [] && ops[0] == AddOrUpdate(ExampleNode(0x80), false, 0, 0)
    ensures Holds(ss[1], ZERO, k, multiset{}, multiset{NewWrapper(ExampleNode(0x80), 0)})
  {
    RunStep(ss, ops, clocks, 0);
    EmptyHolds(ZERO, k);
    ExampleNotZero(0x80);
    SeeNew(ss[0], ZERO, k, ExampleNode(0x80), 0, ss[1]);
  }

  lemma DroppedEarly(s: Storage, x: NodeWrapper, grace: nat, unverifiedGrace: nat, s': Storage)
    requires Step(s, Prune(grace, unverifiedGrace, unverifiedGrace, unverifiedGrace), s') && grace < unverifiedGrace
    requires s.unverified.Contents() == multiset{x} && x.lastVerified == None && x.lastSeen == 0
    ensures x !in s'.unverified.Contents() && DocumentedKeep(x, unverifiedGrace - grace, 0)
    ensures !AsDocumented(s, Prune(grace, unverifiedGrace, unverifiedGrace, unverifiedGrace), s', false)
  {
    assert s'.unverified.Contents()[x] == 0;
    assert x in s.unverified.Contents();
  }

  lemma EarlyPruneExists(k: nat, grace: nat, unverifiedGrace: nat) returns (ss: seq<Storage>, clocks: seq<Instant>)
    ensures FromEmpty(ss, EarlyPrune(grace, unverifiedGrace), clocks, ZERO, k)
  {
    ss, clocks := RunExists(ZERO, k, EarlyPrune(grace, unverifiedGrace));
  }
}
