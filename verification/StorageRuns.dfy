/**
  Runs of the node storage: every operation can be taken, every run keeps the capacity,
  and how many buckets a run may lead to.
 */
module StorageRuns {
  import opened Ids
  import opened Nodes
  import opened Tables
  import opened BucketRuns
  import opened Outcomes
  import opened Storages

  // ---------- every operation has an outcome ----------

  lemma OverwrittenExists(t: Table, id: Id, f: NodeWrapper -> NodeWrapper) returns (x: NodeWrapper, t': Table)
    requires t.Valid() && id in IdsOf(t.Contents()) && forall y :: f(y).node == y.node
    ensures x.node.id == id && Updated(t, x, f(x), t')
  {
    x :| x in t.Contents() && x.node.id == id;
    t' := OverwriteExists(t, x, f(x));
  }

  lemma AdmissionExists(s: Storage, w: NodeWrapper) returns (s': Storage)
    requires Sound(s)
    ensures Admitted(s, w, s')
  {
    var v, chumps := AddExists(s.verified, w);
    if chumps == [] {
      s' := Storage(v, s.unverified);
    } else {
      var u, lost := AddExists(s.unverified, chumps[0]);
      s' := Storage(v, u);
    }
    assert AddStep(s.verified, w, s'.verified, chumps);
  }

  lemma SeenExists(s: Storage, node: Node, now: Instant) returns (s': Storage)
    requires Sound(s)
    ensures SeenStep(s, node, now, s')
  {
    if node.id in IdsOf(s.verified.Contents()) {
      var x, t := OverwrittenExists(s.verified, node.id, y => Seen(y, now));
      s' := s.(verified := t);
    } else if node.id in IdsOf(s.unverified.Contents()) {
      var x, t := OverwrittenExists(s.unverified, node.id, y => Seen(y, now));
      s' := s.(unverified := t);
    } else {
      var t, lost := AddExists(s.unverified, NewWrapper(node, now));
      s' := s.(unverified := t);
    }
  }

  lemma PromotionExists(s: Storage, id: Id, now: Instant) returns (p: NodeWrapper, s': Storage)
    requires Sound(s) && id in IdsOf(s.unverified.Contents())
    ensures p.node.id == id && Promoted(s, p, now, s')
  {
    p :| p in s.unverified.Contents() && p.node.id == id;
    var rest := s.unverified.Contents() - multiset{p};
    var u := PartExists(s.unverified, rest);
    assert s.unverified.Contents() == rest + multiset{p};
    s' := AdmissionExists(s.(unverified := u), Verified(p, now));
    assert Removed(s.unverified, p, u);
  }

  lemma VerifiedExists(s: Storage, node: Node, now: Instant, later: Instant) returns (s': Storage)
    requires Sound(s)
    ensures VerifiedStep(s, node, now, later, s')
  {
    if node.id in IdsOf(s.unverified.Contents()) {
      var p;
      p, s' := PromotionExists(s, node.id, now);
    } else if node.id in IdsOf(s.verified.Contents()) {
      var x, t := OverwrittenExists(s.verified, node.id, y => Verified(y, now));
      s' := s.(verified := t);
    } else {
      s' := AdmissionExists(s, Verified(NewWrapper(node, later), now));
    }
  }

  lemma {:induction false} FilterExists(m: Items, keep: NodeWrapper -> bool) returns (r: Items)
    ensures r <= m && forall x {:trigger r[x]} :: r[x] == if keep(x) then m[x] else 0
    decreases m
  {
    if m == multiset{} {
      r := multiset{};
    } else {
      var x :| x in m;
      r := FilterExists(m[x := 0], keep);
      if keep(x) {
        r := r[x := m[x]];
      }
    }
  }

  lemma PrunedExists(s: Storage, grace: nat, unverifiedGrace: nat, now: Instant, later: Instant) returns (s': Storage)
    requires Sound(s)
    ensures PruneStep(s, grace, unverifiedGrace, now, later, s')
  {
    if now < grace || later < unverifiedGrace {
      s' := s;
    } else {
      var v := FilterExists(s.verified.Contents(), x => KeepVerified(x, now - grace));
      var u := FilterExists(s.unverified.Contents(), x => KeepUnverified(x, now - grace, later - unverifiedGrace));
      var tv := PartExists(s.verified, v);
      var tu := PartExists(s.unverified, u);
      s' := Storage(tv, tu);
    }
  }

  /** Every operation on a well-formed storage has an outcome. */
  lemma StepExists(s: Storage, op: Op) returns (s': Storage)
    requires Sound(s)
    ensures Step(s, op, s')
  {
    match op
    case AddOrUpdate(node, verified, now, later) =>
      if verified {
        s' := VerifiedExists(s, node, now, later);
      } else {
        s' := SeenExists(s, node, now);
      }
    case Prune(grace, unverifiedGrace, now, later) =>
      s' := PrunedExists(s, grace, unverifiedGrace, now, later);
    case Clear =>
      s' := Storage(EmptyTable(s.verified.ourId, s.verified.k), EmptyTable(s.unverified.ourId, s.unverified.k));
    case SetId(newId) =>
      s' := Storage(EmptyTable(newId, s.verified.k), EmptyTable(newId, s.unverified.k));
  }

  // ---------- runs from an empty storage ----------

  function EmptyStorage(ourId: Id, k: nat): Storage {
    Storage(EmptyTable(ourId, k), EmptyTable(ourId, k))
  }

  ghost predicate FromEmpty(ss: seq<Storage>, ops: seq<Op>, clocks: seq<Instant>, ourId: Id, k: nat) {
    Run(ss, ops, clocks) && ss[0] == EmptyStorage(ourId, k)
  }

  lemma StepKeepsCapacity(s: Storage, op: Op, s': Storage)
    requires Sound(s) && Step(s, op, s')
    ensures s'.verified.k == s.verified.k
  {
    if op.AddOrUpdate? && op.verified {
      VerifiedKeepsCapacity(s, op.node, op.now, op.later, s');
    }
  }

  lemma VerifiedKeepsCapacity(s: Storage, node: Node, now: Instant, later: Instant, s': Storage)
    requires Sound(s) && VerifiedStep(s, node, now, later, s')
    ensures s'.verified.k == s.verified.k
  {
    if node.id in IdsOf(s.unverified.Contents()) {
      var p: NodeWrapper :| p.node.id == node.id && Promoted(s, p, now, s');
      PromotionLosesNobody(s, p, now, s');
    } else if node.id !in IdsOf(s.verified.Contents()) {
      var lost := AdmitBalance(s, Verified(NewWrapper(node, later), now), s');
    }
  }

  lemma SameCapacity(ss: seq<Storage>, ops: seq<Op>, clocks: seq<Instant>, ourId: Id, k: nat, n: nat)
    requires FromEmpty(ss, ops, clocks, ourId, k) && n <= |ops|
    ensures ss[n].verified.k == k
  {
    var ps := seq(|ss|, i requires 0 <= i < |ss| => ss[i].verified.k == k);
    forall i | 0 <= i < n ensures Stays(ps, i) {
      NextKeepsCapacity(ss, ops, clocks, ourId, k, i);
    }
    HoldsAlong(ps, n);
  }

  lemma NextKeepsCapacity(ss: seq<Storage>, ops: seq<Op>, clocks: seq<Instant>, ourId: Id, k: nat, i: nat)
    requires FromEmpty(ss, ops, clocks, ourId, k) && i < |ops|
    ensures ss[i + 1].verified.k == ss[i].verified.k
  {
    RunKeepsInvariant(ss, ops, clocks, ourId, k, i);
    RunStep(ss, ops, clocks, i);
    StepKeepsCapacity(ss[i], ops[i], ss[i + 1]);
  }

  lemma RunKeepsCapacity(ss: seq<Storage>, ops: seq<Op>, clocks: seq<Instant>, ourId: Id, k: nat, i: nat)
    requires FromEmpty(ss, ops, clocks, ourId, k) && i <= |ops|
    ensures Invariant(ss[i], clocks[i]) && ss[i].verified.k == ss[i].unverified.k == k
  {
    RunKeepsInvariant(ss, ops, clocks, ourId, k, i);
    SameCapacity(ss, ops, clocks, ourId, k, i);
  }

  /** A run can be carried on with any operation. */
  lemma OneMoreStep(ss: seq<Storage>, ops: seq<Op>, clocks: seq<Instant>, ourId: Id, k: nat, op: Op)
    returns (ss': seq<Storage>, ops': seq<Op>, clocks': seq<Instant>)
    requires FromEmpty(ss, ops, clocks, ourId, k) && InOrder(op, clocks[|ops|])
    ensures FromEmpty(ss', ops', clocks', ourId, k)
    ensures ops' == ops + [op] && ss'[..|ss|] == ss && clocks'[..|ss|] == clocks
    ensures |ss'| == |ss| + 1 && |clocks'| == |ss| + 1 && clocks'[|ss|] == ClockAfter(op, clocks[|ops|])
    ensures Step(ss[|ops|], op, ss'[|ss|])
  {
    var n := |ops|;
    RunKeepsCapacity(ss, ops, clocks, ourId, k, n);
    var s := StepExists(ss[n], op);
    ss', ops', clocks' := ss + [s], ops + [op], clocks + [ClockAfter(op, clocks[n])];
    RunExtends(ss, ops, clocks, op, s);
  }

  lemma RunExtends(ss: seq<Storage>, ops: seq<Op>, clocks: seq<Instant>, op: Op, s: Storage)
    requires Run(ss, ops, clocks) && Step(ss[|ops|], op, s) && InOrder(op, clocks[|ops|])
    ensures Run(ss + [s], ops + [op], clocks + [ClockAfter(op, clocks[|ops|])])
  {
    forall i | 0 <= i < |ops| + 1
      ensures StepAt(ss + [s], ops + [op], clocks + [ClockAfter(op, clocks[|ops|])], i)
    {
      ExtendedStep(ss, ops, clocks, op, s, i);
    }
  }

  lemma ExtendedStep(ss: seq<Storage>, ops: seq<Op>, clocks: seq<Instant>, op: Op, s: Storage, i: nat)
    requires Run(ss, ops, clocks) && Step(ss[|ops|], op, s) && InOrder(op, clocks[|ops|]) && i <= |ops|
    ensures StepAt(ss + [s], ops + [op], clocks + [ClockAfter(op, clocks[|ops|])], i)
  {
    if i < |ops| {
      RunStep(ss, ops, clocks, i);
      assert (ss + [s])[i] == ss[i] && (ss + [s])[i + 1] == ss[i + 1] && (ops + [op])[i] == ops[i];
    } else {
      assert (ss + [s])[i] == ss[i] && (ss + [s])[i + 1] == s && (ops + [op])[i] == op;
    }
  }

  /** What the clock has reached when operation i of ops begins, from 0 on. */
  function ClockBefore(ops: seq<Op>, i: nat): Instant
    requires i <= |ops|
  {
    if i == 0 then 0 else ClockAfter(ops[i - 1], ClockBefore(ops, i - 1))
  }

  /** The operations read a clock that does not go back. */
  predicate Timely(ops: seq<Op>) {
    forall i :: 0 <= i < |ops| ==> InOrder(ops[i], ClockBefore(ops, i))
  }

  lemma {:induction false} SameClock(ops: seq<Op>, n: nat, i: nat)
    requires i <= n <= |ops|
    ensures ClockBefore(ops[..n], i) == ClockBefore(ops, i)
  {
    if i > 0 {
      SameClock(ops, n, i - 1);
    }
  }

  lemma TimelyFront(ops: seq<Op>, n: nat)
    requires Timely(ops) && n <= |ops|
    ensures Timely(ops[..n])
  {
    forall i | 0 <= i < n ensures InOrder(ops[..n][i], ClockBefore(ops[..n], i)) {
      SameClock(ops, n, i);
      assert InOrder(ops[i], ClockBefore(ops, i));
    }
  }

  /** Any operations on a clock that does not go back make a run. */
  lemma {:induction false} RunExists(ourId: Id, k: nat, ops: seq<Op>) returns (ss: seq<Storage>, clocks: seq<Instant>)
    requires Timely(ops)
    ensures FromEmpty(ss, ops, clocks, ourId, k) && clocks[|ops|] == ClockBefore(ops, |ops|)
    decreases |ops|
  {
    if ops == [] {
      ss, clocks := [EmptyStorage(ourId, k)], [0];
    } else {
      var n := |ops| - 1;
      var front := ops[..n];
      TimelyFront(ops, n);
      SameClock(ops, n, n);
      assert InOrder(ops[n], ClockBefore(ops, n));
      var ss', clocks' := RunExists(ourId, k, front);
      ss, clocks := LastStep(ss', ops, clocks', ourId, k);
    }
  }

  lemma LastStep(ss: seq<Storage>, ops: seq<Op>, clocks: seq<Instant>, ourId: Id, k: nat)
    returns (ss': seq<Storage>, clocks': seq<Instant>)
    requires ops != [] && FromEmpty(ss, ops[..|ops| - 1], clocks, ourId, k)
    requires clocks[|ops| - 1] == ClockBefore(ops, |ops| - 1) && InOrder(ops[|ops| - 1], clocks[|ops| - 1])
    ensures FromEmpty(ss', ops, clocks', ourId, k) && clocks'[|ops|] == ClockBefore(ops, |ops|)
  {
    var n := |ops| - 1;
    var ops';
    ss', ops', clocks' := OneMoreStep(ss, ops[..n], clocks, ourId, k, ops[n]);
    assert ops' == ops;
  }

  // ---------- the number of buckets ----------

  /** No table of a storage has more than n buckets. */
  ghost predicate BucketsAtMost(s: Storage, n: nat) {
    |s.verified.buckets| <= n && |s.unverified.buckets| <= n
  }

  /** No run from an empty storage of capacity k makes more than n buckets. */
  ghost predicate NeverMoreBuckets(k: nat, n: nat) {
    forall ss: seq<Storage>, ops, clocks, ourId, i ::
      FromEmpty(ss, ops, clocks, ourId, k) && 0 <= i < |ss| ==> BucketsAtMost(ss[i], n)
  }

  /**
    The documented maximum of 160 buckets is kept at every moment of every run of the
    storage exactly if its capacity is at least 1; a capacity of 8 keeps it to 158.
   */
  lemma DocumentedMaximumUnlessCapacityZero(k: nat)
    ensures NeverMoreBuckets(k, 160) <==> k >= 1
    ensures k >= 8 ==> NeverMoreBuckets(k, 158)
  {
    if k >= 1 {
      forall ss: seq<Storage>, ops, clocks, ourId, i | FromEmpty(ss, ops, clocks, ourId, k) && 0 <= i < |ss|
        ensures BucketsAtMost(ss[i], 160) && (k >= 8 ==> BucketsAtMost(ss[i], 158))
      {
        RunKeepsCapacity(ss, ops, clocks, ourId, k, i);
        DocumentedMaximum(ss[i].verified);
        DocumentedMaximum(ss[i].unverified);
      }
    } else {
      var ss, ops, clocks := CapacityZeroOutgrows();
      assert FromEmpty(ss, ops, clocks, ZERO, k) && !BucketsAtMost(ss[1], 160);
    }
  }

  function NodeOfLastBit(): Node {
    Node(ZERO[ID_SIZE - 1 := 1], V4([127, 0, 0, 1], 6881))
  }

  /** One insertion into a storage of capacity 0 makes 161 buckets. */
  lemma CapacityZeroOutgrows() returns (ss: seq<Storage>, ops: seq<Op>, clocks: seq<Instant>)
    ensures FromEmpty(ss, ops, clocks, ZERO, 0) && |ops| == 1 && |ss[1].unverified.buckets| == 161
  {
    ops := [AddOrUpdate(NodeOfLastBit(), false, 0, 0)];
    ss, clocks := RunExists(ZERO, 0, ops);
    RunStep(ss, ops, clocks, 0);
    SeenAtZeroCapacity(ss[0], ops[0], ss[1]);
  }

  lemma SeenAtZeroCapacity(s: Storage, op: Op, s': Storage)
    requires s == EmptyStorage(ZERO, 0) && op == AddOrUpdate(NodeOfLastBit(), false, 0, 0) && Step(s, op, s')
    ensures |s'.unverified.buckets| == 161
  {
    var x := NewWrapper(NodeOfLastBit(), 0);
    LastBitDiffers();
    EmptyRefines(ZERO, 0);
    NothingIn(ZERO, 0);
    var lost :| AddStep(EmptyTable(ZERO, 0), x, s'.unverified, lost);
    ZeroCapacityOutgrowsIt(ZERO, x, s'.unverified, lost);
  }

  lemma NothingIn(ourId: Id, k: nat)
    ensures EmptyTable(ourId, k).Contents() == multiset{}
  {
    assert Flatten([[]]) == [] + Flatten([]);
  }
}
