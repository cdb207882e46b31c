/**
  What the node storage remembers of a node: exactly the history of the operations on it
  since it came in.
 */
module Histories {
  import opened Wrappers
  import opened Ids
  import opened Nodes
  import opened Tables
  import opened Storages
  import opened StorageRuns

  // ---------- one operation ----------

  /** What a call makes of the node it names, when the nodes m were stored: y. */
  ghost predicate Touched(m: Items, op: Op, y: NodeWrapper)
    requires op.AddOrUpdate?
  {
    && y.node.id == op.node.id && y.lastSeen == op.now
    && if op.node.id in IdsOf(m) then exists x :: x in m && Reread(x, op, y)
       else
         && y.node == op.node
         && y.firstSeen == (if op.verified then op.later else op.now)
         && y.lastVerified == (if op.verified then Some(op.now) else None)
  }

  /** y is the stored node x, first seen when x was, and verified when x was or by this call. */
  predicate Reread(x: NodeWrapper, op: Op, y: NodeWrapper)
    requires op.AddOrUpdate?
  {
    && y.node == x.node && y.firstSeen == x.firstSeen
    && y.lastVerified == if op.verified then Some(op.now) else x.lastVerified
  }

  lemma ExchangedOnly(m: Items, gone: Items, w: NodeWrapper, m': Items, y: NodeWrapper)
    requires Distinct(m) && Exchange(m, gone, w, m') && y in m'
    ensures y == w || (y in m && y.node.id != w.node.id)
  {
    NothingElseNew(m, gone, w, m');
    if w.node.id in IdsOf(m) {
      var p :| p in m && p.node.id == w.node.id && gone == multiset{p};
      assert (m' + gone)[p] == (m + multiset{w})[p];
    }
  }

  lemma UpdatedExchange(s: Storage, t: Table, x: NodeWrapper, y: NodeWrapper, t': Table, s': Storage)
    requires Updated(t, x, y, t') && x.node == y.node
    requires (t == s.verified && s' == s.(verified := t')) || (t == s.unverified && s' == s.(unverified := t'))
    ensures Exchange(s.All(), multiset{x}, y, s'.All()) && x in s.All()
  {
    if s' == s.(verified := t') {
      UpdateExchange(t.Contents(), t'.Contents(), s.unverified.Contents(), x, y);
    } else {
      UpdateExchange(t.Contents(), t'.Contents(), s.verified.Contents(), x, y);
    }
  }

  /** What goes when an unknown node comes: nodes of its prefix length, when there is no room for more of them. */
  ghost predicate CrowdedOut(s: Storage, op: Op, gone: Items)
    requires op.AddOrUpdate?
  {
    var c := Prefix(s.verified.ourId, op.node.id);
    && (forall x :: x in gone ==> Prefix(s.verified.ourId, x.node.id) == c)
    && (gone != multiset{} ==> |s.unverified.Class(c)| == s.verified.k)
    && (gone != multiset{} && op.verified ==> |s.verified.Class(c)| == s.verified.k)
  }

  lemma SeenExchange(s: Storage, op: Op, s': Storage) returns (gone: Items, w: NodeWrapper)
    requires Sound(s) && op.AddOrUpdate? && !op.verified && SeenStep(s, op.node, op.now, s')
    requires op.node.id != s.verified.ourId
    ensures Exchange(s.All(), gone, w, s'.All()) && Touched(s.All(), op, w)
    ensures op.node.id !in IdsOf(s.All()) ==> CrowdedOut(s, op, gone)
  {
    if op.node.id in IdsOf(s.verified.Contents()) {
      var x: NodeWrapper :| x.node.id == op.node.id && Updated(s.verified, x, Seen(x, op.now), s'.verified);
      UpdatedExchange(s, s.verified, x, Seen(x, op.now), s'.verified, s');
      gone, w := multiset{x}, Seen(x, op.now);
      assert Reread(x, op, w);
    } else if op.node.id in IdsOf(s.unverified.Contents()) {
      var x: NodeWrapper :| x.node.id == op.node.id && Updated(s.unverified, x, Seen(x, op.now), s'.unverified);
      UpdatedExchange(s, s.unverified, x, Seen(x, op.now), s'.unverified, s');
      gone, w := multiset{x}, Seen(x, op.now);
      assert Reread(x, op, w);
    } else {
      NotStored(s, op.node.id);
      w := NewWrapper(op.node, op.now);
      var lost :| AddStep(s.unverified, w, s'.unverified, lost);
      gone := multiset(lost);
      EjectedAlike(s.unverified, w, s'.unverified, lost);
      MoveOver(s.unverified.Contents(), s'.unverified.Contents(), gone, multiset{w}, s.verified.Contents());
    }
  }

  lemma PromotionExchange(s: Storage, op: Op, p: NodeWrapper, s': Storage)
    requires Sound(s) && op.AddOrUpdate? && op.verified && p.node.id == op.node.id && Promoted(s, p, op.now, s')
    ensures Exchange(s.All(), multiset{p}, Verified(p, op.now), s'.All())
    ensures Touched(s.All(), op, Verified(p, op.now))
  {
    PromotionLosesNobody(s, p, op.now, s');
    assert p in s.All() && Reread(p, op, Verified(p, op.now));
  }

  lemma VerifiedExchange(s: Storage, op: Op, s': Storage) returns (gone: Items, w: NodeWrapper)
    requires Sound(s) && op.AddOrUpdate? && op.verified && VerifiedStep(s, op.node, op.now, op.later, s')
    requires op.node.id != s.verified.ourId
    ensures Exchange(s.All(), gone, w, s'.All()) && Touched(s.All(), op, w)
    ensures op.node.id !in IdsOf(s.All()) ==> CrowdedOut(s, op, gone)
  {
    if op.node.id in IdsOf(s.unverified.Contents()) {
      var p: NodeWrapper :| p.node.id == op.node.id && Promoted(s, p, op.now, s');
      PromotionExchange(s, op, p, s');
      gone, w := multiset{p}, Verified(p, op.now);
    } else if op.node.id in IdsOf(s.verified.Contents()) {
      var x: NodeWrapper :| x.node.id == op.node.id && Updated(s.verified, x, Verified(x, op.now), s'.verified);
      UpdatedExchange(s, s.verified, x, Verified(x, op.now), s'.verified, s');
      gone, w := multiset{x}, Verified(x, op.now);
      assert Reread(x, op, w);
    } else {
      NotStored(s, op.node.id);
      w := Verified(NewWrapper(op.node, op.later), op.now);
      gone := AdmitBalance(s, w, s');
    }
  }

  lemma CallExchange(s: Storage, op: Op, s': Storage) returns (gone: Items, w: NodeWrapper)
    requires Sound(s) && op.AddOrUpdate? && Step(s, op, s') && op.node.id != s.verified.ourId
    ensures Exchange(s.All(), gone, w, s'.All()) && Touched(s.All(), op, w)
    ensures op.node.id !in IdsOf(s.All()) ==> CrowdedOut(s, op, gone)
  {
    if op.verified {
      gone, w := VerifiedExchange(s, op, s');
    } else {
      gone, w := SeenExchange(s, op, s');
    }
  }

  lemma StaysOrGoes(m: Items, gone: Items, w: NodeWrapper, m': Items, id: Id)
    requires Exchange(m, gone, w, m') && (id in IdsOf(m) || id == w.node.id) && id !in IdsOf(m')
    ensures w.node.id !in IdsOf(m) && id in IdsOf(gone)
  {
    var x :| x in m + multiset{w} && x.node.id == id by {
      if id == w.node.id {
        assert w in m + multiset{w};
      }
    }
    assert (m' + gone)[x] == (m + multiset{w})[x];
    assert (m' + gone)[w] == (m + multiset{w})[w];
  }

  /**
    A call leaves all stored ids and the one it names stored, ours aside, but for one of the
    prefix length of an unknown node when there is no room for more of that length.
   */
  lemma OnlyTheCrowdedGo(s: Storage, op: Op, s': Storage, id: Id)
    requires Sound(s) && op.AddOrUpdate? && Step(s, op, s') && op.node.id != s.verified.ourId
    requires (id in IdsOf(s.All()) || id == op.node.id) && id !in IdsOf(s'.All())
    ensures op.node.id !in IdsOf(s.All())
    ensures var c := Prefix(s.verified.ourId, op.node.id);
            && Prefix(s.verified.ourId, id) == c && |s.unverified.Class(c)| == s.verified.k
            && (op.verified ==> |s.verified.Class(c)| == s.verified.k)
  {
    var gone, w := CallExchange(s, op, s');
    StaysOrGoes(s.All(), gone, w, s'.All(), id);
    var x :| x in gone && x.node.id == id;
  }

  /** Our own id is not added. */
  lemma OursIsIgnored(s: Storage, op: Op, s': Storage)
    requires Sound(s) && op.AddOrUpdate? && op.node.id == s.verified.ourId && Step(s, op, s')
    ensures s' == s
  {
    OursNotStored(s);
    assert op.node.id !in IdsOf(s.verified.Contents()) && op.node.id !in IdsOf(s.unverified.Contents()) by {
      forall x | x in s.verified.Contents() || x in s.unverified.Contents() ensures x in s.All() {
      }
    }
    if op.verified {
      var lost := AdmitBalance(s, Verified(NewWrapper(op.node, op.later), op.now), s');
    }
  }

  /**
    After any operation each stored node is as it was before, unless the operation names it:
    then it is what the call says, with the node and the first sight on record if there were any.
   */
  lemma StepTimes(s: Storage, op: Op, s': Storage, y: NodeWrapper)
    requires Sound(s) && Distinct(s.All()) && Step(s, op, s') && y in s'.All()
    ensures !op.Clear? && !op.SetId?
    ensures if op.AddOrUpdate? && y.node.id == op.node.id then Touched(s.All(), op, y) else y in s.All()
  {
    match op
    case AddOrUpdate(node, _, _, _) =>
      if node.id == s.verified.ourId {
        OursIsIgnored(s, op, s');
        OursNotStored(s);
      } else {
        var gone, w := CallExchange(s, op, s');
        ExchangedOnly(s.All(), gone, w, s'.All(), y);
      }
    case Prune(grace, unverifiedGrace, now, later) =>
      if now >= grace && later >= unverifiedGrace {
        PrunedOnly(s, op, s', y);
      }
    case Clear => EmptyHasNothing(s', y);
    case SetId(_) => EmptyHasNothing(s', y);
  }

  lemma PrunedOnly(s: Storage, op: Op, s': Storage, y: NodeWrapper)
    requires op.Prune? && op.now >= op.grace && op.later >= op.unverifiedGrace && Step(s, op, s') && y in s'.All()
    ensures y in s.All()
  {
    assert s'.All()[y] == s'.verified.Contents()[y] + s'.unverified.Contents()[y];
    assert s.All()[y] == s.verified.Contents()[y] + s.unverified.Contents()[y];
  }

  lemma EmptyHasNothing(s: Storage, y: NodeWrapper)
    requires s == EmptyStorage(s.verified.ourId, s.verified.k).(
                    unverified := EmptyTable(s.unverified.ourId, s.unverified.k))
    ensures y !in s.All()
  {
    NothingIn(s.verified.ourId, s.verified.k);
    NothingIn(s.unverified.ourId, s.unverified.k);
  }

  // ---------- runs ----------

  /** A call that names id; or one that says that it was verified. */
  predicate Names(op: Op, id: Id, verifying: bool) {
    op.AddOrUpdate? && op.node.id == id && (verifying ==> op.verified)
  }

  /** Of the operations from i to n the last such call was made at that instant, or there was none. */
  ghost predicate LastCall(ops: seq<Op>, id: Id, verifying: bool, i: nat, n: nat, at: Option<Instant>)
    requires i <= n <= |ops|
  {
    match at
    case None => forall l :: i <= l < n ==> !Names(ops[l], id, verifying)
    case Some(t) =>
      exists l :: i <= l < n && Names(ops[l], id, verifying) && ops[l].now == t
               && forall m :: l < m < n ==> !Names(ops[m], id, verifying)
  }

  /** What is stored at each moment of a run. */
  ghost function Moments(ss: seq<Storage>): (ms: seq<Items>)
    ensures |ms| == |ss| && forall n :: 0 <= n < |ss| ==> ms[n] == ss[n].All()
  {
    seq(|ss|, n requires 0 <= n < |ss| => ss[n].All())
  }

  /** The operation brought the node of y in, which was not among m before, and was its first sight. */
  ghost predicate BroughtIn(m: Items, op: Op, y: NodeWrapper) {
    && op.AddOrUpdate? && op.node == y.node && y.node.id !in IdsOf(m)
    && y.firstSeen == if op.verified then op.later else op.now
  }

  /** From operation i on the id is stored, and nothing clears the storage. */
  ghost predicate StaysStored(ms: seq<Items>, ops: seq<Op>, id: Id, i: nat, n: nat)
    requires i <= n <= |ops| < |ms|
  {
    && (forall j :: i < j <= n ==> id in IdsOf(ms[j]))
    && forall j :: i <= j < n ==> !ops[j].Clear? && !ops[j].SetId?
  }

  /** What is stored as y at moment n is the history of the operations from i on. */
  ghost predicate Since(ms: seq<Items>, ops: seq<Op>, i: nat, n: nat, y: NodeWrapper)
    requires i < n <= |ops| < |ms|
  {
    && BroughtIn(ms[i], ops[i], y) && StaysStored(ms, ops, y.node.id, i, n)
    && LastCall(ops, y.node.id, false, i, n, Some(y.lastSeen))
    && LastCall(ops, y.node.id, true, i, n, y.lastVerified)
  }

  lemma SameLastCall(ops: seq<Op>, id: Id, verifying: bool, i: nat, n: nat, at: Option<Instant>)
    requires i <= n < |ops| && LastCall(ops, id, verifying, i, n, at) && !Names(ops[n], id, verifying)
    ensures LastCall(ops, id, verifying, i, n + 1, at)
  {
    if at.Some? {
      var l :| i <= l < n && Names(ops[l], id, verifying) && ops[l].now == at.value
            && forall m :: l < m < n ==> !Names(ops[m], id, verifying);
      assert forall m :: l < m < n + 1 ==> !Names(ops[m], id, verifying);
    }
  }

  lemma NewLastCall(ops: seq<Op>, id: Id, verifying: bool, i: nat, n: nat)
    requires i <= n < |ops| && Names(ops[n], id, verifying)
    ensures LastCall(ops, id, verifying, i, n + 1, Some(ops[n].now))
  {
  }

  lemma NextLastCall(ops: seq<Op>, id: Id, i: nat, n: nat, at: Option<Instant>, at': Option<Instant>)
    requires i <= n < |ops| && LastCall(ops, id, true, i, n, at) && Names(ops[n], id, false)
    requires at' == if ops[n].verified then Some(ops[n].now) else at
    ensures LastCall(ops, id, true, i, n + 1, at')
  {
    if !ops[n].verified {
      SameLastCall(ops, id, true, i, n, at);
    }
  }

  lemma NextStaysStored(ms: seq<Items>, ops: seq<Op>, id: Id, i: nat, n: nat)
    requires i <= n < |ops| < |ms| && StaysStored(ms, ops, id, i, n) && id in IdsOf(ms[n + 1])
    requires !ops[n].Clear? && !ops[n].SetId?
    ensures StaysStored(ms, ops, id, i, n + 1)
  {
  }

  /** y is what operation op leaves of x, which was stored before. */
  predicate Carried(op: Op, x: NodeWrapper, y: NodeWrapper) {
    if Names(op, y.node.id, false) then Reread(x, op, y) && y.lastSeen == op.now else y == x
  }

  /** y comes from what was stored before operation n, or the operation brought it in. */
  ghost predicate Follows(ms: seq<Items>, ops: seq<Op>, n: nat, y: NodeWrapper)
    requires n < |ops| < |ms|
  {
    && !ops[n].Clear? && !ops[n].SetId?
    && if y.node.id in IdsOf(ms[n]) then exists x :: x in ms[n] && Carried(ops[n], x, y)
       else Names(ops[n], y.node.id, false) && Touched(ms[n], ops[n], y)
  }

  ghost predicate Linked(ms: seq<Items>, ops: seq<Op>, n: nat)
    requires n < |ops| < |ms|
  {
    forall y :: y in ms[n + 1] ==> Follows(ms, ops, n, y)
  }

  /** Nothing is stored at first, and each operation leads from moment to moment. */
  ghost predicate Chain(ms: seq<Items>, ops: seq<Op>) {
    && |ms| == |ops| + 1
    && ms[0] == multiset{}
    && forall n :: 0 <= n < |ops| ==> Linked(ms, ops, n)
  }

  lemma StepFollows(ss: seq<Storage>, ops: seq<Op>, n: nat, y: NodeWrapper)
    requires n < |ops| < |ss| && Sound(ss[n]) && Distinct(ss[n].All())
    requires Step(ss[n], ops[n], ss[n + 1]) && y in ss[n + 1].All()
    ensures Follows(Moments(ss), ops, n, y)
  {
    StepTimes(ss[n], ops[n], ss[n + 1], y);
    if Names(ops[n], y.node.id, false) && y.node.id in IdsOf(ss[n].All()) {
      var x :| x in ss[n].All() && Reread(x, ops[n], y);
      assert Carried(ops[n], x, y);
    }
  }

  lemma RunIsChain(ss: seq<Storage>, ops: seq<Op>, clocks: seq<Instant>, ourId: Id, k: nat)
    requires FromEmpty(ss, ops, clocks, ourId, k)
    ensures Chain(Moments(ss), ops)
  {
    NothingIn(ourId, k);
    forall n | 0 <= n < |ops| ensures Linked(Moments(ss), ops, n) {
      StepLinks(ss, ops, clocks, ourId, k, n);
    }
  }

  lemma StepLinks(ss: seq<Storage>, ops: seq<Op>, clocks: seq<Instant>, ourId: Id, k: nat, n: nat)
    requires FromEmpty(ss, ops, clocks, ourId, k) && n < |ops|
    ensures Linked(Moments(ss), ops, n)
  {
    RunKeepsInvariant(ss, ops, clocks, ourId, k, n);
    RunStep(ss, ops, clocks, n);
    forall y | y in Moments(ss)[n + 1] ensures Follows(Moments(ss), ops, n, y) {
      StepFollows(ss, ops, n, y);
    }
  }

  lemma NextSince(ms: seq<Items>, ops: seq<Op>, i: nat, n: nat, x: NodeWrapper, y: NodeWrapper)
    requires i < n < |ops| < |ms| && Since(ms, ops, i, n, x) && y in ms[n + 1]
    requires !ops[n].Clear? && !ops[n].SetId? && Carried(ops[n], x, y)
    ensures Since(ms, ops, i, n + 1, y)
  {
    var id := y.node.id;
    NextStaysStored(ms, ops, id, i, n);
    if Names(ops[n], id, false) {
      NewLastCall(ops, id, false, i, n);
      NextLastCall(ops, id, i, n, x.lastVerified, y.lastVerified);
    } else {
      SameLastCall(ops, id, false, i, n, Some(x.lastSeen));
      SameLastCall(ops, id, true, i, n, x.lastVerified);
    }
  }

  lemma FirstSince(ms: seq<Items>, ops: seq<Op>, n: nat, y: NodeWrapper)
    requires n < |ops| < |ms| && y in ms[n + 1]
    requires Names(ops[n], y.node.id, false) && y.node.id !in IdsOf(ms[n]) && Touched(ms[n], ops[n], y)
    ensures Since(ms, ops, n, n + 1, y)
  {
    NewLastCall(ops, y.node.id, false, n, n);
    if ops[n].verified {
      NewLastCall(ops, y.node.id, true, n, n);
    }
  }

  lemma {:induction false} ChainIsHistory(ms: seq<Items>, ops: seq<Op>, n: nat, y: NodeWrapper) returns (i: nat)
    requires Chain(ms, ops) && n <= |ops| && y in ms[n]
    ensures i < n && Since(ms, ops, i, n, y)
    decreases n
  {
    assert n > 0;
    assert Linked(ms, ops, n - 1) && Follows(ms, ops, n - 1, y);
    if y.node.id in IdsOf(ms[n - 1]) {
      var x :| x in ms[n - 1] && Carried(ops[n - 1], x, y);
      i := ChainIsHistory(ms, ops, n - 1, x);
      NextSince(ms, ops, i, n - 1, x, y);
    } else {
      i := n - 1;
      FirstSince(ms, ops, n - 1, y);
    }
  }

  /**
    At every moment of every run from an empty storage, each stored node is the one of the call that
    brought it in, was first seen then, has been stored ever since, was last seen when it was last
    named by a call, and last verified when a call last said so, if one has.
   */
  lemma StoredIsHistory(
      ss: seq<Storage>, ops: seq<Op>, clocks: seq<Instant>, ourId: Id, k: nat, n: nat, y: NodeWrapper)
    returns (i: nat)
    requires FromEmpty(ss, ops, clocks, ourId, k) && n <= |ops| && y in ss[n].All()
    ensures i < n && Since(Moments(ss), ops, i, n, y)
  {
    RunIsChain(ss, ops, clocks, ourId, k);
    i := ChainIsHistory(Moments(ss), ops, n, y);
  }

  lemma {:induction false} SameAlongChain(
      ms: seq<Items>, ops: seq<Op>, i: nat, j: nat, x: NodeWrapper, y: NodeWrapper)
    requires Chain(ms, ops) && i <= j <= |ops| && Distinct(ms[i])
    requires x in ms[i] && y in ms[j] && y.node.id == x.node.id
    requires forall l :: i <= l <= j ==> x.node.id in IdsOf(ms[l])
    ensures y.node == x.node && y.firstSeen == x.firstSeen
    decreases j
  {
    if i < j {
      assert Linked(ms, ops, j - 1) && Follows(ms, ops, j - 1, y);
      assert x.node.id in IdsOf(ms[j - 1]);
      var z :| z in ms[j - 1] && Carried(ops[j - 1], z, y);
      SameAlongChain(ms, ops, i, j - 1, x, z);
    }
  }

  /** While an id stays stored, its node and the instant of its first sight stay the same. */
  lemma SameWhileStored(
      ss: seq<Storage>, ops: seq<Op>, clocks: seq<Instant>, ourId: Id, k: nat, i: nat, j: nat,
      x: NodeWrapper, y: NodeWrapper)
    requires FromEmpty(ss, ops, clocks, ourId, k) && i <= j <= |ops|
    requires forall l :: i <= l <= j ==> x.node.id in IdsOf(ss[l].All())
    requires x in ss[i].All() && y in ss[j].All() && y.node.id == x.node.id
    ensures y.node == x.node && y.firstSeen == x.firstSeen
  {
    RunIsChain(ss, ops, clocks, ourId, k);
    RunKeepsInvariant(ss, ops, clocks, ourId, k, i);
    SameAlongChain(Moments(ss), ops, i, j, x, y);
  }

  /** The id last set before moment n, at first the one the storage began with. */
  function OurIdAt(ops: seq<Op>, ourId: Id, n: nat): Id
    requires n <= |ops|
  {
    if n == 0 then ourId else if ops[n - 1].SetId? then ops[n - 1].newId else OurIdAt(ops, ourId, n - 1)
  }

  /** Both tables see the id that was last set, at every moment of every run. */
  lemma OurIdIsLastSet(ss: seq<Storage>, ops: seq<Op>, clocks: seq<Instant>, ourId: Id, k: nat, n: nat)
    requires FromEmpty(ss, ops, clocks, ourId, k) && n <= |ops|
    ensures ss[n].verified.ourId == ss[n].unverified.ourId == OurIdAt(ops, ourId, n)
  {
    var ps := seq(|ss|, i requires 0 <= i < |ss| => ss[i].verified.ourId == OurIdAt(ops, ourId, i));
    forall i | 0 <= i < n ensures Stays(ps, i) {
      NextOurId(ss, ops, clocks, ourId, k, i);
    }
    HoldsAlong(ps, n);
    RunKeepsInvariant(ss, ops, clocks, ourId, k, n);
  }

  lemma NextOurId(ss: seq<Storage>, ops: seq<Op>, clocks: seq<Instant>, ourId: Id, k: nat, i: nat)
    requires FromEmpty(ss, ops, clocks, ourId, k) && i < |ops|
    ensures ss[i + 1].verified.ourId == if ops[i].SetId? then ops[i].newId else ss[i].verified.ourId
  {
    RunKeepsInvariant(ss, ops, clocks, ourId, k, i);
    RunStep(ss, ops, clocks, i);
    StepOurId(ss[i], ops[i], ss[i + 1]);
  }

  lemma StepOurId(s: Storage, op: Op, s': Storage)
    requires Sound(s) && Step(s, op, s')
    ensures s'.verified.ourId == if op.SetId? then op.newId else s.verified.ourId
  {
    if op.AddOrUpdate? && op.verified {
      if op.node.id in IdsOf(s.unverified.Contents()) {
        var p: NodeWrapper :| p.node.id == op.node.id && Promoted(s, p, op.now, s');
        PromotionLosesNobody(s, p, op.now, s');
      } else if op.node.id !in IdsOf(s.verified.Contents()) {
        var lost := AdmitBalance(s, Verified(NewWrapper(op.node, op.later), op.now), s');
      }
    }
  }
}
