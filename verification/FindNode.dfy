/** The iterative lookup itself (src/dht/operations.rs, find_node). */
module FindNode {
  import opened Wrappers
  import opened Ids
  import opened Nodes
  import opened Tables
  import opened Nearest
  import opened Lookups
  import opened LookupRuns
  import opened Closeness
  import Buckets

  /** A node is added unless its id is stored already. */
  method Offer(buckets: Buckets.Buckets, item: NodeWrapper)
    requires buckets.View().Valid()
    modifies buckets
    ensures buckets.ourId == old(buckets.ourId) && buckets.View().Valid()
    ensures Offered(old(buckets.View()), item, buckets.View())
  {
    var known := buckets.Contains(item.node.id);
    if !known {
      var chumps := buckets.Add(item);
    }
  }

  method OfferSeeds(buckets: Buckets.Buckets, seeds: seq<NodeWrapper>)
    requires buckets.View().Valid()
    modifies buckets
    ensures buckets.ourId == old(buckets.ourId) && buckets.View().Valid()
    ensures OfferedAll(old(buckets.View()), seeds, buckets.View())
  {
    ghost var start := buckets.View();
    for i := 0 to |seeds|
      invariant buckets.ourId == old(buckets.ourId) && buckets.View().Valid()
      invariant OfferedAll(start, seeds[..i], buckets.View())
    {
      ghost var m := buckets.View();
      Offer(buckets, seeds[i]);
      OfferedUpTo(start, seeds, i, m, buckets.View());
    }
    assert seeds[..|seeds|] == seeds;
  }

  lemma OfferedUpTo(start: Table, xs: seq<NodeWrapper>, i: nat, m: Table, t: Table)
    requires i < |xs| && OfferedAll(start, xs[..i], m) && Offered(m, xs[i], t)
    ensures OfferedAll(start, xs[..i + 1], t)
  {
    var front := xs[..i];
    assert xs[..i + 1] == front + [xs[i]];
    OfferedOneMore(start, front, m, xs[i], t);
  }

  /** The nodes of one reply, offered after those of earlier replies. */
  method OfferFound(
      buckets: Buckets.Buckets, nodes: seq<(Node, Instant)>, ghost start: Table, ghost earlier: seq<NodeWrapper>)
    requires buckets.View().Valid() && OfferedAll(start, earlier, buckets.View())
    modifies buckets
    ensures buckets.ourId == old(buckets.ourId) && buckets.View().Valid()
    ensures OfferedAll(start, earlier + NewNodes(nodes), buckets.View())
  {
    ghost var all, n := earlier + NewNodes(nodes), |earlier|;
    assert all[..n] == earlier;
    for i := 0 to |nodes|
      invariant buckets.ourId == old(buckets.ourId) && buckets.View().Valid()
      invariant OfferedAll(start, all[..n + i], buckets.View())
    {
      ghost var m := buckets.View();
      Offer(buckets, NewWrapper(nodes[i].0, nodes[i].1));
      OfferedUpTo(start, all, n + i, m, buckets.View());
    }
    assert all[..n + |nodes|] == all;
  }

  lemma ReceivedNext(replies: seq<Reply>, i: nat)
    requires i < |replies|
    ensures Received(replies[..i + 1]) ==
            if replies[i].Found? then Received(replies[..i]) + NewNodes(replies[i].nodes) else Received(replies[..i])
  {
    assert replies[..i + 1][..i] == replies[..i];
  }

  method OfferReplies(buckets: Buckets.Buckets, replies: seq<Reply>)
    requires buckets.View().Valid()
    modifies buckets
    ensures buckets.ourId == old(buckets.ourId) && buckets.View().Valid()
    ensures OfferedAll(old(buckets.View()), Received(replies), buckets.View())
  {
    for i := 0 to |replies|
      invariant buckets.ourId == old(buckets.ourId) && buckets.View().Valid()
      invariant OfferedAll(old(buckets.View()), Received(replies[..i]), buckets.View())
    {
      ReceivedNext(replies, i);
      match replies[i] {
        case Found(nodes) => OfferFound(buckets, nodes, old(buckets.View()), Received(replies[..i]));
        case WrongType =>
        case Failed =>
      }
    }
    assert replies[..|replies|] == replies;
  }

  /**
    One turn: seed the table from the main one, pick the nodes nearest to the
    target and, unless these are the ones asked last, ask them.
   */
  method TakeTurn(buckets: Buckets.Buckets, round: Round, bestIds: seq<Id>)
    returns (outcome: Outcome, bestIds': seq<Id>, ghost turn: Turn)
    requires buckets.View().Valid() && buckets.k == LOOKUP_K
    modifies buckets
    ensures buckets.ourId == old(buckets.ourId) && buckets.View().Valid()
    ensures TurnStep(old(buckets.View()), round, bestIds, turn)
    ensures turn.after == buckets.View() && turn.outcome == outcome
    ensures bestIds' == if outcome == Asked then IdList(turn.chosen) else bestIds
  {
    OfferSeeds(buckets, round.seeds);
    ghost var seeded := buckets.View();
    var nearest := buckets.GetNearestNodes(buckets.ourId, None);
    if nearest == [] {
      // No node is known yet: wait and try again.
      return Idle, bestIds, Turn(seeded, nearest, Idle, seeded);
    }
    if bestIds == IdList(nearest) {
      return NothingNew, bestIds, Turn(seeded, nearest, NothingNew, seeded);
    }
    OfferReplies(buckets, round.replies);
    return Asked, IdList(nearest), Turn(seeded, nearest, Asked, buckets.View());
  }

  /** The lookup loop; running out of rounds stands for the timeout. */
  method Search(buckets: Buckets.Buckets, rounds: seq<Round>) returns (converged: bool, ghost turns: seq<Turn>)
    requires buckets.View() == EmptyTable(buckets.ourId, LOOKUP_K)
    modifies buckets
    ensures buckets.ourId == old(buckets.ourId)
    ensures LookupRun(buckets.ourId, rounds, turns)
    ensures converged == Converged(turns) && (!converged ==> |turns| == |rounds|)
    ensures buckets.View() == Before(buckets.ourId, turns, |turns|) && buckets.View().Valid()
  {
    ghost var target := buckets.ourId;
    EmptyKnows(target, LOOKUP_K);
    turns := [];
    var bestIds := [];
    converged := false;
    var i := 0;
    while i < |rounds| && !converged
      invariant i == |turns| <= |rounds| && buckets.ourId == target
      invariant LookupRun(target, rounds, turns) && converged == Converged(turns)
      invariant buckets.View() == Before(target, turns, i) && buckets.View().Valid()
      invariant bestIds == BestIds(turns, i)
      decreases |rounds| - i
    {
      var outcome;
      ghost var turn;
      outcome, bestIds, turn := TakeTurn(buckets, rounds[i], bestIds);
      OneMoreTurn(target, rounds, turns, turn);
      BestIdsExtend(turns, turn, i);
      turns := turns + [turn];
      converged := outcome == NothingNew;
      i := i + 1;
    }
  }

  /** The turns are a lookup run on the rounds that leads to r, which is judged by what the run heard of. */
  ghost predicate Concluded(target: Id, rounds: seq<Round>, turns: seq<Turn>, r: seq<Node>, converged: bool) {
    && Lookup(target, rounds, turns, r) && converged == Converged(turns)
    && var heard := HeardAtEnd(rounds, turns, target);
    && CoversHeard(r, heard, target, LOOKUP_K)
    && (CutoffFits(heard - {target}, target, LOOKUP_K) ==> NearestOf(r, heard - {target}, target, LOOKUP_K))
  }

  /**
    The whole lookup. It is a lookup run on the given rounds; whatever is answered,
    its result covers every prefix length as well as the ids heard of allow, and it is
    nearest to the target of all of them unless one class of them is too crowded.
   */
  method FindNode(target: Id, rounds: seq<Round>) returns (r: seq<Node>, converged: bool)
    ensures exists turns :: Concluded(target, rounds, turns, r, converged)
  {
    var buckets := new Buckets.Buckets(target, LOOKUP_K);
    ghost var turns;
    converged, turns := Search(buckets, rounds);
    var nearest := buckets.GetNearestNodes(target, None);
    r := seq(|nearest|, i requires 0 <= i < |nearest| => nearest[i].node);
    assert IsListOf(r, nearest);
    LookupCoversHeard(target, rounds, turns, r);
    LookupFindsNearest(target, rounds, turns, r);
    assert Concluded(target, rounds, turns, r, converged);
  }
}
