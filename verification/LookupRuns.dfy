/**
  Whole lookups (src/dht/operations.rs, find_node) as runs of turns, for any
  nodes in the main table and any replies of the network.
 */
module LookupRuns {
  import opened Wrappers
  import opened Ids
  import opened Nodes
  import opened Tables
  import opened Nearest
  import opened Outcomes
  import opened Lookups

  /** The number of nodes a lookup asks for and returns. */
  const LOOKUP_K: nat := 8

  /** What one request brought: nodes with the instants they were recorded, or nothing of use. */
  datatype Reply = Found(nodes: seq<(Node, Instant)>) | WrongType | Failed

  /** What one turn meets: the verified nodes of the main table and the replies that come in if it asks. */
  datatype Round = Round(seeds: seq<NodeWrapper>, replies: seq<Reply>)

  datatype Outcome = Idle | NothingNew | Asked

  /** One turn of the loop: its table once seeded, the nodes nearest to the target, what became of it. */
  datatype Turn = Turn(seeded: Table, chosen: seq<NodeWrapper>, outcome: Outcome, after: Table)

  function IdList(r: seq<NodeWrapper>): (ids: seq<Id>)
    ensures |ids| == |r|
    ensures forall i :: 0 <= i < |r| ==> ids[i] == r[i].node.id
  {
    seq(|r|, i requires 0 <= i < |r| => r[i].node.id)
  }

  function NewNodes(nodes: seq<(Node, Instant)>): (xs: seq<NodeWrapper>)
    ensures |xs| == |nodes|
    ensures forall i :: 0 <= i < |nodes| ==> xs[i] == NewWrapper(nodes[i].0, nodes[i].1)
  {
    seq(|nodes|, i requires 0 <= i < |nodes| => NewWrapper(nodes[i].0, nodes[i].1))
  }

  /** The nodes that the replies of a turn bring, in order. */
  function Received(replies: seq<Reply>): seq<NodeWrapper> {
    if replies == [] then []
    else
      var r := replies[|replies| - 1];
      Received(replies[..|replies| - 1]) + if r.Found? then NewNodes(r.nodes) else []
  }

  // ---------- the loop ----------

  /**
    One turn from table t, when bestIds were asked last: seed the table, pick the nodes
    nearest to the target and, unless there are none or they are the ones asked last, ask
    them and take in the replies.
   */
  ghost predicate TurnStep(t: Table, round: Round, bestIds: seq<Id>, turn: Turn) {
    && OfferedAll(t, round.seeds, turn.seeded)
    && KNearest(turn.seeded.Contents(), t.ourId, LOOKUP_K, turn.chosen)
    && turn.outcome ==
       (if turn.chosen == [] then Idle else if IdList(turn.chosen) == bestIds then NothingNew else Asked)
    && if turn.outcome == Asked then OfferedAll(turn.seeded, Received(round.replies), turn.after)
       else turn.after == turn.seeded
  }

  /** The table that turn i begins with. */
  function Before(target: Id, turns: seq<Turn>, i: nat): Table
    requires i <= |turns|
  {
    if i == 0 then EmptyTable(target, LOOKUP_K) else turns[i - 1].after
  }

  /** The ids asked last before turn i. */
  function BestIds(turns: seq<Turn>, i: nat): seq<Id>
    requires i <= |turns|
  {
    if i == 0 then []
    else if turns[i - 1].outcome == Asked then IdList(turns[i - 1].chosen)
    else BestIds(turns, i - 1)
  }

  /** Turn i is one that the loop takes from where turn i-1 left it; it is the last one if it found nothing new. */
  ghost predicate Taken(target: Id, rounds: seq<Round>, turns: seq<Turn>, i: nat)
    requires i < |turns| <= |rounds|
  {
    && TurnStep(Before(target, turns, i), rounds[i], BestIds(turns, i), turns[i])
    && (i < |turns| - 1 ==> turns[i].outcome != NothingNew)
  }

  ghost predicate LookupRun(target: Id, rounds: seq<Round>, turns: seq<Turn>) {
    && |turns| <= |rounds|
    && forall i :: 0 <= i < |turns| ==> Taken(target, rounds, turns, i)
  }

  /** The loop has ended by itself: the nodes asked last have come up again. */
  predicate Converged(turns: seq<Turn>) {
    turns != [] && turns[|turns| - 1].outcome == NothingNew
  }

  /**
    A whole lookup: turns for as long as there are rounds, which stands for the
    timeout, or until nothing new comes up; then r lists the nodes nearest to the target.
   */
  ghost predicate Lookup(target: Id, rounds: seq<Round>, turns: seq<Turn>, r: seq<Node>) {
    && LookupRun(target, rounds, turns)
    && (Converged(turns) || |turns| == |rounds|)
    && exists s :: KNearest(Before(target, turns, |turns|).Contents(), target, LOOKUP_K, s) && IsListOf(r, s)
  }

  // ---------- what is heard of ----------

  /** All ids heard of in the first n rounds; a turn that knows no node yet asks nobody. */
  ghost function Heard(rounds: seq<Round>, n: nat, target: Id): set<Id>
    requires n <= |rounds|
    decreases n, 0
  {
    if n == 0 then {}
    else
      var h := HeardAtQuery(rounds, n - 1, target);
      if h <= {target} then h else h + IdsIn(Received(rounds[n - 1].replies))
  }

  /** All ids heard of when turn n picks the nearest nodes. */
  ghost function HeardAtQuery(rounds: seq<Round>, n: nat, target: Id): set<Id>
    requires n < |rounds|
    decreases n, 1
  {
    Heard(rounds, n, target) + IdsIn(rounds[n].seeds)
  }

  /** All ids heard of when the lookup ends. */
  ghost function HeardAtEnd(rounds: seq<Round>, turns: seq<Turn>, target: Id): set<Id>
    requires |turns| <= |rounds|
  {
    if Converged(turns) then HeardAtQuery(rounds, |turns| - 1, target) else Heard(rounds, |turns|, target)
  }

  /** Between turns the table knows the ids heard. */
  ghost predicate Aware(t: Table, target: Id, heard: set<Id>) {
    Knows(t, heard) && t.ourId == target && t.k == LOOKUP_K
  }

  lemma TurnIsAware(t: Table, target: Id, heard: set<Id>, round: Round, bestIds: seq<Id>, turn: Turn)
    requires Aware(t, target, heard) && TurnStep(t, round, bestIds, turn)
    ensures var h := heard + IdsIn(round.seeds);
            && Aware(turn.seeded, target, h)
            && (turn.outcome == Idle <==> h <= {target})
            && Aware(turn.after, target, if turn.outcome == Asked then h + IdsIn(Received(round.replies)) else h)
    ensures NoFewer(t.Contents(), turn.seeded.Contents(), target)
    ensures NoFewer(turn.seeded.Contents(), turn.after.Contents(), target)
  {
    OfferedAllKnows(t, heard, round.seeds, turn.seeded);
    EmptyMeansUnheard(turn.seeded, heard + IdsIn(round.seeds));
    assert |turn.chosen| == 0 <==> |turn.seeded.Contents()| == 0;
    if turn.outcome == Asked {
      OfferedAllKnows(turn.seeded, heard + IdsIn(round.seeds), Received(round.replies), turn.after);
    }
  }

  lemma TurnOf(target: Id, rounds: seq<Round>, turns: seq<Turn>, i: nat)
    requires LookupRun(target, rounds, turns) && i < |turns|
    ensures TurnStep(Before(target, turns, i), rounds[i], BestIds(turns, i), turns[i])
    ensures i < |turns| - 1 ==> turns[i].outcome != NothingNew
  {
    assert Taken(target, rounds, turns, i);
  }

  lemma HeardNext(rounds: seq<Round>, n: nat, target: Id)
    requires n < |rounds|
    ensures var h := HeardAtQuery(rounds, n, target);
            Heard(rounds, n + 1, target) == if h <= {target} then h else h + IdsIn(Received(rounds[n].replies))
  {
  }

  lemma TurnPasses(target: Id, rounds: seq<Round>, turns: seq<Turn>, i: nat)
    requires LookupRun(target, rounds, turns) && i < |turns|
    requires Aware(Before(target, turns, i), target, Heard(rounds, i, target))
    ensures Aware(turns[i].seeded, target, HeardAtQuery(rounds, i, target))
    ensures turns[i].outcome == Idle <==> HeardAtQuery(rounds, i, target) <= {target}
    ensures turns[i].outcome == NothingNew ==> Aware(turns[i].after, target, HeardAtQuery(rounds, i, target))
    ensures turns[i].outcome != NothingNew ==> Aware(turns[i].after, target, Heard(rounds, i + 1, target))
    ensures NoFewer(Before(target, turns, i).Contents(), turns[i].seeded.Contents(), target)
    ensures NoFewer(turns[i].seeded.Contents(), turns[i].after.Contents(), target)
  {
    TurnOf(target, rounds, turns, i);
    TurnIsAware(Before(target, turns, i), target, Heard(rounds, i, target), rounds[i], BestIds(turns, i), turns[i]);
    HeardNext(rounds, i, target);
  }

  lemma NotLast(target: Id, rounds: seq<Round>, turns: seq<Turn>, i: nat)
    requires LookupRun(target, rounds, turns) && i < |turns| && (i < |turns| - 1 || !Converged(turns))
    ensures turns[i].outcome != NothingNew
  {
    assert Taken(target, rounds, turns, i);
  }

  lemma StaysAware(target: Id, rounds: seq<Round>, turns: seq<Turn>, i: nat)
    requires LookupRun(target, rounds, turns) && i < |turns| && (i < |turns| - 1 || !Converged(turns))
    requires Aware(Before(target, turns, i), target, Heard(rounds, i, target))
    ensures Aware(Before(target, turns, i + 1), target, Heard(rounds, i + 1, target))
  {
    TurnPasses(target, rounds, turns, i);
    NotLast(target, rounds, turns, i);
    assert Before(target, turns, i + 1) == turns[i].after;
  }

  /** The ids heard of before each turn. */
  ghost function HeardSoFar(rounds: seq<Round>, target: Id): (hs: seq<set<Id>>)
    ensures |hs| == |rounds| + 1
    ensures forall n :: 0 <= n <= |rounds| ==> hs[n] == Heard(rounds, n, target)
  {
    seq(|rounds| + 1, n requires 0 <= n <= |rounds| => Heard(rounds, n, target))
  }

  /** If the table that turn i begins with knows the ids hs[i], the next one knows hs[i + 1]. */
  ghost predicate Passes(target: Id, turns: seq<Turn>, hs: seq<set<Id>>, i: nat)
    requires i < |turns| && i + 1 < |hs|
  {
    Aware(Before(target, turns, i), target, hs[i]) ==> Aware(Before(target, turns, i + 1), target, hs[i + 1])
  }

  lemma TurnsPass(target: Id, rounds: seq<Round>, turns: seq<Turn>, hs: seq<set<Id>>, i: nat)
    requires LookupRun(target, rounds, turns) && i < |turns| && (i < |turns| - 1 || !Converged(turns))
    requires hs == HeardSoFar(rounds, target)
    ensures Passes(target, turns, hs, i)
  {
    if Aware(Before(target, turns, i), target, Heard(rounds, i, target)) {
      StaysAware(target, rounds, turns, i);
    }
  }

  lemma {:induction false} AwareAlong(target: Id, turns: seq<Turn>, hs: seq<set<Id>>, n: nat)
    requires n <= |turns| && n < |hs| && hs[0] == {} && forall i :: 0 <= i < n ==> Passes(target, turns, hs, i)
    ensures Aware(Before(target, turns, n), target, hs[n])
    decreases n
  {
    if n == 0 {
      EmptyKnows(target, LOOKUP_K);
    } else {
      AwareAlong(target, turns, hs, n - 1);
      assert Passes(target, turns, hs, n - 1);
    }
  }

  lemma BeforeIsAware(target: Id, rounds: seq<Round>, turns: seq<Turn>, n: nat)
    requires LookupRun(target, rounds, turns) && n <= |turns| && (n < |turns| || !Converged(turns))
    ensures Aware(Before(target, turns, n), target, Heard(rounds, n, target))
  {
    var hs := HeardSoFar(rounds, target);
    forall i | 0 <= i < n ensures Passes(target, turns, hs, i) {
      TurnsPass(target, rounds, turns, hs, i);
    }
    AwareAlong(target, turns, hs, n);
  }

  /** Every query is made on a table that knows all ids heard by then. */
  lemma QueryIsAware(target: Id, rounds: seq<Round>, turns: seq<Turn>, i: nat)
    requires LookupRun(target, rounds, turns) && i < |turns|
    ensures Aware(turns[i].seeded, target, HeardAtQuery(rounds, i, target))
    ensures turns[i].outcome == Idle <==> HeardAtQuery(rounds, i, target) <= {target}
  {
    BeforeIsAware(target, rounds, turns, i);
    TurnPasses(target, rounds, turns, i);
  }

  /** So is the final one. */
  lemma EndIsAware(target: Id, rounds: seq<Round>, turns: seq<Turn>)
    requires LookupRun(target, rounds, turns)
    ensures Aware(Before(target, turns, |turns|), target, HeardAtEnd(rounds, turns, target))
  {
    if Converged(turns) {
      var i := |turns| - 1;
      BeforeIsAware(target, rounds, turns, i);
      TurnPasses(target, rounds, turns, i);
      assert Aware(turns[i].after, target, HeardAtQuery(rounds, i, target));
    } else {
      BeforeIsAware(target, rounds, turns, |turns|);
    }
  }

  // ---------- progress ----------

  lemma QueryGrows(target: Id, rounds: seq<Round>, turns: seq<Turn>, i: nat)
    requires LookupRun(target, rounds, turns) && i < |turns|
    ensures NoFewer(Before(target, turns, i).Contents(), turns[i].seeded.Contents(), target)
    ensures NoFewer(turns[i].seeded.Contents(), turns[i].after.Contents(), target)
  {
    BeforeIsAware(target, rounds, turns, i);
    TurnPasses(target, rounds, turns, i);
  }

  /** How many of the nodes that query i chooses from share d bits with the target. */
  ghost function Candidates(target: Id, turns: seq<Turn>, i: nat, d: nat): nat
    requires i < |turns|
  {
    |AtLeast(turns[i].seeded.Contents(), target, d)|
  }

  lemma RepliesKeepCandidates(target: Id, rounds: seq<Round>, turns: seq<Turn>, i: nat, d: nat)
    requires LookupRun(target, rounds, turns) && i < |turns|
    ensures Candidates(target, turns, i, d) <= |AtLeast(turns[i].after.Contents(), target, d)|
  {
    QueryGrows(target, rounds, turns, i);
  }

  lemma SeedingKeepsCandidates(target: Id, rounds: seq<Round>, turns: seq<Turn>, i: nat, d: nat)
    requires LookupRun(target, rounds, turns) && i + 1 < |turns|
    ensures |AtLeast(turns[i].after.Contents(), target, d)| <= Candidates(target, turns, i + 1, d)
  {
    QueryGrows(target, rounds, turns, i + 1);
    assert Before(target, turns, i + 1) == turns[i].after;
  }

  lemma NextCandidates(target: Id, rounds: seq<Round>, turns: seq<Turn>, i: nat, d: nat)
    requires LookupRun(target, rounds, turns) && i + 1 < |turns|
    ensures Candidates(target, turns, i, d) <= Candidates(target, turns, i + 1, d)
  {
    RepliesKeepCandidates(target, rounds, turns, i, d);
    SeedingKeepsCandidates(target, rounds, turns, i, d);
  }

  /** The same for every query of the run. */
  ghost function CandidatesSoFar(target: Id, turns: seq<Turn>, d: nat): (counts: seq<nat>)
    ensures |counts| == |turns|
    ensures forall i :: 0 <= i < |turns| ==> counts[i] == Candidates(target, turns, i, d)
  {
    seq(|turns|, i requires 0 <= i < |turns| => Candidates(target, turns, i, d))
  }

  ghost predicate NotBelow(counts: seq<nat>, i: nat)
    requires i + 1 < |counts|
  {
    counts[i] <= counts[i + 1]
  }

  lemma CandidatesRise(target: Id, rounds: seq<Round>, turns: seq<Turn>, d: nat, counts: seq<nat>, i: nat)
    requires LookupRun(target, rounds, turns) && counts == CandidatesSoFar(target, turns, d) && i + 1 < |counts|
    ensures NotBelow(counts, i)
  {
    NextCandidates(target, rounds, turns, i, d);
  }

  lemma {:induction false} NeverFalling(counts: seq<nat>, i: nat, j: nat)
    requires i <= j < |counts| && forall l :: i <= l < j ==> NotBelow(counts, l)
    ensures counts[i] <= counts[j]
    decreases j
  {
    if i < j {
      NeverFalling(counts, i, j - 1);
      assert NotBelow(counts, j - 1);
    }
  }

  /**
    From one query to any later one the number of stored nodes that share d bits with
    the target never falls, even though newer nodes are displaced by older ones.
   */
  lemma CandidatesNeverFall(target: Id, rounds: seq<Round>, turns: seq<Turn>, i: nat, j: nat, d: nat)
    requires LookupRun(target, rounds, turns) && i <= j < |turns|
    ensures |AtLeast(turns[i].seeded.Contents(), target, d)| <= |AtLeast(turns[j].seeded.Contents(), target, d)|
  {
    var counts := CandidatesSoFar(target, turns, d);
    forall l | i <= l < j ensures NotBelow(counts, l) {
      CandidatesRise(target, rounds, turns, d, counts, l);
    }
    NeverFalling(counts, i, j);
  }

  lemma QueryAnswers(target: Id, rounds: seq<Round>, turns: seq<Turn>, i: nat)
    requires LookupRun(target, rounds, turns) && i < |turns|
    ensures Distinct(turns[i].seeded.Contents())
    ensures KNearest(turns[i].seeded.Contents(), target, LOOKUP_K, turns[i].chosen)
  {
    QueryIsAware(target, rounds, turns, i);
    BeforeIsAware(target, rounds, turns, i);
    TurnOf(target, rounds, turns, i);
  }

  lemma OutcomeOf(target: Id, rounds: seq<Round>, turns: seq<Turn>, i: nat)
    requires LookupRun(target, rounds, turns) && i < |turns|
    ensures turns[i].outcome == Idle <==> turns[i].chosen == []
    ensures turns[i].outcome == NothingNew <==> turns[i].chosen != [] && IdList(turns[i].chosen) == BestIds(turns, i)
    ensures i < |turns| - 1 ==> turns[i].outcome != NothingNew
  {
    TurnOf(target, rounds, turns, i);
  }

  lemma HeardStays(rounds: seq<Round>, n: nat, target: Id)
    requires n < |rounds|
    ensures Heard(rounds, n, target) <= HeardAtQuery(rounds, n, target) <= Heard(rounds, n + 1, target)
  {
    HeardNext(rounds, n, target);
  }

  ghost predicate Kept(hs: seq<set<Id>>, n: nat)
    requires n + 1 < |hs|
  {
    hs[n] <= hs[n + 1]
  }

  lemma {:induction false} Ascending(hs: seq<set<Id>>, i: nat, j: nat)
    requires i <= j < |hs| && forall n :: i <= n < j ==> Kept(hs, n)
    ensures hs[i] <= hs[j]
    decreases j
  {
    if i < j {
      Ascending(hs, i, j - 1);
      assert Kept(hs, j - 1);
    }
  }

  lemma HeardRises(rounds: seq<Round>, target: Id, hs: seq<set<Id>>, n: nat)
    requires hs == HeardSoFar(rounds, target) && n + 1 < |hs|
    ensures Kept(hs, n)
  {
    HeardStays(rounds, n, target);
  }

  lemma HeardGrows(rounds: seq<Round>, i: nat, j: nat, target: Id)
    requires i <= j <= |rounds|
    ensures Heard(rounds, i, target) <= Heard(rounds, j, target)
  {
    var hs := HeardSoFar(rounds, target);
    forall n | i <= n < j ensures Kept(hs, n) {
      HeardRises(rounds, target, hs, n);
    }
    Ascending(hs, i, j);
  }

  /** What is heard of by the query of turn i is still known at that of a later one, and at the end. */
  lemma HeardLater(rounds: seq<Round>, i: nat, j: nat, target: Id)
    requires i < j <= |rounds|
    ensures HeardAtQuery(rounds, i, target) <= Heard(rounds, j, target)
    ensures j < |rounds| ==> HeardAtQuery(rounds, i, target) <= HeardAtQuery(rounds, j, target)
  {
    HeardStays(rounds, i, target);
    HeardGrows(rounds, i + 1, j, target);
  }

  lemma HeardByTheEnd(rounds: seq<Round>, turns: seq<Turn>, i: nat, target: Id)
    requires i < |turns| <= |rounds|
    ensures HeardAtQuery(rounds, i, target) <= HeardAtEnd(rounds, turns, target)
  {
    if !Converged(turns) {
      HeardLater(rounds, i, |turns|, target);
    } else if i < |turns| - 1 {
      HeardLater(rounds, i, |turns| - 1, target);
    }
  }

  /**
    From the query of one turn to that of any later one no position is lost, and the
    node at a position never shares fewer bits with the target; the result keeps
    that up.
   */
  lemma LookupProgresses(target: Id, rounds: seq<Round>, turns: seq<Turn>, r: seq<Node>, i: nat, p: nat)
    requires Lookup(target, rounds, turns, r) && i < |turns| && p < |turns[i].chosen|
    ensures forall j :: i < j < |turns| ==>
              && p < |turns[j].chosen|
              && Prefix(target, turns[i].chosen[p].node.id) <= Prefix(target, turns[j].chosen[p].node.id)
    ensures p < |r| && Prefix(target, turns[i].chosen[p].node.id) <= Prefix(target, r[p].id)
  {
    forall j | i < j < |turns|
      ensures p < |turns[j].chosen|
      ensures Prefix(target, turns[i].chosen[p].node.id) <= Prefix(target, turns[j].chosen[p].node.id)
    {
      LaterQuery(target, rounds, turns, i, j, p);
    }
    var t := Before(target, turns, |turns|);
    var s :| KNearest(t.Contents(), target, LOOKUP_K, s) && IsListOf(r, s);
    EndIsAware(target, rounds, turns);
    QueryIsAware(target, rounds, turns, i);
    QueryAnswers(target, rounds, turns, i);
    HeardByTheEnd(rounds, turns, i, target);
    MoreHeardNoFarther(turns[i].seeded, HeardAtQuery(rounds, i, target), turns[i].chosen,
                       t, HeardAtEnd(rounds, turns, target), s, p);
  }

  lemma LaterQuery(target: Id, rounds: seq<Round>, turns: seq<Turn>, i: nat, j: nat, p: nat)
    requires LookupRun(target, rounds, turns) && i < j < |turns| && p < |turns[i].chosen|
    ensures p < |turns[j].chosen|
    ensures Prefix(target, turns[i].chosen[p].node.id) <= Prefix(target, turns[j].chosen[p].node.id)
  {
    QueryIsAware(target, rounds, turns, i);
    QueryIsAware(target, rounds, turns, j);
    QueryAnswers(target, rounds, turns, i);
    QueryAnswers(target, rounds, turns, j);
    HeardLater(rounds, i, j, target);
    MoreHeardNoFarther(turns[i].seeded, HeardAtQuery(rounds, i, target), turns[i].chosen,
                       turns[j].seeded, HeardAtQuery(rounds, j, target), turns[j].chosen, p);
  }

  /** Once somebody has been asked, every turn asks again until nothing new comes up. */
  lemma {:induction false} NeverIdleAgain(target: Id, rounds: seq<Round>, turns: seq<Turn>, i: nat, j: nat)
    requires LookupRun(target, rounds, turns) && i < j < |turns| && turns[i].outcome == Asked
    ensures turns[j].outcome != Idle
    ensures BestIds(turns, j) == IdList(turns[j - 1].chosen) && turns[j - 1].outcome == Asked
  {
    OutcomeOf(target, rounds, turns, i);
    OutcomeOf(target, rounds, turns, j);
    OutcomeOf(target, rounds, turns, j - 1);
    LaterQuery(target, rounds, turns, i, j, 0);
    if i < j - 1 {
      NeverIdleAgain(target, rounds, turns, i, j - 1);
    }
  }

  /**
    A lookup has converged exactly if its last turn chose the ids that the turn before
    it asked, and then these are the result; no earlier turn chose what was asked before it.
   */
  lemma ConvergedMeansSameAgain(target: Id, rounds: seq<Round>, turns: seq<Turn>, r: seq<Node>)
    requires Lookup(target, rounds, turns, r)
    ensures var n := |turns|;
            Converged(turns) <==>
              n > 1 && turns[n - 2].outcome == Asked && IdList(turns[n - 1].chosen) == IdList(turns[n - 2].chosen)
    ensures Converged(turns) ==> |r| == |turns[|turns| - 1].chosen|
    ensures Converged(turns) ==> forall p :: 0 <= p < |r| ==> r[p].id == turns[|turns| - 1].chosen[p].node.id
    ensures forall i :: 0 < i < |turns| - 1 && turns[i - 1].outcome == Asked ==>
              IdList(turns[i].chosen) != IdList(turns[i - 1].chosen)
  {
    forall i | 0 < i < |turns| - 1 && turns[i - 1].outcome == Asked
      ensures IdList(turns[i].chosen) != IdList(turns[i - 1].chosen)
    {
      SameAgain(target, rounds, turns, i);
      OutcomeOf(target, rounds, turns, i);
    }
    ConvergedExactly(target, rounds, turns);
    if Converged(turns) {
      SameResult(target, rounds, turns, r);
    }
  }

  lemma ConvergedExactly(target: Id, rounds: seq<Round>, turns: seq<Turn>)
    requires LookupRun(target, rounds, turns)
    ensures var n := |turns|;
            Converged(turns) <==>
              n > 1 && turns[n - 2].outcome == Asked && IdList(turns[n - 1].chosen) == IdList(turns[n - 2].chosen)
  {
    if Converged(turns) {
      AskedBefore(target, rounds, turns);
    }
    if |turns| > 1 && turns[|turns| - 2].outcome == Asked {
      SameAgain(target, rounds, turns, |turns| - 1);
    }
  }

  lemma SameAgain(target: Id, rounds: seq<Round>, turns: seq<Turn>, i: nat)
    requires LookupRun(target, rounds, turns) && 0 < i < |turns| && turns[i - 1].outcome == Asked
    ensures turns[i].outcome == NothingNew <==> IdList(turns[i].chosen) == IdList(turns[i - 1].chosen)
  {
    NeverIdleAgain(target, rounds, turns, i - 1, i);
    OutcomeOf(target, rounds, turns, i);
  }

  lemma {:induction false} NobodyAsked(turns: seq<Turn>, i: nat)
    requires i <= |turns| && forall j :: 0 <= j < i ==> turns[j].outcome != Asked
    ensures BestIds(turns, i) == []
  {
    if i > 0 {
      NobodyAsked(turns, i - 1);
    }
  }

  lemma AskedBefore(target: Id, rounds: seq<Round>, turns: seq<Turn>)
    requires LookupRun(target, rounds, turns) && Converged(turns)
    ensures |turns| > 1 && turns[|turns| - 2].outcome == Asked
  {
    var n := |turns| - 1;
    TurnOf(target, rounds, turns, n);
    if forall j :: 0 <= j < n ==> turns[j].outcome != Asked {
      NobodyAsked(turns, n);
    } else {
      var i :| 0 <= i < n && turns[i].outcome == Asked;
      NeverIdleAgain(target, rounds, turns, i, n);
    }
  }

  lemma SameResult(target: Id, rounds: seq<Round>, turns: seq<Turn>, r: seq<Node>)
    requires Lookup(target, rounds, turns, r) && Converged(turns)
    ensures var chosen := turns[|turns| - 1].chosen;
            |r| == |chosen| && forall p :: 0 <= p < |r| ==> r[p].id == chosen[p].node.id
  {
    var n := |turns| - 1;
    TurnOf(target, rounds, turns, n);
    QueryAnswers(target, rounds, turns, n);
    var m, chosen := turns[n].seeded.Contents(), turns[n].chosen;
    var s :| KNearest(m, target, LOOKUP_K, s) && IsListOf(r, s);
    AnswersAgree(m, target, LOOKUP_K, s, chosen, |s|);
    assert s == s[..|s|] == chosen[..|s|] == chosen;
  }

  // ---------- what the result covers ----------

  /**
    r lists at most k different nodes heard of, nearest first, and for every
    prefix length as many that share it with the target as were heard of, up to k.
   */
  ghost predicate CoversHeard(r: seq<Node>, heard: set<Id>, target: Id, k: nat) {
    && |ResultIds(r)| == |r| <= k
    && ResultIds(r) <= heard - {target}
    && (forall d :: |Reaching(ResultIds(r), target, d)| == Min(k, |Reaching(heard - {target}, target, d)|))
    && forall i, j :: 0 <= i < j < |r| ==> Distance(r[i].id, target) <= Distance(r[j].id, target)
  }

  lemma AnswerCoversHeard(t: Table, heard: set<Id>, s: seq<NodeWrapper>, r: seq<Node>)
    requires Knows(t, heard) && KNearest(t.Contents(), t.ourId, t.k, s) && IsListOf(r, s)
    ensures CoversHeard(r, heard, t.ourId, t.k)
  {
    forall d: nat ensures |Reaching(ResultIds(r), t.ourId, d)| == Min(t.k, |Reaching(heard - {t.ourId}, t.ourId, d)|) {
      AnswerIsPrefixOptimal(t, heard, s, r, d);
    }
    ResultOf(t.Contents(), s, r);
    ResultWasHeard(t, heard, s);
    forall i, j | 0 <= i < j < |r| ensures Distance(r[i].id, t.ourId) <= Distance(r[j].id, t.ourId) {
      assert Far(s[i], t.ourId) <= Far(s[j], t.ourId);
    }
  }

  lemma ResultWasHeard(t: Table, heard: set<Id>, s: seq<NodeWrapper>)
    requires Knows(t, heard) && multiset(s) <= t.Contents()
    ensures IdsOf(multiset(s)) <= heard - {t.ourId}
  {
    forall x | x in multiset(s) ensures x.node.id in heard - {t.ourId} {
      assert x in t.Contents();
      ContentsNotOurs(t, x);
      assert x.node.id in IdsOf(t.Contents());
    }
  }

  /** Whatever is answered, the result covers every prefix length as well as the ids heard of allow. */
  lemma LookupCoversHeard(target: Id, rounds: seq<Round>, turns: seq<Turn>, r: seq<Node>)
    requires Lookup(target, rounds, turns, r)
    ensures CoversHeard(r, HeardAtEnd(rounds, turns, target), target, LOOKUP_K)
  {
    EndIsAware(target, rounds, turns);
    var t := Before(target, turns, |turns|);
    var s :| KNearest(t.Contents(), target, LOOKUP_K, s) && IsListOf(r, s);
    AnswerCoversHeard(t, HeardAtEnd(rounds, turns, target), s, r);
  }

  // ---------- lookups exist ----------

  lemma TurnExists(t: Table, round: Round, bestIds: seq<Id>) returns (turn: Turn)
    requires t.Valid()
    ensures TurnStep(t, round, bestIds, turn)
    ensures turn.after.Valid() && turn.after.ourId == t.ourId && turn.after.k == t.k
  {
    var seeded := OfferExists(t, round.seeds);
    var chosen := AnswerExists(seeded.Contents(), t.ourId, LOOKUP_K);
    var outcome := if chosen == [] then Idle else if IdList(chosen) == bestIds then NothingNew else Asked;
    var after := seeded;
    if outcome == Asked {
      after := OfferExists(seeded, Received(round.replies));
    }
    turn := Turn(seeded, chosen, outcome, after);
  }

  lemma {:induction false} BestIdsExtend(turns: seq<Turn>, turn: Turn, i: nat)
    requires i <= |turns|
    ensures BestIds(turns + [turn], i) == BestIds(turns, i)
  {
    if i > 0 {
      BestIdsExtend(turns, turn, i - 1);
    }
  }

  lemma OneMoreTurn(target: Id, rounds: seq<Round>, turns: seq<Turn>, turn: Turn)
    requires LookupRun(target, rounds, turns) && |turns| < |rounds| && !Converged(turns)
    requires TurnStep(Before(target, turns, |turns|), rounds[|turns|], BestIds(turns, |turns|), turn)
    ensures LookupRun(target, rounds, turns + [turn])
  {
    forall i | 0 <= i < |turns| + 1 ensures Taken(target, rounds, turns + [turn], i) {
      if i < |turns| {
        EarlierTurn(target, rounds, turns, turn, i);
      } else {
        NewTurn(target, rounds, turns, turn);
      }
    }
  }

  lemma NewTurn(target: Id, rounds: seq<Round>, turns: seq<Turn>, turn: Turn)
    requires |turns| < |rounds|
    requires TurnStep(Before(target, turns, |turns|), rounds[|turns|], BestIds(turns, |turns|), turn)
    ensures Taken(target, rounds, turns + [turn], |turns|)
  {
    BestIdsExtend(turns, turn, |turns|);
    assert Before(target, turns + [turn], |turns|) == Before(target, turns, |turns|);
  }

  lemma EarlierTurn(target: Id, rounds: seq<Round>, turns: seq<Turn>, turn: Turn, i: nat)
    requires LookupRun(target, rounds, turns) && |turns| < |rounds| && !Converged(turns) && i < |turns|
    ensures Taken(target, rounds, turns + [turn], i)
  {
    TurnOf(target, rounds, turns, i);
    NotLast(target, rounds, turns, i);
    BestIdsExtend(turns, turn, i);
    assert Before(target, turns + [turn], i) == Before(target, turns, i);
    assert (turns + [turn])[i] == turns[i];
  }

  /** For any nodes in the main table and any replies there is a lookup. */
  lemma LookupExists(target: Id, rounds: seq<Round>) returns (turns: seq<Turn>, r: seq<Node>)
    ensures Lookup(target, rounds, turns, r)
  {
    turns := [];
    EmptyKnows(target, LOOKUP_K);
    while |turns| < |rounds| && !Converged(turns)
      invariant LookupRun(target, rounds, turns)
      invariant var t := Before(target, turns, |turns|); t.Valid() && t.ourId == target && t.k == LOOKUP_K
    {
      var turn := TurnExists(Before(target, turns, |turns|), rounds[|turns|], BestIds(turns, |turns|));
      OneMoreTurn(target, rounds, turns, turn);
      turns := turns + [turn];
    }
    var s := AnswerExists(Before(target, turns, |turns|).Contents(), target, LOOKUP_K);
    r := seq(|s|, i requires 0 <= i < |s| => s[i].node);
    assert IsListOf(r, s);
  }
}
