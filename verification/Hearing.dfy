/**
  What a lookup hears (src/dht/operations.rs, find_node), told from the main table and the
  replies alone; it lists nobody else, and everybody as he was told of.
 */
module Hearing {
  import opened Wrappers
  import opened Ids
  import opened Nodes
  import opened Tables
  import opened Nearest
  import opened Lookups
  import opened LookupRuns

  // ---------- replies ----------

  /** Some reply that carries nodes carries this one, recorded at that instant. */
  ghost predicate Replied(replies: seq<Reply>, n: Node, at: Instant) {
    exists i, l :: 0 <= i < |replies| && replies[i].Found? && 0 <= l < |replies[i].nodes|
                && replies[i].nodes[l] == (n, at)
  }

  /** All nodes of all replies that carry any are taken in, new at the instant they were recorded, and no others. */
  lemma {:induction false} ReceivedIsReplied(replies: seq<Reply>, x: NodeWrapper)
    ensures x in Received(replies) <==>
            x == NodeWrapper(x.node, x.firstSeen, x.firstSeen, None) && Replied(replies, x.node, x.firstSeen)
  {
    if replies != [] {
      var front, last := replies[..|replies| - 1], replies[|replies| - 1];
      ReceivedIsReplied(front, x);
      LastReply(replies, x.node, x.firstSeen);
      if last.Found? {
        InNewNodes(last.nodes, x);
      }
    }
  }

  lemma InNewNodes(nodes: seq<(Node, Instant)>, x: NodeWrapper)
    ensures x in NewNodes(nodes) <==>
            x == NodeWrapper(x.node, x.firstSeen, x.firstSeen, None) && (x.node, x.firstSeen) in nodes
  {
    if l :| 0 <= l < |nodes| && nodes[l] == (x.node, x.firstSeen) {
      assert NewNodes(nodes)[l] == NewWrapper(x.node, x.firstSeen);
    }
  }

  lemma LastReply(replies: seq<Reply>, n: Node, at: Instant)
    requires replies != []
    ensures var last := replies[|replies| - 1];
            Replied(replies, n, at) <==>
              Replied(replies[..|replies| - 1], n, at) || (last.Found? && (n, at) in last.nodes)
  {
    var front := replies[..|replies| - 1];
    if Replied(replies, n, at) {
      var i, l :|
        && 0 <= i < |replies| && replies[i].Found?
        && 0 <= l < |replies[i].nodes| && replies[i].nodes[l] == (n, at);
      assert i < |front| ==> front[i].nodes[l] == (n, at);
    }
    if i, l :| 0 <= i < |front| && front[i].Found? && 0 <= l < |front[i].nodes| && front[i].nodes[l] == (n, at) {
      assert replies[i].nodes[l] == (n, at);
    }
  }

  // ---------- the ids heard ----------

  ghost predicate InMainTable(round: Round, id: Id) {
    exists x :: x in round.seeds && x.node.id == id
  }

  ghost predicate InReply(round: Round, id: Id) {
    exists n, at :: Replied(round.replies, n, at) && n.id == id
  }

  /** By round j the main table has known somebody but the target, so that there is somebody to ask. */
  ghost predicate SomebodyToAsk(rounds: seq<Round>, j: nat, target: Id) {
    exists i, x :: 0 <= i <= j < |rounds| && x in rounds[i].seeds && x.node.id != target
  }

  /** Told of in one of the first n rounds: by the main table, or by a reply when there was somebody to ask. */
  ghost predicate ToldOf(rounds: seq<Round>, n: nat, target: Id, id: Id)
    requires n <= |rounds|
  {
    exists j :: 0 <= j < n && ToldIn(rounds, j, target, id)
  }

  ghost predicate ToldIn(rounds: seq<Round>, j: nat, target: Id, id: Id)
    requires j < |rounds|
  {
    InMainTable(rounds[j], id) || (SomebodyToAsk(rounds, j, target) && InReply(rounds[j], id))
  }

  lemma SeedsHeard(round: Round, id: Id)
    ensures id in IdsIn(round.seeds) <==> InMainTable(round, id)
  {
    if InMainTable(round, id) {
      var x :| x in round.seeds && x.node.id == id;
      assert x in multiset(round.seeds);
    }
  }

  lemma RepliesHeard(round: Round, id: Id)
    ensures id in IdsIn(Received(round.replies)) <==> InReply(round, id)
  {
    if id in IdsIn(Received(round.replies)) {
      var x :| x in multiset(Received(round.replies)) && x.node.id == id;
      ReceivedIsReplied(round.replies, x);
      assert Replied(round.replies, x.node, x.firstSeen);
    }
    if InReply(round, id) {
      var n, at :| Replied(round.replies, n, at) && n.id == id;
      var x := NodeWrapper(n, at, at, None);
      ReceivedIsReplied(round.replies, x);
      assert x in multiset(Received(round.replies));
    }
  }

  /** The rounds up to j tell of nobody but the target exactly if there is nobody to ask. */
  lemma NobodyHeardOf(rounds: seq<Round>, j: nat, target: Id)
    requires j < |rounds|
    requires forall id :: id in Heard(rounds, j, target) <==> ToldOf(rounds, j, target, id)
    ensures HeardAtQuery(rounds, j, target) <= {target} <==> !SomebodyToAsk(rounds, j, target)
  {
    if SomebodyToAsk(rounds, j, target) {
      var i, x :| 0 <= i <= j && x in rounds[i].seeds && x.node.id != target;
      assert InMainTable(rounds[i], x.node.id);
      if i < j {
        assert ToldIn(rounds, i, target, x.node.id);
        assert ToldOf(rounds, j, target, x.node.id);
      } else {
        SeedsHeard(rounds[j], x.node.id);
      }
      assert x.node.id in HeardAtQuery(rounds, j, target);
    } else {
      forall id | id in HeardAtQuery(rounds, j, target) ensures id == target {
        NobodyTold(rounds, j, target, id);
      }
    }
  }

  lemma NobodyTold(rounds: seq<Round>, j: nat, target: Id, id: Id)
    requires j < |rounds| && !SomebodyToAsk(rounds, j, target)
    requires (id in Heard(rounds, j, target) && ToldOf(rounds, j, target, id)) || id in IdsIn(rounds[j].seeds)
    ensures id == target
  {
    if id in IdsIn(rounds[j].seeds) {
      SeedsHeard(rounds[j], id);
      var x :| x in rounds[j].seeds && x.node.id == id;
    } else {
      var i :| 0 <= i < j && ToldIn(rounds, i, target, id);
      if InMainTable(rounds[i], id) {
        var x :| x in rounds[i].seeds && x.node.id == id;
      }
    }
  }

  /** The ids heard of in the first n rounds are those told of. */
  lemma {:induction false} HeardIsTold(rounds: seq<Round>, n: nat, target: Id)
    requires n <= |rounds|
    ensures forall id :: id in Heard(rounds, n, target) <==> ToldOf(rounds, n, target, id)
    decreases n
  {
    if n > 0 {
      HeardIsTold(rounds, n - 1, target);
      forall id ensures id in Heard(rounds, n, target) <==> ToldOf(rounds, n, target, id) {
        NextHeardIsTold(rounds, n - 1, target, id);
      }
    }
  }

  lemma NextHeardIsTold(rounds: seq<Round>, n: nat, target: Id, id: Id)
    requires n < |rounds|
    requires forall id :: id in Heard(rounds, n, target) <==> ToldOf(rounds, n, target, id)
    ensures id in Heard(rounds, n + 1, target) <==> ToldOf(rounds, n + 1, target, id)
  {
    NobodyHeardOf(rounds, n, target);
    HeardNext(rounds, n, target);
    NextTold(rounds, n, target, id);
    SeedsHeard(rounds[n], id);
    RepliesHeard(rounds[n], id);
  }

  lemma NextTold(rounds: seq<Round>, n: nat, target: Id, id: Id)
    requires n < |rounds|
    ensures ToldOf(rounds, n + 1, target, id) <==> ToldOf(rounds, n, target, id) || ToldIn(rounds, n, target, id)
  {
  }

  /** So are those heard of when the lookup ends; of its last round only the main table, if it converged. */
  lemma HeardAtEndIsTold(rounds: seq<Round>, turns: seq<Turn>, target: Id, id: Id)
    requires |turns| <= |rounds|
    ensures id in HeardAtEnd(rounds, turns, target) <==>
            if Converged(turns) then ToldOf(rounds, |turns| - 1, target, id) || InMainTable(rounds[|turns| - 1], id)
            else ToldOf(rounds, |turns|, target, id)
  {
    if Converged(turns) {
      HeardIsTold(rounds, |turns| - 1, target);
      SeedsHeard(rounds[|turns| - 1], id);
    } else {
      HeardIsTold(rounds, |turns|, target);
    }
  }

  // ---------- the nodes listed ----------

  lemma OfferedBrings(t: Table, x: NodeWrapper, t': Table, y: NodeWrapper)
    requires Offered(t, x, t') && y in t'.Contents()
    ensures y in t.Contents() || y == x
  {
    if t' != t {
      var chumps :| AddStep(t, x, t', chumps);
      assert y in t'.Contents() + multiset(chumps);
    }
  }

  lemma {:induction false} OfferedAllBring(t: Table, xs: seq<NodeWrapper>, t': Table, y: NodeWrapper)
    requires OfferedAll(t, xs, t') && y in t'.Contents()
    ensures y in t.Contents() || y in xs
    decreases |xs|
  {
    if xs != [] {
      var m := FirstOffered(t, xs, t');
      OfferedAllBring(m, xs[1..], t', y);
      if y in m.Contents() {
        OfferedBrings(t, xs[0], m, y);
      }
    }
  }

  /** The round tells of the node, by its id and its address. */
  ghost predicate Tells(round: Round, n: Node) {
    (exists x :: x in round.seeds && x.node == n) || exists at :: Replied(round.replies, n, at)
  }

  ghost predicate SomeTell(rounds: seq<Round>, n: nat, node: Node)
    requires n <= |rounds|
  {
    exists j :: 0 <= j < n && Tells(rounds[j], node)
  }

  lemma TurnTells(t: Table, round: Round, bestIds: seq<Id>, turn: Turn, y: NodeWrapper)
    requires TurnStep(t, round, bestIds, turn) && y in turn.after.Contents()
    ensures y in t.Contents() || Tells(round, y.node)
  {
    if turn.outcome == Asked {
      OfferedAllBring(turn.seeded, Received(round.replies), turn.after, y);
      if y in Received(round.replies) {
        ReceivedIsReplied(round.replies, y);
      }
    }
    if y in turn.seeded.Contents() {
      OfferedAllBring(t, round.seeds, turn.seeded, y);
    }
  }

  /** Each node among m, if not among those before, is told of by that round. */
  ghost predicate ToldNext(ms: seq<Items>, rounds: seq<Round>, i: nat)
    requires i + 1 < |ms| && i < |rounds|
  {
    forall y :: y in ms[i + 1] ==> y in ms[i] || Tells(rounds[i], y.node)
  }

  lemma {:induction false} AllTold(ms: seq<Items>, rounds: seq<Round>, n: nat, y: NodeWrapper)
    requires n < |ms| && n <= |rounds| && ms[0] == multiset{} && y in ms[n]
    requires forall i :: 0 <= i < n ==> ToldNext(ms, rounds, i)
    ensures SomeTell(rounds, n, y.node)
    decreases n
  {
    assert n > 0 && ToldNext(ms, rounds, n - 1);
    if y in ms[n - 1] {
      AllTold(ms, rounds, n - 1, y);
    }
  }

  lemma StoredWasTold(target: Id, rounds: seq<Round>, turns: seq<Turn>, n: nat, y: NodeWrapper)
    requires LookupRun(target, rounds, turns) && n <= |turns| && y in Before(target, turns, n).Contents()
    ensures SomeTell(rounds, n, y.node)
  {
    var ms := seq(n + 1, i requires 0 <= i <= n => Before(target, turns, i).Contents());
    assert ms[0] == multiset{};
    forall i | 0 <= i < n ensures ToldNext(ms, rounds, i) {
      forall y: NodeWrapper | y in ms[i + 1] ensures y in ms[i] || Tells(rounds[i], y.node) {
        TurnAtTells(target, rounds, turns, i, y);
      }
    }
    AllTold(ms, rounds, n, y);
  }

  lemma TurnAtTells(target: Id, rounds: seq<Round>, turns: seq<Turn>, i: nat, y: NodeWrapper)
    requires LookupRun(target, rounds, turns) && i < |turns| && y in turns[i].after.Contents()
    ensures y in Before(target, turns, i).Contents() || Tells(rounds[i], y.node)
  {
    TurnOf(target, rounds, turns, i);
    TurnTells(Before(target, turns, i), rounds[i], BestIds(turns, i), turns[i], y);
  }

  /** Whomever a lookup lists, some round told of him just so, by id and address. */
  lemma ListedWasTold(target: Id, rounds: seq<Round>, turns: seq<Turn>, r: seq<Node>, p: nat)
    requires Lookup(target, rounds, turns, r) && p < |r|
    ensures SomeTell(rounds, |turns|, r[p])
  {
    var m := Before(target, turns, |turns|).Contents();
    var s :| KNearest(m, target, LOOKUP_K, s) && IsListOf(r, s);
    assert s[p] in multiset(s);
    StoredWasTold(target, rounds, turns, |turns|, s[p]);
  }
}
