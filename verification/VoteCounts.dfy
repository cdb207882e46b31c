/**
  What the list of votes stands for (src/common/ipv4_addr_src.rs): a number of votes for
  every address, which votes raise and decay lowers, and the address that has most of them.
 */
module VoteCounts {
  import opened Wrappers
  import opened Nodes
  import opened Voting

  /** The votes of an address, none if it is not listed. */
  function VotesFor(vs: seq<Vote>, ip: Octets4): int {
    if vs == [] then 0 else if vs[0].ip == ip then vs[0].votes else VotesFor(vs[1..], ip)
  }

  lemma {:induction false} VotesAt(vs: seq<Vote>, i: nat)
    requires NoDuplicates(vs) && i < |vs|
    ensures VotesFor(vs, vs[i].ip) == vs[i].votes
  {
    if i > 0 {
      VotesAt(vs[1..], i - 1);
    }
  }

  lemma {:induction false} Unlisted(vs: seq<Vote>, ip: Octets4)
    requires !Listed(vs, ip)
    ensures VotesFor(vs, ip) == 0
  {
    if vs != [] {
      assert vs[0].ip != ip && forall i :: 0 <= i < |vs[1..]| ==> vs[1..][i].ip != ip;
      Unlisted(vs[1..], ip);
    }
  }

  // ---------- a decay ----------

  /** The entry that a decay leaves of one: it goes when its last vote does. */
  lemma {:induction false} DecayedAt(vs: seq<Vote>, i: nat)
    requires i < |vs| && vs[i].votes > 1
    ensures vs[i].(votes := vs[i].votes - 1) in Decayed(vs)
  {
    if i > 0 {
      DecayedAt(vs[1..], i - 1);
    }
  }

  /** A decay takes one vote from every address that has any. */
  lemma DecayLowers(vs: seq<Vote>, maxVotes: nat, ip: Octets4)
    requires Orderly(vs, maxVotes)
    ensures VotesFor(Decayed(vs), ip) == if VotesFor(vs, ip) > 0 then VotesFor(vs, ip) - 1 else 0
  {
    DecayedKeepsOrderly(vs, maxVotes);
    if Listed(Decayed(vs), ip) {
      var i :| 0 <= i < |Decayed(vs)| && Decayed(vs)[i].ip == ip;
      var j := DecayedFrom(vs, i);
      VotesAt(Decayed(vs), i);
      VotesAt(vs, j);
    } else {
      Unlisted(Decayed(vs), ip);
      if j :| 0 <= j < |vs| && vs[j].ip == ip {
        VotesAt(vs, j);
        if vs[j].votes > 1 {
          DecayedAt(vs, j);
        }
      } else {
        Unlisted(vs, ip);
      }
    }
  }

  // ---------- a vote ----------

  lemma SameEntriesSameVotes(vs: seq<Vote>, vs': seq<Vote>, ip: Octets4)
    requires NoDuplicates(vs) && NoDuplicates(vs') && multiset(vs) == multiset(vs')
    ensures VotesFor(vs, ip) == VotesFor(vs', ip)
  {
    if i :| 0 <= i < |vs| && vs[i].ip == ip {
      assert vs[i] in multiset(vs');
      var j :| 0 <= j < |vs'| && vs'[j] == vs[i];
      VotesAt(vs, i);
      VotesAt(vs', j);
    } else {
      forall j | 0 <= j < |vs'| ensures vs'[j].ip != ip {
        assert vs'[j] in multiset(vs);
      }
      Unlisted(vs, ip);
      Unlisted(vs', ip);
    }
  }

  lemma OneEntryChanged(vs: seq<Vote>, j: nat, n: int, ip: Octets4)
    requires NoDuplicates(vs) && j < |vs|
    ensures VotesFor(vs[j := vs[j].(votes := n)], ip) == if vs[j].ip == ip then n else VotesFor(vs, ip)
  {
    var vs' := vs[j := vs[j].(votes := n)];
    if i :| 0 <= i < |vs| && vs[i].ip == ip {
      assert vs'[i].ip == ip;
      VotesAt(vs, i);
      VotesAt(vs', i);
    } else {
      Unlisted(vs, ip);
      Unlisted(vs', ip);
    }
  }

  lemma {:induction false} LastEntryAdded(vs: seq<Vote>, v: Vote, ip: Octets4)
    requires !Listed(vs, v.ip)
    ensures VotesFor(vs + [v], ip) == if v.ip == ip then v.votes else VotesFor(vs, ip)
  {
    if vs != [] {
      assert vs[0].ip != v.ip && (vs + [v])[1..] == vs[1..] + [v];
      assert forall i :: 0 <= i < |vs[1..]| ==> vs[1..][i].ip != v.ip;
      LastEntryAdded(vs[1..], v, ip);
    }
  }

  /** A vote gives one more, up to the maximum, to the address voted for, and leaves all others as they are. */
  lemma VoteRaises(vs: seq<Vote>, maxVotes: nat, voted: Octets4, ip: Octets4)
    requires Orderly(vs, maxVotes) && maxVotes >= 1
    ensures VotesFor(Added(vs, voted, maxVotes), ip) ==
            if ip == voted then Min(maxVotes, VotesFor(vs, ip) + 1) else VotesFor(vs, ip)
  {
    if Listed(vs, voted) {
      BumpRaises(vs, maxVotes, voted, ip);
    } else {
      Unlisted(vs, voted);
      LastEntryAdded(vs, Vote(voted, 1), ip);
    }
  }

  lemma BumpRaises(vs: seq<Vote>, maxVotes: nat, voted: Octets4, ip: Octets4)
    requires Orderly(vs, maxVotes) && maxVotes >= 1 && Listed(vs, voted)
    ensures VotesFor(SortVotes(Bump(vs, voted, maxVotes)), ip) ==
            if ip == voted then Min(maxVotes, VotesFor(vs, ip) + 1) else VotesFor(vs, ip)
  {
    var j := BumpAt(vs, voted, maxVotes);
    VotesAt(vs, j);
    OneEntryChanged(vs, j, Min(maxVotes, vs[j].votes + 1), ip);
    BumpKeeps(vs, voted, maxVotes);
    SortKeepsVotes(Bump(vs, voted, maxVotes), ip);
  }

  lemma SortKeepsVotes(vs: seq<Vote>, ip: Octets4)
    requires NoDuplicates(vs)
    ensures VotesFor(SortVotes(vs), ip) == VotesFor(vs, ip)
  {
    SortKeepsNoDuplicates(vs);
    SortVotesItems(vs);
    SameEntriesSameVotes(SortVotes(vs), vs, ip);
  }

  // ---------- runs ----------

  /** The votes an address has after these operations: each vote for it counts, each decay takes one. */
  function Tally(ops: seq<Op>, maxVotes: nat, ip: Octets4): nat {
    if ops == [] then 0
    else
      var n := Tally(ops[..|ops| - 1], maxVotes, ip);
      match ops[|ops| - 1]
      case Add(voted) => if voted == ip && n < maxVotes then n + 1 else n
      case Decay => if n > 0 then n - 1 else 0
  }

  /** The list counts the votes of every address, over every run. */
  lemma {:induction false} RunCountsVotes(ops: seq<Op>, maxVotes: nat, ip: Octets4)
    requires maxVotes >= 1
    ensures VotesFor(Run(ops, maxVotes), ip) == Tally(ops, maxVotes, ip) <= maxVotes
  {
    if ops != [] {
      var front, last := ops[..|ops| - 1], ops[|ops| - 1];
      RunCountsVotes(front, maxVotes, ip);
      RunIsOrderly(front, maxVotes);
      ApplyCounts(Run(front, maxVotes), last, maxVotes, ip, Tally(front, maxVotes, ip));
    }
  }

  lemma ApplyCounts(vs: seq<Vote>, op: Op, maxVotes: nat, ip: Octets4, n: nat)
    requires maxVotes >= 1 && Orderly(vs, maxVotes) && VotesFor(vs, ip) == n <= maxVotes
    ensures VotesFor(Apply(vs, op, maxVotes), ip) ==
            match op
            case Add(voted) => if voted == ip && n < maxVotes then n + 1 else n
            case Decay => if n > 0 then n - 1 else 0
  {
    match op
    case Add(voted) => VoteRaises(vs, maxVotes, voted, ip);
    case Decay => DecayLowers(vs, maxVotes, ip);
  }

  /** Over all runs it does exactly if at least one vote may be counted. */
  lemma CountsVotesUnlessNoneCounts(maxVotes: nat)
    ensures (forall ops, ip :: VotesFor(Run(ops, maxVotes), ip) == Tally(ops, maxVotes, ip)) <==> maxVotes >= 1
  {
    if maxVotes >= 1 {
      forall ops, ip ensures VotesFor(Run(ops, maxVotes), ip) == Tally(ops, maxVotes, ip) {
        RunCountsVotes(ops, maxVotes, ip);
      }
    } else {
      var a: Octets4 := [1, 1, 1, 1];
      var one := [Add(a)];
      assert one[..0] == [];
      assert Run(one, 0) == [] + [Vote(a, 1)] == [Vote(a, 1)];
      assert VotesFor(Run(one, maxVotes), a) == 1 && Tally(one, maxVotes, a) == 0;
    }
  }

  /** An address that no other has more votes than, and that has enough of them. */
  ghost predicate MostVoted(ops: seq<Op>, maxVotes: nat, minVotes: nat, ip: Octets4) {
    && Tally(ops, maxVotes, ip) >= minVotes && Tally(ops, maxVotes, ip) >= 1
    && forall other :: Tally(ops, maxVotes, other) <= Tally(ops, maxVotes, ip)
  }

  /**
    Over every run the address given as the best is one with most votes, and one is given
    exactly if some address has enough votes, and any at all.
   */
  lemma BestIsMostVoted(ops: seq<Op>, maxVotes: nat, minVotes: nat)
    requires maxVotes >= 1
    ensures var best := BestOf(Run(ops, maxVotes), minVotes);
            && (best.Some? ==> MostVoted(ops, maxVotes, minVotes, best.value))
            && (best.None? ==> forall ip :: Tally(ops, maxVotes, ip) < minVotes || Tally(ops, maxVotes, ip) == 0)
  {
    var vs := Run(ops, maxVotes);
    RunIsOrderly(ops, maxVotes);
    forall ip ensures Tally(ops, maxVotes, ip) <= if vs == [] then 0 else vs[0].votes {
      RunCountsVotes(ops, maxVotes, ip);
      if i :| 0 <= i < |vs| && vs[i].ip == ip {
        VotesAt(vs, i);
      } else {
        Unlisted(vs, ip);
      }
    }
    if vs != [] {
      RunCountsVotes(ops, maxVotes, vs[0].ip);
      VotesAt(vs, 0);
    }
  }
}
