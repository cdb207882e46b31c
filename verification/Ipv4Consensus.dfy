/** The consensus object (src/common/ipv4_addr_src.rs): a list of votes changed and sorted in place. */
module Ipv4Consensus {
  import opened Wrappers
  import opened Nodes
  import opened Voting

  class Ipv4Consensus {
    const minVotes: nat
    const maxVotes: nat
    var votes: seq<Vote>

    constructor (minVotes: nat, maxVotes: nat)
      ensures votes == [] && this.minVotes == minVotes && this.maxVotes == maxVotes
    {
      this.minVotes := minVotes;
      this.maxVotes := maxVotes;
      this.votes := [];
    }

    /** The first address on the list, if it has enough votes. */
    method GetBestIpv4() returns (r: Option<Octets4>)
      requires votes != [] ==> minVotes <= I32_MAX
      ensures r == BestOf(votes, minVotes)
      ensures Orderly(votes, maxVotes) ==>
                match r
                case Some(ip) =>
                  exists i :: 0 <= i < |votes| && votes[i].ip == ip && votes[i].votes >= minVotes &&
                              forall j :: 0 <= j < |votes| ==> votes[j].votes <= votes[i].votes
                case None => forall j :: 0 <= j < |votes| ==> votes[j].votes < minVotes
    {
      if votes != [] && votes[0].votes >= minVotes {
        r := Some(votes[0].ip);
      } else {
        r := None;
      }
    }

    /** A vote for an address; counting past the largest 32-bit integer aborts. */
    method AddVote(proposed: Octets4)
      requires Listed(votes, proposed) ==> maxVotes <= I32_MAX
      requires forall i :: 0 <= i < |votes| && votes[i].ip == proposed ==> votes[i].votes < I32_MAX
      modifies this`votes
      ensures votes == Added(old(votes), proposed, maxVotes)
    {
      var doSort := false;
      for i := 0 to |votes|
        invariant votes == old(votes) && !doSort
        invariant forall j :: 0 <= j < i ==> votes[j].ip != proposed
      {
        if votes[i].ip == proposed {
          BumpFirst(votes, proposed, maxVotes, i);
          votes := votes[i := votes[i].(votes := Min(maxVotes, votes[i].votes + 1))];
          doSort := true;
          break;
        }
      }
      if doSort {
        votes := StableSort(votes);
      } else {
        votes := votes + [Vote(proposed, 1)];
      }
    }

    method Decay()
      modifies this`votes
      ensures votes == Decayed(old(votes))
    {
      for i := 0 to |votes|
        invariant |votes| == |old(votes)|
        invariant forall j :: 0 <= j < |votes| ==>
                    votes[j] == if j < i then Lowered(old(votes)[j]) else old(votes)[j]
      {
        votes := votes[i := votes[i].(votes := if votes[i].votes - 1 > 0 then votes[i].votes - 1 else 0)];
      }
      LoweredThenKept(old(votes), votes);
      votes := Positive(votes);
    }
  }

  function Lowered(v: Vote): Vote {
    v.(votes := if v.votes - 1 > 0 then v.votes - 1 else 0)
  }

  /** Vec::retain of the entries that still have votes. */
  function Positive(vs: seq<Vote>): seq<Vote> {
    if vs == [] then [] else (if vs[0].votes > 0 then [vs[0]] else []) + Positive(vs[1..])
  }

  lemma {:induction false} LoweredThenKept(vs: seq<Vote>, lowered: seq<Vote>)
    requires |lowered| == |vs| && forall j :: 0 <= j < |vs| ==> lowered[j] == Lowered(vs[j])
    ensures Positive(lowered) == Decayed(vs)
  {
    if vs != [] {
      LoweredThenKept(vs[1..], lowered[1..]);
    }
  }

  lemma {:induction false} BumpFirst(vs: seq<Vote>, ip: Octets4, maxVotes: nat, i: nat)
    requires i < |vs| && vs[i].ip == ip && forall j :: 0 <= j < i ==> vs[j].ip != ip
    ensures Bump(vs, ip, maxVotes) == vs[i := vs[i].(votes := Min(maxVotes, vs[i].votes + 1))]
  {
    if i > 0 {
      BumpFirst(vs[1..], ip, maxVotes, i - 1);
    }
  }

  /** The library's stable sort, most votes first. */
  method StableSort(s: seq<Vote>) returns (r: seq<Vote>)
    ensures r == SortVotes(s)
    ensures MostFirst(r) && multiset(r) == multiset(s) && forall n :: Level(r, n) == Level(s, n)
  {
    r := [];
    for i := 0 to |s|
      invariant r == SortVotes(s[..i])
    {
      assert s[..i + 1][..i] == s[..i];
      r := InsertVote(r, s[i]);
    }
    assert s[..|s|] == s;
    SortVotesIsStable(s);
  }
}
