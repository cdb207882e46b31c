/** Votes on our external address (src/common/ipv4_addr_src.rs), as values: every run of them. */
module Voting {
  import opened Wrappers
  import opened Nodes

  const I32_MAX: int := 0x7fff_ffff

  datatype Vote = Vote(ip: Octets4, votes: int)

  datatype Op = Add(ip: Octets4) | Decay

  // ---------- a stable sort by votes, most first ----------

  predicate MostFirst(s: seq<Vote>) {
    forall i, j :: 0 <= i < j < |s| ==> s[i].votes >= s[j].votes
  }

  /** Puts v behind everything that has at least as many votes. */
  function InsertVote(s: seq<Vote>, v: Vote): (r: seq<Vote>)
    ensures |r| == |s| + 1
  {
    if s == [] || s[0].votes < v.votes then [v] + s else [s[0]] + InsertVote(s[1..], v)
  }

  function SortVotes(s: seq<Vote>): (r: seq<Vote>)
    ensures |r| == |s|
  {
    if s == [] then [] else InsertVote(SortVotes(s[..|s| - 1]), s[|s| - 1])
  }

  /** The entries of s that have exactly n votes, in their order. */
  function Level(s: seq<Vote>, n: int): seq<Vote> {
    if s == [] then [] else (if s[0].votes == n then [s[0]] else []) + Level(s[1..], n)
  }

  lemma {:induction false} LevelConcat(s: seq<Vote>, t: seq<Vote>, n: int)
    ensures Level(s + t, n) == Level(s, n) + Level(t, n)
  {
    if s == [] {
      assert s + t == t;
    } else {
      assert (s + t)[1..] == s[1..] + t;
      LevelConcat(s[1..], t, n);
      var first := if s[0].votes == n then [s[0]] else [];
      assert first + (Level(s[1..], n) + Level(t, n)) == (first + Level(s[1..], n)) + Level(t, n);
    }
  }

  lemma LevelOne(v: Vote, n: int)
    ensures Level([v], n) == if v.votes == n then [v] else []
  {
    assert [v][1..] == [];
  }

  lemma {:induction false} LevelAbsent(s: seq<Vote>, n: int)
    requires forall i :: 0 <= i < |s| ==> s[i].votes != n
    ensures Level(s, n) == []
  {
    if s != [] {
      LevelAbsent(s[1..], n);
    }
  }

  lemma {:induction false} InsertVoteItems(s: seq<Vote>, v: Vote)
    ensures multiset(InsertVote(s, v)) == multiset(s) + multiset{v}
  {
    if !(s == [] || s[0].votes < v.votes) {
      InsertVoteItems(s[1..], v);
      assert s == [s[0]] + s[1..];
    }
  }

  lemma {:induction false} InsertVoteSorted(s: seq<Vote>, v: Vote)
    requires MostFirst(s)
    ensures MostFirst(InsertVote(s, v))
  {
    if !(s == [] || s[0].votes < v.votes) {
      InsertVoteSorted(s[1..], v);
      InsertVoteItems(s[1..], v);
      var rest := InsertVote(s[1..], v);
      forall i | 0 <= i < |rest| ensures rest[i].votes <= s[0].votes {
        assert rest[i] in multiset(rest);
        assert rest[i] in s[1..] || rest[i] == v;
      }
    }
  }

  lemma {:induction false} InsertVoteLevel(s: seq<Vote>, v: Vote, n: int)
    requires MostFirst(s)
    ensures Level(InsertVote(s, v), n) == Level(s, n) + if v.votes == n then [v] else []
  {
    var own := if v.votes == n then [v] else [];
    if s == [] || s[0].votes < v.votes {
      assert ([v] + s)[1..] == s;
      if v.votes == n {
        LevelAbsent(s, n);
      }
    } else {
      InsertVoteLevel(s[1..], v, n);
      var first := if s[0].votes == n then [s[0]] else [];
      assert ([s[0]] + InsertVote(s[1..], v))[1..] == InsertVote(s[1..], v);
      assert first + (Level(s[1..], n) + own) == (first + Level(s[1..], n)) + own;
    }
  }

  lemma LastItem(s: seq<Vote>)
    requires s != []
    ensures multiset(s) == multiset(s[..|s| - 1]) + multiset{s[|s| - 1]}
  {
    assert s == s[..|s| - 1] + [s[|s| - 1]];
  }

  lemma {:induction false} SortVotesItems(s: seq<Vote>)
    ensures multiset(SortVotes(s)) == multiset(s)
  {
    if s != [] {
      var front, last := s[..|s| - 1], s[|s| - 1];
      SortVotesItems(front);
      InsertVoteItems(SortVotes(front), last);
      LastItem(s);
    }
  }

  lemma {:induction false} SortVotesSorted(s: seq<Vote>)
    ensures MostFirst(SortVotes(s))
  {
    if s != [] {
      SortVotesSorted(s[..|s| - 1]);
      InsertVoteSorted(SortVotes(s[..|s| - 1]), s[|s| - 1]);
    }
  }

  lemma LevelLast(s: seq<Vote>, v: Vote, n: int)
    ensures Level(s + [v], n) == Level(s, n) + if v.votes == n then [v] else []
  {
    LevelConcat(s, [v], n);
    LevelOne(v, n);
  }

  lemma {:induction false} SortVotesLevel(s: seq<Vote>, n: int)
    ensures Level(SortVotes(s), n) == Level(s, n)
  {
    if s != [] {
      var m := |s| - 1;
      SortVotesLevel(s[..m], n);
      SortVotesSorted(s[..m]);
      InsertVoteLevel(SortVotes(s[..m]), s[m], n);
      LevelLast(s[..m], s[m], n);
      assert s == s[..m] + [s[m]];
    }
  }

  /** SortVotes is the stable sort: ordered, nothing lost, and ties in their old order. */
  lemma SortVotesIsStable(s: seq<Vote>)
    ensures MostFirst(SortVotes(s))
    ensures multiset(SortVotes(s)) == multiset(s)
    ensures forall n :: Level(SortVotes(s), n) == Level(s, n)
  {
    SortVotesItems(s);
    SortVotesSorted(s);
    forall n ensures Level(SortVotes(s), n) == Level(s, n) {
      SortVotesLevel(s, n);
    }
  }

  // ---------- the operations ----------

  /** One more vote for the first entry of ip, up to the maximum. */
  function Bump(vs: seq<Vote>, ip: Octets4, maxVotes: nat): (r: seq<Vote>)
    ensures |r| == |vs|
  {
    if vs == [] then []
    else if vs[0].ip == ip then [vs[0].(votes := Min(maxVotes, vs[0].votes + 1))] + vs[1..]
    else [vs[0]] + Bump(vs[1..], ip, maxVotes)
  }

  predicate Listed(vs: seq<Vote>, ip: Octets4) {
    exists i :: 0 <= i < |vs| && vs[i].ip == ip
  }

  function Added(vs: seq<Vote>, ip: Octets4, maxVotes: nat): seq<Vote> {
    if Listed(vs, ip) then SortVotes(Bump(vs, ip, maxVotes)) else vs + [Vote(ip, 1)]
  }

  function Decayed(vs: seq<Vote>): seq<Vote> {
    if vs == [] then []
    else
      var v := vs[0].(votes := if vs[0].votes - 1 > 0 then vs[0].votes - 1 else 0);
      (if v.votes > 0 then [v] else []) + Decayed(vs[1..])
  }

  function Apply(vs: seq<Vote>, op: Op, maxVotes: nat): seq<Vote> {
    match op
    case Add(ip) => Added(vs, ip, maxVotes)
    case Decay => Decayed(vs)
  }

  function Run(ops: seq<Op>, maxVotes: nat): seq<Vote> {
    if ops == [] then [] else Apply(Run(ops[..|ops| - 1], maxVotes), ops[|ops| - 1], maxVotes)
  }

  /** The first address on the list, if it has enough votes. */
  function BestOf(vs: seq<Vote>, minVotes: nat): Option<Octets4> {
    if vs != [] && vs[0].votes >= minVotes then Some(vs[0].ip) else None
  }

  // ---------- what every run keeps ----------

  ghost predicate NoDuplicates(vs: seq<Vote>) {
    forall i, j :: 0 <= i < j < |vs| ==> vs[i].ip != vs[j].ip
  }

  ghost predicate InRange(vs: seq<Vote>, maxVotes: nat) {
    forall i :: 0 <= i < |vs| ==> 1 <= vs[i].votes <= maxVotes
  }

  ghost predicate Orderly(vs: seq<Vote>, maxVotes: nat) {
    NoDuplicates(vs) && MostFirst(vs) && InRange(vs, maxVotes)
  }

  lemma {:induction false} BumpAt(vs: seq<Vote>, ip: Octets4, maxVotes: nat) returns (j: nat)
    requires Listed(vs, ip)
    ensures j < |vs| && vs[j].ip == ip
    ensures Bump(vs, ip, maxVotes) == vs[j := vs[j].(votes := Min(maxVotes, vs[j].votes + 1))]
  {
    if vs[0].ip == ip {
      j := 0;
    } else {
      var i :| 0 <= i < |vs| && vs[i].ip == ip;
      assert vs[1..][i - 1].ip == ip;
      j := BumpAt(vs[1..], ip, maxVotes);
      j := j + 1;
    }
  }

  /** The addresses listed, with how often each is. */
  function Addresses(vs: seq<Vote>): (r: seq<Octets4>)
    ensures |r| == |vs|
    ensures forall i :: 0 <= i < |vs| ==> r[i] == vs[i].ip
  {
    seq(|vs|, i requires 0 <= i < |vs| => vs[i].ip)
  }

  lemma {:induction false} AddressesPermuted(s: seq<Vote>, v: Vote)
    ensures multiset(Addresses(InsertVote(s, v))) == multiset(Addresses(s)) + multiset{v.ip}
  {
    if s == [] || s[0].votes < v.votes {
      assert Addresses([v] + s) == [v.ip] + Addresses(s);
    } else {
      AddressesPermuted(s[1..], v);
      assert Addresses([s[0]] + InsertVote(s[1..], v)) == [s[0].ip] + Addresses(InsertVote(s[1..], v));
      assert Addresses(s) == [s[0].ip] + Addresses(s[1..]);
    }
  }

  lemma {:induction false} SortKeepsAddresses(s: seq<Vote>)
    ensures multiset(Addresses(SortVotes(s))) == multiset(Addresses(s))
  {
    if s != [] {
      var m := |s| - 1;
      SortKeepsAddresses(s[..m]);
      AddressesPermuted(SortVotes(s[..m]), s[m]);
      assert Addresses(s) == Addresses(s[..m]) + [s[m].ip];
    }
  }

  lemma {:induction false} AtMostOnce(r: seq<Octets4>)
    requires forall i, j :: 0 <= i < j < |r| ==> r[i] != r[j]
    ensures forall a :: multiset(r)[a] <= 1
  {
    if r != [] {
      var m := |r| - 1;
      AtMostOnce(r[..m]);
      assert r == r[..m] + [r[m]];
      assert r[m] !in r[..m];
    }
  }

  lemma TwiceCounts(r: seq<Octets4>, i: nat, j: nat)
    requires i < j < |r| && r[i] == r[j]
    ensures multiset(r)[r[i]] >= 2
  {
    assert r == r[..j] + r[j..];
    assert r[i] in r[..j] && r[j] in r[j..];
  }

  lemma SortKeepsNoDuplicates(s: seq<Vote>)
    requires NoDuplicates(s)
    ensures NoDuplicates(SortVotes(s))
  {
    var r := Addresses(SortVotes(s));
    SortKeepsAddresses(s);
    AtMostOnce(Addresses(s));
    forall i, j | 0 <= i < j < |r| ensures r[i] != r[j] {
      if r[i] == r[j] {
        TwiceCounts(r, i, j);
      }
    }
  }

  lemma SortKeepsRange(s: seq<Vote>, maxVotes: nat)
    requires InRange(s, maxVotes)
    ensures InRange(SortVotes(s), maxVotes)
  {
    SortVotesIsStable(s);
    forall i | 0 <= i < |s| ensures 1 <= SortVotes(s)[i].votes <= maxVotes {
      assert SortVotes(s)[i] in multiset(SortVotes(s));
      assert SortVotes(s)[i] in s;
    }
  }

  lemma BumpKeeps(vs: seq<Vote>, ip: Octets4, maxVotes: nat)
    requires NoDuplicates(vs) && InRange(vs, maxVotes) && maxVotes >= 1 && Listed(vs, ip)
    ensures NoDuplicates(Bump(vs, ip, maxVotes)) && InRange(Bump(vs, ip, maxVotes), maxVotes)
  {
    var j := BumpAt(vs, ip, maxVotes);
  }

  lemma AddedKeepsOrderly(vs: seq<Vote>, ip: Octets4, maxVotes: nat)
    requires Orderly(vs, maxVotes) && maxVotes >= 1
    ensures Orderly(Added(vs, ip, maxVotes), maxVotes)
  {
    if Listed(vs, ip) {
      var b := Bump(vs, ip, maxVotes);
      BumpKeeps(vs, ip, maxVotes);
      SortVotesSorted(b);
      SortKeepsNoDuplicates(b);
      SortKeepsRange(b, maxVotes);
    } else {
      NewcomerKeeps(vs, ip, maxVotes);
    }
  }

  lemma NewcomerKeeps(vs: seq<Vote>, ip: Octets4, maxVotes: nat)
    requires Orderly(vs, maxVotes) && maxVotes >= 1 && !Listed(vs, ip)
    ensures Orderly(vs + [Vote(ip, 1)], maxVotes)
  {
  }

  /** What remains after decay had one vote more before. */
  lemma {:induction false} DecayedFrom(vs: seq<Vote>, i: nat) returns (j: nat)
    requires i < |Decayed(vs)|
    ensures i <= j < |vs| && Decayed(vs)[i] == vs[j].(votes := vs[j].votes - 1) && vs[j].votes > 1
  {
    if vs[0].votes > 1 && i == 0 {
      j := 0;
    } else {
      j := DecayedFrom(vs[1..], if vs[0].votes > 1 then i - 1 else i);
      j := j + 1;
    }
  }

  lemma DecayedRange(vs: seq<Vote>, maxVotes: nat)
    requires InRange(vs, maxVotes)
    ensures InRange(Decayed(vs), maxVotes)
  {
    forall i | 0 <= i < |Decayed(vs)| ensures 1 <= Decayed(vs)[i].votes <= maxVotes {
      var j := DecayedFrom(vs, i);
    }
  }

  ghost predicate Leads(v: Vote, rest: seq<Vote>) {
    forall i :: 0 <= i < |rest| ==> rest[i].votes <= v.votes && rest[i].ip != v.ip
  }

  lemma HeadFirst(v: Vote, rest: seq<Vote>)
    requires MostFirst(rest) && NoDuplicates(rest) && Leads(v, rest)
    ensures MostFirst([v] + rest) && NoDuplicates([v] + rest)
  {
  }

  lemma DecayedAfterHead(vs: seq<Vote>, rest: seq<Vote>)
    requires vs != [] && MostFirst(vs) && NoDuplicates(vs) && rest == Decayed(vs[1..])
    ensures Leads(vs[0].(votes := vs[0].votes - 1), rest)
  {
    forall i | 0 <= i < |rest| ensures rest[i].votes <= vs[0].votes - 1 && rest[i].ip != vs[0].ip {
      var j := DecayedFrom(vs[1..], i);
      assert vs[1..][j] == vs[j + 1];
    }
  }

  /** Decay keeps the order and the differences of the entries that remain. */
  lemma {:induction false} DecayedSorted(vs: seq<Vote>)
    requires MostFirst(vs) && NoDuplicates(vs)
    ensures MostFirst(Decayed(vs)) && NoDuplicates(Decayed(vs))
  {
    if vs != [] {
      var rest := Decayed(vs[1..]);
      DecayedSorted(vs[1..]);
      DecayedAfterHead(vs, rest);
      if vs[0].votes > 1 {
        HeadFirst(vs[0].(votes := vs[0].votes - 1), rest);
      } else {
        assert Decayed(vs) == [] + rest == rest;
      }
    }
  }

  lemma DecayedKeepsOrderly(vs: seq<Vote>, maxVotes: nat)
    requires Orderly(vs, maxVotes)
    ensures Orderly(Decayed(vs), maxVotes)
  {
    DecayedRange(vs, maxVotes);
    DecayedSorted(vs);
  }

  /**
    Over every run of votes and decays the list has no duplicates, the most voted come first, and no
    entry leaves 1..maxVotes.
   */
  lemma {:induction false} RunIsOrderly(ops: seq<Op>, maxVotes: nat)
    requires maxVotes >= 1
    ensures Orderly(Run(ops, maxVotes), maxVotes)
  {
    if ops != [] {
      var before := Run(ops[..|ops| - 1], maxVotes);
      RunIsOrderly(ops[..|ops| - 1], maxVotes);
      match ops[|ops| - 1]
      case Add(ip) => AddedKeepsOrderly(before, ip, maxVotes);
      case Decay => DecayedKeepsOrderly(before, maxVotes);
    }
  }

  /** Reading only the first entry gives a true maximum. */
  ghost predicate FirstIsMost(vs: seq<Vote>) {
    forall i :: 0 <= i < |vs| ==> vs[i].votes <= vs[0].votes
  }

  /** Reading only the first entry is right over all runs exactly if at least one vote may be counted. */
  lemma FirstIsMostUnlessNoVoteCounts(maxVotes: nat)
    ensures (forall ops :: FirstIsMost(Run(ops, maxVotes))) <==> maxVotes >= 1
  {
    if maxVotes >= 1 {
      forall ops ensures FirstIsMost(Run(ops, maxVotes)) {
        RunIsOrderly(ops, maxVotes);
      }
    } else {
      var ops := NoVoteCounts();
      assert !FirstIsMost(Run(ops, maxVotes));
    }
  }

  /** With a maximum of zero a second vote takes the first one back, and a newcomer is listed last with more. */
  lemma NoVoteCounts() returns (ops: seq<Op>)
    ensures !FirstIsMost(Run(ops, 0))
  {
    var a: Octets4, b: Octets4 := [1, 1, 1, 1], [2, 2, 2, 2];
    var one, two := [Add(a)], [Add(a), Add(a)];
    ops := [Add(a), Add(a), Add(b)];
    assert one[..0] == [] && two[..1] == one && ops[..2] == two;
    assert Run(one, 0) == [] + [Vote(a, 1)] == [Vote(a, 1)];
    var bumped := Bump([Vote(a, 1)], a, 0);
    assert [Vote(a, 1)][0].ip == a;
    assert bumped == [Vote(a, 0)];
    assert bumped[..0] == [];
    assert SortVotes(bumped) == InsertVote(SortVotes([]), Vote(a, 0)) == [Vote(a, 0)];
    assert Run(two, 0) == [Vote(a, 0)];
    assert a[0] != b[0];
    assert !Listed([Vote(a, 0)], b);
    var vs := Run(ops, 0);
    assert vs == [Vote(a, 0)] + [Vote(b, 1)];
    assert vs[1].votes > vs[0].votes;
  }

  // ---------- who leads ----------

  lemma {:induction false} SortHead(s: seq<Vote>, h: nat)
    requires h < |s|
    requires forall i :: 0 <= i < h ==> s[i].votes < s[h].votes
    requires forall i :: h < i < |s| ==> s[i].votes <= s[h].votes
    ensures SortVotes(s)[0] == s[h]
  {
    var m := |s| - 1;
    if h < m {
      SortHead(s[..m], h);
    } else if m > 0 {
      SortVotesIsStable(s[..m]);
      assert SortVotes(s[..m])[0] in multiset(SortVotes(s[..m]));
    }
  }

  /**
    A vote changes the leader only to the address voted for, and only if that has strictly overtaken
    the old leader.
   */
  lemma LeaderIsOvertaken(vs: seq<Vote>, ip: Octets4, maxVotes: nat)
    requires Orderly(vs, maxVotes) && maxVotes >= 1 && vs != []
    ensures var vs' := Added(vs, ip, maxVotes);
            vs'[0].ip != vs[0].ip ==> vs'[0].ip == ip && vs'[0].votes > vs[0].votes
  {
    if Listed(vs, ip) {
      var j := BumpAt(vs, ip, maxVotes);
      var b := Bump(vs, ip, maxVotes);
      if b[j].votes > vs[0].votes {
        SortHead(b, j);
      } else {
        SortHead(b, 0);
      }
    }
  }

  /** Decay never changes the leader while any entry remains. */
  lemma DecayKeepsLeader(vs: seq<Vote>, maxVotes: nat)
    requires Orderly(vs, maxVotes) && Decayed(vs) != []
    ensures vs != [] && Decayed(vs)[0].ip == vs[0].ip
  {
    var j := DecayedFrom(vs, 0);
    assert vs[0].votes >= vs[j].votes > 1;
  }
}
