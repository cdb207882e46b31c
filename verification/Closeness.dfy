/**
  When a lookup finds the nodes nearest to its target of all it heard of, and when
  it does not: a table forgets the newest node of a full class, however near it is.
 */
module Closeness {
  import opened Wrappers
  import opened Ids
  import opened Nodes
  import opened Tables
  import opened Nearest
  import opened BucketRuns
  import opened Lookups
  import opened LookupRuns

  /** r lists k nearest of the ids, or all of them if there are no more, nearest first. */
  ghost predicate NearestOf(r: seq<Node>, ids: set<Id>, target: Id, k: nat) {
    && |ResultIds(r)| == |r| == Min(k, |ids|)
    && ResultIds(r) <= ids
    && (forall i, j :: 0 <= i < j < |r| ==> Distance(r[i].id, target) <= Distance(r[j].id, target))
    && forall i, id :: 0 <= i < |r| && id in ids - ResultIds(r) ==> Distance(r[i].id, target) <= Distance(id, target)
  }

  /** The class in which k ids, counted from the nearest, come to an end holds no more than k of them. */
  ghost predicate CutoffFits(ids: set<Id>, target: Id, k: nat) {
    forall d :: IsCutoff(ids, target, k, d) ==> |Sharing(ids, target, d)| <= k
  }

  /** d is the longest prefix shared with the target by k of the ids or more. */
  ghost predicate IsCutoff(ids: set<Id>, target: Id, k: nat, d: nat) {
    |Reaching(ids, target, d)| >= k > |Reaching(ids, target, d + 1)|
  }

  // ---------- nothing nearer is missed ----------

  lemma SharingIds(m: Items, target: Id, c: nat)
    ensures IdsOf(Exact(m, target, c)) == Sharing(IdsOf(m), target, c)
  {
    var e := Exact(m, target, c);
    forall id | id in Sharing(IdsOf(m), target, c) ensures id in IdsOf(e) {
      var y :| y in m && y.node.id == id;
      assert y in e;
    }
    forall id | id in IdsOf(e) ensures id in Sharing(IdsOf(m), target, c) {
      var y :| y in e && y.node.id == id;
      assert y in m;
    }
  }

  lemma SharingStored(m: Items, target: Id, c: nat)
    requires Distinct(m)
    ensures |Sharing(IdsOf(m), target, c)| == |Exact(m, target, c)|
  {
    SharingIds(m, target, c);
    DistinctSubset(Exact(m, target, c), m);
    DistinctSize(Exact(m, target, c));
  }

  /** If an id heard of is not stored, more than k ids of its prefix length were heard of. */
  lemma ForgottenMeansCrowd(t: Table, heard: set<Id>, id: Id)
    requires Knows(t, heard) && id in heard - {t.ourId} && id !in IdsOf(t.Contents())
    ensures |t.Class(Prefix(t.ourId, id))| == t.k
    ensures |Sharing(heard - {t.ourId}, t.ourId, Prefix(t.ourId, id))| > t.k
  {
    var c := Prefix(t.ourId, id);
    var stored := Sharing(IdsOf(t.Contents()), t.ourId, c);
    SharingStored(t.Contents(), t.ourId, c);
    StoredWasHeard(t, heard, 0);
    forall x | x in stored ensures x in heard - {t.ourId} {
      assert x in Reaching(IdsOf(t.Contents()), t.ourId, 0);
    }
    SetSubsetSize(stored + {id}, Sharing(heard - {t.ourId}, t.ourId, c));
  }

  lemma SharingReaches(ids: set<Id>, target: Id, d: nat)
    ensures |Sharing(ids, target, d)| <= |Reaching(ids, target, d)|
  {
    SetSubsetSize(Sharing(ids, target, d), Reaching(ids, target, d));
  }

  /** A heard id that an answer leaves out is no nearer than any node listed. */
  lemma LeftOutIsFarther(t: Table, heard: set<Id>, s: seq<NodeWrapper>, p: nat, id: Id)
    requires Knows(t, heard) && KNearest(t.Contents(), t.ourId, t.k, s) && p < |s|
    requires id in heard - {t.ourId} && id !in IdsOf(multiset(s))
    requires CutoffFits(heard - {t.ourId}, t.ourId, t.k)
    ensures Distance(s[p].node.id, t.ourId) <= Distance(id, t.ourId)
  {
    if id in IdsOf(t.Contents()) {
      var x :| x in t.Contents() && x.node.id == id;
      assert x in t.Contents() - multiset(s);
      assert Far(s[p], t.ourId) <= Far(x, t.ourId);
    } else {
      ForgottenMeansCrowd(t, heard, id);
      ListedReachesPast(t, heard, s, p, id);
      LongerPrefixIsNearer(t.ourId, s[p].node.id, id);
      DistanceLaws(s[p].node.id, t.ourId, t.ourId);
      DistanceLaws(id, t.ourId, t.ourId);
    }
  }

  /** The class of a forgotten id is full, so unless it is the cutoff class the answer ends before it. */
  lemma ListedReachesPast(t: Table, heard: set<Id>, s: seq<NodeWrapper>, p: nat, id: Id)
    requires Knows(t, heard) && KNearest(t.Contents(), t.ourId, t.k, s) && p < |s|
    requires |t.Class(Prefix(t.ourId, id))| == t.k
    requires |Sharing(heard - {t.ourId}, t.ourId, Prefix(t.ourId, id))| > t.k
    requires CutoffFits(heard - {t.ourId}, t.ourId, t.k)
    ensures Prefix(t.ourId, s[p].node.id) > Prefix(t.ourId, id)
  {
    var c := Prefix(t.ourId, id);
    if Prefix(t.ourId, s[p].node.id) <= c {
      PositionFromHeard(t, heard, s, p, c + 1);
      SharingReaches(heard - {t.ourId}, t.ourId, c);
      assert IsCutoff(heard - {t.ourId}, t.ourId, t.k, c);
    }
  }

  lemma AnswerIsNearest(t: Table, heard: set<Id>, s: seq<NodeWrapper>, r: seq<Node>)
    requires Knows(t, heard) && KNearest(t.Contents(), t.ourId, t.k, s) && IsListOf(r, s)
    requires CutoffFits(heard - {t.ourId}, t.ourId, t.k)
    ensures NearestOf(r, heard - {t.ourId}, t.ourId, t.k)
  {
    var ids := heard - {t.ourId};
    AnswerCoversHeard(t, heard, s, r);
    assert Reaching(ResultIds(r), t.ourId, 0) == ResultIds(r) && Reaching(ids, t.ourId, 0) == ids;
    ResultOf(t.Contents(), s, r);
    forall i, id | 0 <= i < |r| && id in ids - ResultIds(r)
      ensures Distance(r[i].id, t.ourId) <= Distance(id, t.ourId)
    {
      LeftOutIsFarther(t, heard, s, i, id);
    }
  }

  /** A lookup finds the nearest of all ids heard of if their cutoff class is not crowded. */
  lemma LookupFindsNearest(target: Id, rounds: seq<Round>, turns: seq<Turn>, r: seq<Node>)
    requires Lookup(target, rounds, turns, r)
    ensures var heard := HeardAtEnd(rounds, turns, target) - {target};
            CutoffFits(heard, target, LOOKUP_K) ==> NearestOf(r, heard, target, LOOKUP_K)
  {
    EndIsAware(target, rounds, turns);
    var t := Before(target, turns, |turns|);
    var s :| KNearest(t.Contents(), target, LOOKUP_K, s) && IsListOf(r, s);
    if CutoffFits(HeardAtEnd(rounds, turns, target) - {target}, target, LOOKUP_K) {
      AnswerIsNearest(t, HeardAtEnd(rounds, turns, target), s, r);
    }
  }

  // ---------- a crowd hides the nearest ----------

  /** Of a class of more than k nodes offered, the newest is not stored. */
  lemma NewestIsForgotten(t: Table, xs: seq<NodeWrapper>, z: NodeWrapper)
    requires Refines(t, Added(xs, t.ourId)) && Distinct(multiset(xs)) && z in xs && z.node.id != t.ourId
    requires |Sharing(IdsIn(xs) - {t.ourId}, t.ourId, Prefix(t.ourId, z.node.id))| > t.k
    requires forall x :: x in xs && x != z && Prefix(t.ourId, x.node.id) == Prefix(t.ourId, z.node.id) ==>
               x.firstSeen < z.firstSeen
    ensures z.node.id !in IdsOf(t.Contents())
  {
    var added, d := Added(xs, t.ourId), Prefix(t.ourId, z.node.id);
    AddedIds(xs, t.ourId);
    SharingStored(added, t.ourId, d);
    assert KOldest(t.k, Exact(added, t.ourId, d), t.Class(d));
    assert z in multiset(xs);
    NewestOfClass(t, added, multiset(xs), z);
  }

  lemma NewestOfClass(t: Table, added: Items, xs: Items, z: NodeWrapper)
    requires t.Contents() <= added <= xs && Distinct(xs) && z in xs
    requires KOldest(t.k, Exact(added, t.ourId, Prefix(t.ourId, z.node.id)), t.Class(Prefix(t.ourId, z.node.id)))
    requires |Exact(added, t.ourId, Prefix(t.ourId, z.node.id))| > t.k
    requires forall x :: x in xs && x != z && Prefix(t.ourId, x.node.id) == Prefix(t.ourId, z.node.id) ==>
               x.firstSeen < z.firstSeen
    ensures z.node.id !in IdsOf(t.Contents())
  {
    var d := Prefix(t.ourId, z.node.id);
    var all := Exact(added, t.ourId, d);
    forall x | x in all ensures x in xs && Prefix(t.ourId, x.node.id) == d {
      assert x in added;
    }
    assert all[z] <= added[z] <= xs[z] == 1;
    NotAmongOldest(t.k, all, t.Class(d), z);
    assert t.Contents()[z] == t.Class(d)[z];
    forall x | x in t.Contents() ensures x.node.id != z.node.id {
      assert x in added && x in xs;
    }
  }

  lemma NotAmongOldest(k: nat, all: Items, kept: Items, z: NodeWrapper)
    requires KOldest(k, all, kept) && |all| > k && all[z] <= 1
    requires forall x :: x in all && x != z ==> x.firstSeen < z.firstSeen
    ensures z !in kept
  {
    var w := LeftBehind(all, kept);
    assert z in kept ==> w != z;
  }

  lemma LeftBehind(all: Items, kept: Items) returns (w: NodeWrapper)
    requires |kept| < |all|
    ensures w in all && w in all - kept && all[w] > kept[w]
  {
    if all <= kept {
      SubsetSize(all, kept);
    }
    w :| w in all && all[w] > kept[w];
  }

  lemma AddedIds(xs: seq<NodeWrapper>, target: Id)
    requires Distinct(multiset(xs))
    ensures Added(xs, target) <= multiset(xs) && Distinct(Added(xs, target))
    ensures IdsOf(Added(xs, target)) == IdsIn(xs) - {target}
  {
    AddedIsTheOthers(xs, target);
    DistinctSubset(Added(xs, target), multiset(xs));
    IdsOfOthers(multiset(xs), target, Added(xs, target));
  }

  lemma IdsOfOthers(m: Items, target: Id, others: Items)
    requires forall x :: others[x] == if x.node.id == target then 0 else m[x]
    ensures IdsOf(others) == IdsOf(m) - {target}
  {
    forall id | id in IdsOf(m) - {target} ensures id in IdsOf(others) {
      var x :| x in m && x.node.id == id;
      assert x in others;
    }
    forall id | id in IdsOf(others) ensures id in IdsOf(m) - {target} {
      var x :| x in others && x.node.id == id;
      assert x in m;
    }
  }

  /** If the nearest id of the cutoff class is not listed, something farther is. */
  lemma FartherIsListed(target: Id, heard: set<Id>, r: seq<Node>, k: nat, z: Id, d: nat)
    requires CoversHeard(r, heard, target, k) && IsCutoff(heard - {target}, target, k, d)
    requires z in Sharing(heard - {target}, target, d) && z !in ResultIds(r)
    requires forall id :: id in Sharing(heard - {target}, target, d) ==> Distance(z, target) <= Distance(id, target)
    ensures exists i :: 0 <= i < |r| && Distance(z, target) < Distance(r[i].id, target)
  {
    var listed := ResultIds(r);
    assert |Reaching(listed, target, d)| == k > |Reaching(listed, target, d + 1)|;
    if Reaching(listed, target, d) <= Reaching(listed, target, d + 1) {
      SetSubsetSize(Reaching(listed, target, d), Reaching(listed, target, d + 1));
    }
    var id :| id in Reaching(listed, target, d) && id !in Reaching(listed, target, d + 1);
    var n :| n in r && n.id == id;
    var i :| 0 <= i < |r| && r[i] == n;
    assert id in Sharing(heard - {target}, target, d);
    NoTwoAsFar(target, z, id);
  }

  lemma NoTwoAsFar(target: Id, a: Id, b: Id)
    requires a != b
    ensures Distance(a, target) != Distance(b, target)
  {
    DistanceLaws(a, target, target);
    DistanceLaws(b, target, target);
    DistanceLaws(target, a, b);
  }

  lemma {:induction false} NearestExists(ids: set<Id>, target: Id) returns (z: Id)
    requires ids != {}
    ensures z in ids && forall id :: id in ids ==> Distance(z, target) <= Distance(id, target)
  {
    z :| z in ids;
    if ids != {z} {
      var y := NearestExists(ids - {z}, target);
      forall id | id in ids
        ensures Distance(z, target) <= Distance(id, target) || Distance(y, target) <= Distance(id, target)
      {
        if id != z {
          assert id in ids - {z};
        }
      }
      if Distance(y, target) < Distance(z, target) {
        z := y;
      }
    }
  }

  /** A list of nodes with the given ids, of which z alone is new. */
  lemma {:induction false} NodesExist(ids: set<Id>, z: Id) returns (xs: seq<NodeWrapper>)
    ensures Distinct(multiset(xs)) && IdsIn(xs) == ids
    ensures forall x :: x in xs ==> x.firstSeen == if x.node.id == z then 1 else 0
    decreases ids
  {
    if ids == {} {
      xs := [];
    } else {
      var id :| id in ids;
      var rest := NodesExist(ids - {id}, z);
      var x := NewWrapper(Node(id, V4([127, 0, 0, 1], 6881)), if id == z then 1 else 0);
      xs := [x] + rest;
      OneMoreNode(x, rest);
    }
  }

  lemma OneMoreNode(x: NodeWrapper, rest: seq<NodeWrapper>)
    requires Distinct(multiset(rest)) && x.node.id !in IdsIn(rest)
    ensures Distinct(multiset([x] + rest)) && IdsIn([x] + rest) == IdsIn(rest) + {x.node.id}
  {
    assert multiset([x] + rest) == multiset(rest) + multiset{x};
    IdsOfBoth(multiset(rest), multiset{x});
    DistinctAdd(multiset(rest), x);
  }

  /** A turn without replies ends with the table it was seeded to. */
  lemma NoReplies(t: Table, round: Round, xs: seq<NodeWrapper>, bestIds: seq<Id>, turn: Turn)
    requires TurnStep(t, round, bestIds, turn) && round.seeds == xs && round.replies == []
    ensures OfferedAll(t, xs, turn.after) && turn.seeded == turn.after
  {
    assert Received([]) == [];
  }

  /** A single round that seeds the table with xs and brings no replies. */
  predicate OneRoundOf(rounds: seq<Round>, xs: seq<NodeWrapper>) {
    |rounds| == 1 && rounds[0].seeds == xs && rounds[0].replies == []
  }

  lemma HeardInOneRound(target: Id, rounds: seq<Round>, xs: seq<NodeWrapper>)
    requires OneRoundOf(rounds, xs)
    ensures HeardAtQuery(rounds, 0, target) == Heard(rounds, 1, target) == IdsIn(xs)
  {
    HeardNext(rounds, 0, target);
    assert Heard(rounds, 0, target) == {};
    assert Received([]) == [] && IdsIn([]) == {};
  }

  /** The table of a lookup of one round without replies holds what it was seeded with, as far as it goes. */
  lemma OneRound(target: Id, rounds: seq<Round>, xs: seq<NodeWrapper>, turns: seq<Turn>, r: seq<Node>)
    requires OneRoundOf(rounds, xs) && Lookup(target, rounds, turns, r) && Distinct(multiset(xs))
    ensures |turns| == 1 && turns[0].after.ourId == target && turns[0].after.k == LOOKUP_K
    ensures Refines(turns[0].after, Added(xs, target))
    ensures HeardAtEnd(rounds, turns, target) == IdsIn(xs)
  {
    OnlyTurn(target, rounds, xs, turns, r);
    SeededRefines(target, xs, turns[0].after);
    HeardInOneRound(target, rounds, xs);
  }

  lemma OnlyTurn(target: Id, rounds: seq<Round>, xs: seq<NodeWrapper>, turns: seq<Turn>, r: seq<Node>)
    requires OneRoundOf(rounds, xs) && Lookup(target, rounds, turns, r)
    ensures |turns| == 1 && OfferedAll(EmptyTable(target, LOOKUP_K), xs, turns[0].after)
  {
    TurnOf(target, rounds, turns, 0);
    NoReplies(EmptyTable(target, LOOKUP_K), rounds[0], xs, BestIds(turns, 0), turns[0]);
  }

  lemma SeededRefines(target: Id, xs: seq<NodeWrapper>, t: Table)
    requires OfferedAll(EmptyTable(target, LOOKUP_K), xs, t) && Distinct(multiset(xs))
    ensures t.ourId == target && t.k == LOOKUP_K && Refines(t, Added(xs, target))
  {
    EmptyRefines(target, LOOKUP_K);
    assert xs[0..] == xs && xs[..0] == [];
    OfferedRefines(EmptyTable(target, LOOKUP_K), xs, 0, t);
  }

  /** With a crowded cutoff class some ages hide the nearest id of it from a lookup of one round. */
  lemma CrowdHidesNearest(target: Id, heard: set<Id>, d: nat)
    returns (rounds: seq<Round>, turns: seq<Turn>, r: seq<Node>)
    requires IsCutoff(heard - {target}, target, LOOKUP_K, d)
    requires |Sharing(heard - {target}, target, d)| > LOOKUP_K
    ensures Lookup(target, rounds, turns, r) && HeardAtEnd(rounds, turns, target) == heard
    ensures !NearestOf(r, heard - {target}, target, LOOKUP_K)
  {
    var z := NearestExists(Sharing(heard - {target}, target, d), target);
    var xs := NodesExist(heard, z);
    rounds := [Round(xs, [])];
    turns, r := LookupExists(target, rounds);
    HiddenByAge(target, rounds, xs, turns, r, z, d);
  }

  /** Whatever the lookup of one round does, the newest of the crowd is missed. */
  lemma HiddenByAge(
      target: Id, rounds: seq<Round>, xs: seq<NodeWrapper>, turns: seq<Turn>, r: seq<Node>, z: Id, d: nat)
    requires OneRoundOf(rounds, xs) && Lookup(target, rounds, turns, r) && Distinct(multiset(xs))
    requires IsCutoff(IdsIn(xs) - {target}, target, LOOKUP_K, d)
    requires z in Sharing(IdsIn(xs) - {target}, target, d)
    requires |Sharing(IdsIn(xs) - {target}, target, d)| > LOOKUP_K
    requires forall id :: id in Sharing(IdsIn(xs) - {target}, target, d) ==> Distance(z, target) <= Distance(id, target)
    requires forall x :: x in xs ==> x.firstSeen == if x.node.id == z then 1 else 0
    ensures HeardAtEnd(rounds, turns, target) == IdsIn(xs)
    ensures !NearestOf(r, IdsIn(xs) - {target}, target, LOOKUP_K)
  {
    OneRound(target, rounds, xs, turns, r);
    NearestIsNew(turns[0].after, xs, z, d);
    ForgottenIsMissed(target, rounds, turns, r, z, d);
  }

  /** A lookup that forgot the nearest id of the cutoff class lists something farther instead. */
  lemma ForgottenIsMissed(target: Id, rounds: seq<Round>, turns: seq<Turn>, r: seq<Node>, z: Id, d: nat)
    requires Lookup(target, rounds, turns, r) && turns != []
    requires z !in IdsOf(turns[|turns| - 1].after.Contents())
    requires var ids := HeardAtEnd(rounds, turns, target) - {target};
             && IsCutoff(ids, target, LOOKUP_K, d)
             && z in Sharing(ids, target, d)
             && forall id :: id in Sharing(ids, target, d) ==> Distance(z, target) <= Distance(id, target)
    ensures !NearestOf(r, HeardAtEnd(rounds, turns, target) - {target}, target, LOOKUP_K)
  {
    NotListed(target, rounds, turns, r, z);
    LookupCoversHeard(target, rounds, turns, r);
    FartherIsListed(target, HeardAtEnd(rounds, turns, target), r, LOOKUP_K, z, d);
  }

  lemma NearestIsNew(t: Table, xs: seq<NodeWrapper>, z: Id, d: nat)
    requires Refines(t, Added(xs, t.ourId)) && Distinct(multiset(xs))
    requires z in Sharing(IdsIn(xs) - {t.ourId}, t.ourId, d)
    requires |Sharing(IdsIn(xs) - {t.ourId}, t.ourId, d)| > t.k
    requires forall x :: x in xs ==> x.firstSeen == if x.node.id == z then 1 else 0
    ensures z !in IdsOf(t.Contents())
  {
    var x: NodeWrapper :| x in multiset(xs) && x.node.id == z;
    forall y | y in xs && y != x && Prefix(t.ourId, y.node.id) == d ensures y.firstSeen < x.firstSeen {
      assert y in multiset(xs);
    }
    NewestIsForgotten(t, xs, x);
  }

  lemma NotListed(target: Id, rounds: seq<Round>, turns: seq<Turn>, r: seq<Node>, z: Id)
    requires Lookup(target, rounds, turns, r) && turns != []
    requires z !in IdsOf(turns[|turns| - 1].after.Contents())
    ensures z !in ResultIds(r)
  {
    var m := turns[|turns| - 1].after.Contents();
    var s :| KNearest(m, target, LOOKUP_K, s) && IsListOf(r, s);
    EndIsAware(target, rounds, turns);
    ResultOf(m, s, r);
    forall x: NodeWrapper | x in multiset(s) ensures x.node.id != z {
      assert x in m;
    }
  }

  /**
    The documented purpose of a lookup, for all ids it may hear of: every lookup that hears
    of just these lists the nearest of them exactly if, of the class where eight of them
    come to an end, there are no more than eight.
   */
  lemma FindsNearestUnlessCrowded(target: Id, heard: set<Id>)
    ensures CutoffFits(heard - {target}, target, LOOKUP_K) <==>
            forall rounds, turns, r ::
              Lookup(target, rounds, turns, r) && HeardAtEnd(rounds, turns, target) == heard ==>
              NearestOf(r, heard - {target}, target, LOOKUP_K)
  {
    if CutoffFits(heard - {target}, target, LOOKUP_K) {
      forall rounds, turns, r | Lookup(target, rounds, turns, r) && HeardAtEnd(rounds, turns, target) == heard
        ensures NearestOf(r, heard - {target}, target, LOOKUP_K)
      {
        LookupFindsNearest(target, rounds, turns, r);
      }
    } else {
      var d :| IsCutoff(heard - {target}, target, LOOKUP_K, d) && |Sharing(heard - {target}, target, d)| > LOOKUP_K;
      var rounds, turns, r := CrowdHidesNearest(target, heard, d);
    }
  }
}
