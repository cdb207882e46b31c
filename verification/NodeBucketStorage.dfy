/**
  The node storage object (src/storage/node_bucket_storage.rs): two routing tables
  that its methods change in place.
 */
module NodeBucketStorage {
  import opened Wrappers
  import opened Ids
  import opened Nodes
  import opened Tables
  import opened Nearest
  import opened Storages
  import Buckets

  class NodeBucketStorage {
    const verified: Buckets.Buckets
    const unverified: Buckets.Buckets

    ghost function View(): Storage
      reads this, verified, unverified
    {
      Storage(verified.View(), unverified.View())
    }

    ghost predicate Valid()
      reads this, verified, unverified
    {
      verified != unverified && Sound(View())
    }

    constructor (ourId: Id, k: nat)
      ensures Valid() && fresh(verified) && fresh(unverified)
      ensures View() == Storage(EmptyTable(ourId, k), EmptyTable(ourId, k))
    {
      verified := new Buckets.Buckets(ourId, k);
      unverified := new Buckets.Buckets(ourId, k);
    }

    method AddOrUpdateLastSeen(node: Node, now: Instant)
      requires Valid()
      modifies verified, unverified
      ensures Valid() && SeenStep(old(View()), node, now, View())
    {
      var slot := verified.GetMut(node.id);
      if slot.Some? {
        ghost var x := verified.At(slot.value);
        verified.Write(slot.value, Seen(verified.At(slot.value), now));
        assert x.node.id == node.id && Updated(old(View()).verified, x, Seen(x, now), View().verified);
      } else {
        slot := unverified.GetMut(node.id);
        if slot.Some? {
          ghost var x := unverified.At(slot.value);
          unverified.Write(slot.value, Seen(unverified.At(slot.value), now));
          assert x.node.id == node.id && Updated(old(View()).unverified, x, Seen(x, now), View().unverified);
        } else {
          var lost := unverified.Add(NewWrapper(node, now));
        }
      }
    }

    /** Adds a node to the verified table and whatever it pushes out to the unverified one. */
    method Admit(item: NodeWrapper)
      requires Valid()
      modifies verified, unverified
      ensures Valid() && Admitted(old(View()), item, View())
    {
      ghost var s := View();
      var chumpList := verified.Add(item);
      ghost var v := verified.View();
      for i := 0 to |chumpList|
        invariant verified.View() == v && unverified.View().Valid()
        invariant unverified.ourId == s.unverified.ourId
        invariant i == 0 ==> unverified.View() == s.unverified
        invariant i == 1 ==> exists lost :: AddStep(s.unverified, chumpList[0], unverified.View(), lost)
      {
        var lost := unverified.Add(chumpList[i]);
      }
    }

    method AddOrUpdateVerified(node: Node, now: Instant, later: Instant)
      requires Valid()
      modifies verified, unverified
      ensures Valid() && VerifiedStep(old(View()), node, now, later, View())
    {
      ghost var s := View();
      // Already stored as unverified: move it, and let what overflows come back.
      var item := unverified.Remove(node.id);
      if item.Some? {
        ghost var u := unverified.View();
        assert Removed(s.unverified, item.value, u);
        Admit(Verified(item.value, now));
        assert Promoted(s, item.value, now, View());
      } else {
        assert unverified.View() == s.unverified;
        var slot := verified.GetMut(node.id);
        if slot.Some? {
          ghost var x := verified.At(slot.value);
          verified.Write(slot.value, Verified(verified.At(slot.value), now));
          assert x.node.id == node.id && Updated(s.verified, x, Verified(x, now), View().verified);
        } else {
          assert View() == s;
          Admit(Verified(NewWrapper(node, later), now));
        }
      }
    }

    method AddOrUpdate(node: Node, isVerified: bool, now: Instant, later: Instant)
      requires Valid()
      modifies verified, unverified
      ensures Valid() && Step(old(View()), Op.AddOrUpdate(node, isVerified, now, later), View())
    {
      if isVerified {
        AddOrUpdateVerified(node, now, later);
      } else {
        AddOrUpdateLastSeen(node, now);
      }
    }

    method Clear()
      requires Valid()
      modifies verified, unverified
      ensures Valid() && Step(old(View()), Op.Clear, View())
    {
      unverified.Clear();
      verified.Clear();
      EmptyKeeps(verified.ourId, verified.k, 0);
    }

    method SetId(newId: Id)
      requires Valid()
      modifies verified, unverified
      ensures Valid() && Step(old(View()), Op.SetId(newId), View())
    {
      verified.SetId(newId);
      unverified.SetId(newId);
      EmptyKeeps(newId, verified.k, 0);
    }

    method RetainVerified(time: Instant)
      requires Valid()
      modifies verified
      ensures SameShape(old(View()).verified, View().verified)
      ensures forall x {:trigger View().verified.Contents()[x]} ::
                View().verified.Contents()[x] == if KeepVerified(x, time) then old(View().verified.Contents())[x] else 0
    {
      verified.Retain(x => KeepVerified(x, time));
    }

    method RetainUnverified(time: Instant, unverifiedTime: Instant)
      requires View().unverified.Valid()
      modifies unverified
      ensures SameShape(old(View()).unverified, View().unverified)
      ensures forall x {:trigger View().unverified.Contents()[x]} ::
                View().unverified.Contents()[x] ==
                  if KeepUnverified(x, time, unverifiedTime) then old(View().unverified.Contents())[x] else 0
    {
      unverified.Retain(x => KeepUnverified(x, time, unverifiedTime));
    }

    /** The clock is read twice; a grace period reaching back before its start disables pruning. */
    method Prune(grace: nat, unverifiedGrace: nat, now: Instant, later: Instant)
      requires Valid()
      modifies verified, unverified
      ensures Valid() && Step(old(View()), Op.Prune(grace, unverifiedGrace, now, later), View())
    {
      if now >= grace {
        var time := now - grace;
        if later >= unverifiedGrace {
          var unverifiedTime := later - unverifiedGrace;
          RetainVerified(time);
          RetainUnverified(time, unverifiedTime);
        }
      }
    }

    /** The numbers of unverified and of verified nodes. */
    method Count() returns (n: (nat, nat))
      requires Valid()
      ensures n.0 == |View().unverified.Contents()| && n.1 == |View().verified.Contents()|
      ensures n.0 + n.1 == |View().All()|
    {
      var u := unverified.Count();
      var v := verified.Count();
      n := (u, v);
    }

    /** The nearest verified nodes to an id, without their bookkeeping. */
    method GetNearestNodes(id: Id, exclude: Option<Id>) returns (r: seq<Node>)
      requires Valid()
      ensures exists s ::
                IsListOf(r, s) && KNearest(Without(View().verified.Contents(), exclude), id, View().verified.k, s)
    {
      var nearest := verified.GetNearestNodes(id, exclude);
      r := seq(|nearest|, i requires 0 <= i < |nearest| => nearest[i].node);
      assert IsListOf(r, nearest);
    }
  }
}
