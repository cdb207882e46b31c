/** Outstanding requests and the responses to them, as values: every run of them. */
module Requests {
  import opened Wrappers
  import opened Ids
  import opened Nodes
  import opened Messages

  datatype RequestInfo = RequestInfo(addr: SocketAddr, id: Option<Id>, packet: Message, createdAt: Instant)

  type Store = map<Bytes, RequestInfo>

  datatype Event =
    | AddRequest(info: RequestInfo)
    | TakeMatching(msg: Message, src: SocketAddr)
    | PruneOlderThan(duration: nat, now: Instant)

  /**
    The response msg from src answers the stored request: it comes from the address
    asked, from the node asked, and is of the right kind.
   */
  predicate Answers(msg: Message, src: SocketAddr, info: RequestInfo) {
    && msg.messageType.ResponseMessage?
    && info.addr == src
    && (info.id.None? || AuthorId(msg) == info.id)
    && info.packet.messageType.RequestMessage?
    && ResponseMatchesRequest(msg.messageType.response, info.packet.messageType.request)
  }

  function Matching(store: Store, msg: Message, src: SocketAddr): Option<RequestInfo> {
    if msg.transactionId in store && Answers(msg, src, store[msg.transactionId])
    then Some(store[msg.transactionId]) else None
  }

  /** The store after an event and the request handed out by it. */
  function Step(store: Store, e: Event): (Store, Option<RequestInfo>) {
    match e
    case AddRequest(info) => (store[info.packet.transactionId := info], None)
    case TakeMatching(msg, src) =>
      var out := Matching(store, msg, src);
      (if out.Some? then store - {msg.transactionId} else store, out)
    case PruneOlderThan(duration, now) =>
      (if now < duration then store
       else map tid | tid in store && store[tid].createdAt >= now - duration :: store[tid], None)
  }

  function Run(events: seq<Event>): Store {
    if events == [] then map[] else Step(Run(events[..|events| - 1]), events[|events| - 1]).0
  }

  /** The requests handed out, with how often each was. */
  function HandedOut(events: seq<Event>): multiset<RequestInfo> {
    if events == [] then multiset{}
    else
      var n := |events| - 1;
      HandedOut(events[..n]) +
      match Step(Run(events[..n]), events[n]).1 case None => multiset{} case Some(info) => multiset{info}
  }

  function AddedTo(events: seq<Event>): multiset<RequestInfo> {
    if events == [] then multiset{}
    else
      var n := |events| - 1;
      AddedTo(events[..n]) + if events[n].AddRequest? then multiset{events[n].info} else multiset{}
  }

  /** Under which transaction ids a request is stored. */
  function Under(store: Store, info: RequestInfo): set<Bytes> {
    set tid | tid in store && store[tid] == info
  }

  // ---------- what a match is ----------

  /** The pairs of kinds that belong together; a ping response serves for an announcement too. */
  predicate KindsBelong(res: Response, req: Request) {
    || (res.PingResponse? && req.PingRequest?)
    || (res.PingResponse? && req.AnnouncePeerRequest?)
    || (res.FindNodeResponse? && req.FindNodeRequest?)
    || (res.GetPeersResponse? && req.GetPeersRequest?)
    || (res.SampleInfoHashesResponse? && req.SampleInfoHashesRequest?)
  }

  /**
    The message is a response that agrees with the request info in address, the id recorded, if
    there is one, and kind.
   */
  predicate Agrees(msg: Message, src: SocketAddr, info: RequestInfo) {
    && src == info.addr
    && msg.messageType.ResponseMessage? && info.packet.messageType.RequestMessage?
    && (info.id == None || info.id == Some(msg.messageType.response.responderId))
    && KindsBelong(msg.messageType.response, info.packet.messageType.request)
  }

  /** A response hands out what is stored under its transaction id exactly if it agrees with that. */
  lemma MatchIsAgreement(store: Store, msg: Message, src: SocketAddr, info: RequestInfo)
    ensures Step(store, TakeMatching(msg, src)).1 == Some(info) <==>
            msg.transactionId in store && store[msg.transactionId] == info && Agrees(msg, src, info)
  {
  }

  // ---------- what every run keeps ----------

  /** Every request is stored under its own transaction id. */
  ghost predicate Keyed(store: Store) {
    forall tid :: tid in store ==> store[tid].packet.transactionId == tid
  }

  lemma StepKeepsKeyed(store: Store, e: Event)
    requires Keyed(store)
    ensures Keyed(Step(store, e).0)
  {
  }

  lemma {:induction false} RunIsKeyed(events: seq<Event>)
    ensures Keyed(Run(events))
  {
    if events != [] {
      RunIsKeyed(events[..|events| - 1]);
      StepKeepsKeyed(Run(events[..|events| - 1]), events[|events| - 1]);
    }
  }

  lemma UnderAtMostOne(store: Store, info: RequestInfo)
    requires Keyed(store)
    ensures Under(store, info) <= {info.packet.transactionId}
    ensures |Under(store, info)| <= 1
    ensures |Under(store, info)| == 1 <==>
              info.packet.transactionId in store && store[info.packet.transactionId] == info
  {
    var u := Under(store, info);
    if info.packet.transactionId in u {
      assert u == {info.packet.transactionId};
    } else {
      assert u == {};
    }
  }

  /** What a step hands out it no longer stores, and it stores nothing that was not stored or added. */
  lemma StepBalance(store: Store, e: Event, info: RequestInfo)
    requires Keyed(store)
    ensures var (store', out) := Step(store, e);
            (if out == Some(info) then 1 else 0) + |Under(store', info)|
            <= |Under(store, info)| + if e == AddRequest(info) then 1 else 0
  {
    StepKeepsKeyed(store, e);
    UnderAtMostOne(store, info);
    UnderAtMostOne(Step(store, e).0, info);
  }

  /**
    Over any interleaving of additions, responses and prunings, no request is
    handed out and still stored more often than it was added: each is handed out
    at most once.
   */
  lemma {:induction false} HandedOutAtMostOnce(events: seq<Event>, info: RequestInfo)
    ensures HandedOut(events)[info] + |Under(Run(events), info)| <= AddedTo(events)[info]
  {
    if events != [] {
      var n := |events| - 1;
      HandedOutAtMostOnce(events[..n], info);
      RunIsKeyed(events[..n]);
      StepBalance(Run(events[..n]), events[n], info);
    }
  }

  /** The last request added under tid before event j is that of event i. */
  ghost predicate LastAdded(events: seq<Event>, i: nat, j: nat, tid: Bytes)
    requires i < j <= |events|
  {
    && events[i].AddRequest? && events[i].info.packet.transactionId == tid
    && forall l :: i < l < j && events[l].AddRequest? ==> events[l].info.packet.transactionId != tid
  }

  /** Whatever is stored is what was added last under its transaction id. */
  lemma {:induction false} StoredWasAdded(events: seq<Event>, tid: Bytes) returns (i: nat)
    requires tid in Run(events)
    ensures i < |events| && LastAdded(events, i, |events|, tid) && events[i].info == Run(events)[tid]
  {
    var n := |events| - 1;
    if events[n].AddRequest? && events[n].info.packet.transactionId == tid {
      i := n;
    } else {
      i := StoredWasAdded(events[..n], tid);
      assert events[..n][i] == events[i];
      forall l | i < l < |events| && events[l].AddRequest? ensures events[l].info.packet.transactionId != tid {
        if l < n {
          assert events[..n][l] == events[l];
        }
      }
    }
  }

  lemma AddedLonger(events: seq<Event>, n: nat, i: nat, j: nat, tid: Bytes)
    requires i < j <= n <= |events| && LastAdded(events[..n], i, j, tid)
    ensures LastAdded(events, i, j, tid) && events[..n][i] == events[i]
  {
    forall l | i < l < j && events[l].AddRequest? ensures events[l].info.packet.transactionId != tid {
      assert events[..n][l] == events[l];
    }
  }

  /** Event j answers the request info that event i added, the last one of its transaction id before. */
  ghost predicate AnsweredBy(events: seq<Event>, info: RequestInfo, i: nat, j: nat) {
    && i < j < |events| && events[i] == AddRequest(info)
    && LastAdded(events, i, j, info.packet.transactionId)
    && events[j].TakeMatching?
    && events[j].msg.transactionId == info.packet.transactionId
    && Agrees(events[j].msg, events[j].src, info)
  }

  /**
    Over any interleaving, each time a request is handed out it was added before, was not replaced
    since by another request of its transaction id, and is answered by the response that takes it.
   */
  lemma HandedOutIsAnswered(events: seq<Event>, j: nat, info: RequestInfo) returns (i: nat)
    requires j < |events| && Step(Run(events[..j]), events[j]).1 == Some(info)
    ensures AnsweredBy(events, info, i, j)
  {
    RunIsKeyed(events[..j]);
    i := StoredWasAdded(events[..j], info.packet.transactionId);
    AddedLonger(events, j, i, j, info.packet.transactionId);
  }

  /** A response that hands out nothing leaves the store as it is; one that does removes that request alone. */
  lemma TakeLeavesTheRest(store: Store, msg: Message, src: SocketAddr, tid: Bytes)
    ensures var (store', out) := Step(store, TakeMatching(msg, src));
            && (out.None? ==> store' == store)
            && (tid in store' <==> tid in store && !(tid == msg.transactionId && Agrees(msg, src, store[tid])))
            && (tid in store' ==> store'[tid] == store[tid])
  {
  }

  /** The event replaces, answers or prunes the stored request info. */
  predicate Ends(e: Event, info: RequestInfo) {
    match e
    case AddRequest(other) => other.packet.transactionId == info.packet.transactionId
    case TakeMatching(msg, src) => msg.transactionId == info.packet.transactionId && Agrees(msg, src, info)
    case PruneOlderThan(duration, now) => now >= duration && info.createdAt < now - duration
  }

  ghost predicate StoredIn(store: Store, info: RequestInfo) {
    info.packet.transactionId in store && store[info.packet.transactionId] == info
  }

  lemma StaysUnlessEnded(store: Store, e: Event, info: RequestInfo)
    requires !(e.AddRequest? && e.info.packet.transactionId == info.packet.transactionId)
    ensures StoredIn(Step(store, e).0, info) <==> StoredIn(store, info) && !Ends(e, info)
  {
    if e.TakeMatching? {
      TakeLeavesTheRest(store, e.msg, e.src, info.packet.transactionId);
    }
  }

  lemma LastAddedNext(events: seq<Event>, i: nat, tid: Bytes)
    requires i < |events| - 1
    ensures var n := |events| - 1;
            LastAdded(events, i, n + 1, tid) <==>
              && LastAdded(events[..n], i, n, tid)
              && !(events[n].AddRequest? && events[n].info.packet.transactionId == tid)
  {
    var n := |events| - 1;
    forall l | 0 <= l < n ensures events[..n][l] == events[l] {
    }
    if LastAdded(events, i, n + 1, tid) {
      assert LastAdded(events[..n], i, n, tid);
    }
  }

  /**
    Over any interleaving, the request that event i added is still the one stored under its
    transaction id exactly if no later event replaces, answers or prunes it: no other response loses it.
   */
  lemma {:induction false} StoredUntilEnded(events: seq<Event>, i: nat)
    requires i < |events| && events[i].AddRequest?
    ensures var info := events[i].info;
            StoredIn(Run(events), info) && LastAdded(events, i, |events|, info.packet.transactionId) <==>
              forall l :: i < l < |events| ==> !Ends(events[l], info)
    decreases |events|
  {
    var n, info := |events| - 1, events[i].info;
    if i < n {
      var front := events[..n];
      assert front[i] == events[i];
      StoredUntilEnded(front, i);
      assert forall l :: 0 <= l < n ==> front[l] == events[l];
      LastAddedNext(events, i, info.packet.transactionId);
      if !(events[n].AddRequest? && events[n].info.packet.transactionId == info.packet.transactionId) {
        StaysUnlessEnded(Run(front), events[n], info);
      }
    }
  }

  /** Event i added info, and no event between i and j replaced, answered or pruned it. */
  ghost predicate Outstanding(events: seq<Event>, info: RequestInfo, i: nat, j: nat) {
    i < j <= |events| && events[i] == AddRequest(info) && forall l :: i < l < j ==> !Ends(events[l], info)
  }

  /**
    Over any interleaving, a response hands a request out exactly if it has its transaction id, agrees with it,
    and the request is outstanding: added before, and neither replaced nor answered nor pruned since.
   */
  lemma HandedOutExactlyIfAgreed(events: seq<Event>, j: nat, info: RequestInfo)
    requires j < |events| && events[j].TakeMatching?
    ensures Step(Run(events[..j]), events[j]).1 == Some(info) <==>
            && events[j].msg.transactionId == info.packet.transactionId && Agrees(events[j].msg, events[j].src, info)
            && exists i :: Outstanding(events, info, i, j)
  {
    var front := events[..j];
    var tid := info.packet.transactionId;
    RunIsKeyed(front);
    MatchIsAgreement(Run(front), events[j].msg, events[j].src, info);
    if StoredIn(Run(front), info) {
      var i := StoredWasAdded(front, tid);
      StoredIsOutstanding(events, j, info, i);
    }
    if i :| Outstanding(events, info, i, j) {
      StoredIsOutstanding(events, j, info, i);
    }
  }

  lemma StoredIsOutstanding(events: seq<Event>, j: nat, info: RequestInfo, i: nat)
    requires i < j <= |events| && events[i] == AddRequest(info)
    ensures Outstanding(events, info, i, j) <==>
            StoredIn(Run(events[..j]), info) && LastAdded(events[..j], i, j, info.packet.transactionId)
  {
    var front := events[..j];
    assert forall l :: 0 <= l < j ==> front[l] == events[l];
    StoredUntilEnded(front, i);
  }
}
