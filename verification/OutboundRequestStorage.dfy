/** The store of outstanding requests (src/storage/outbound_request_storage.rs), a map changed in place. */
module OutboundRequestStorage {
  import opened Wrappers
  import opened Nodes
  import opened Messages
  import opened Requests

  class OutboundRequestStorage {
    var requests: map<Bytes, RequestInfo>

    constructor ()
      ensures requests == map[]
    {
      requests := map[];
    }

    method AddRequest(info: RequestInfo)
      modifies this
      ensures requests == Step(old(requests), Event.AddRequest(info)).0
    {
      requests := requests[info.packet.transactionId := info];
    }

    method GetMatchingRequestInfo(msg: Message, src: SocketAddr) returns (r: Option<RequestInfo>)
      ensures r == Matching(requests, msg, src)
      ensures forall info :: r == Some(info) <==>
                msg.transactionId in requests && requests[msg.transactionId] == info && Agrees(msg, src, info)
    {
      r := None;
      match msg.messageType {
        case ResponseMessage(response) =>
          if msg.transactionId in requests {
            var info := requests[msg.transactionId];
            if info.addr == src {
              var sender := AuthorId(msg);
              if info.id.None? || (sender.Some? && info.id.value == sender.value) {
                match info.packet.messageType {
                  case RequestMessage(request) =>
                    if ResponseMatchesRequest(response, request) {
                      r := Some(info);
                    }
                  case _ =>
                }
              }
            }
          }
        case _ =>
      }
    }

    method TakeMatchingRequestInfo(msg: Message, src: SocketAddr) returns (r: Option<RequestInfo>)
      modifies this
      ensures (requests, r) == Step(old(requests), TakeMatching(msg, src))
      ensures forall info :: r == Some(info) <==>
                && msg.transactionId in old(requests) && old(requests)[msg.transactionId] == info
                && Agrees(msg, src, info)
    {
      r := GetMatchingRequestInfo(msg, src);
      if r.Some? {
        requests := requests - {msg.transactionId};
      }
    }

    method PruneOlderThan(duration: nat, now: Instant)
      modifies this
      ensures requests == Step(old(requests), Event.PruneOlderThan(duration, now)).0
    {
      if now >= duration {
        var time := now - duration;
        requests := map tid | tid in requests && requests[tid].createdAt >= time :: requests[tid];
      }
    }
  }
}
