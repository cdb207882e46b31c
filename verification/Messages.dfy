/** The messages of the protocol as a program sees them (src/packets/public.rs). */
module Messages {
  import opened Wrappers
  import opened Ids
  import opened Nodes

  type Bytes = seq<bv8>

  type I32 = x: int | -0x8000_0000 <= x <= 0x7fff_ffff

  const U64_SIZE: nat := 0x1_0000_0000_0000_0000

  /** A span of time in whole seconds and the nanoseconds beyond them. */
  datatype Duration = Duration(secs: nat, nanos: nat)

  predicate Continuation(b: bv8) {
    0x80 <= b <= 0xbf
  }

  /** The bytes of a Rust string: well-formed UTF-8 (table 3-7 of the Unicode standard). */
  predicate IsUtf8(b: Bytes)
    decreases |b|
  {
    if b == [] then true
    else if b[0] <= 0x7f then IsUtf8(b[1..])
    else if |b| >= 2 && 0xc2 <= b[0] <= 0xdf then Continuation(b[1]) && IsUtf8(b[2..])
    else if |b| >= 3 && 0xe0 <= b[0] <= 0xef then
      && (if b[0] == 0xe0 then 0xa0 <= b[1] <= 0xbf
          else if b[0] == 0xed then 0x80 <= b[1] <= 0x9f
          else Continuation(b[1]))
      && Continuation(b[2]) && IsUtf8(b[3..])
    else if |b| >= 4 && 0xf0 <= b[0] <= 0xf4 then
      && (if b[0] == 0xf0 then 0x90 <= b[1] <= 0xbf
          else if b[0] == 0xf4 then 0x80 <= b[1] <= 0x8f
          else Continuation(b[1]))
      && Continuation(b[2]) && Continuation(b[3]) && IsUtf8(b[4..])
    else false
  }

  type Utf8String = b: Bytes | IsUtf8(b) witness []

  datatype Request =
    | PingRequest(requesterId: Id)
    | FindNodeRequest(target: Id, requesterId: Id)
    | GetPeersRequest(infoHash: Id, requesterId: Id)
    | SampleInfoHashesRequest(target: Id, requesterId: Id)
    | AnnouncePeerRequest(requesterId: Id, infoHash: Id, port: bv16, impliedPort: Option<bool>, token: Bytes)

  datatype PeerValues = NodeValues(nodes: seq<Node>) | PeerAddrs(peers: seq<SocketAddr>)

  datatype Response =
    | PingResponse(responderId: Id)
    | FindNodeResponse(responderId: Id, nodes: seq<Node>)
    | GetPeersResponse(responderId: Id, token: Bytes, values: PeerValues)
    | SampleInfoHashesResponse(responderId: Id, interval: Duration, nodes: seq<Node>, samples: seq<Id>, num: I32)

  datatype MessageType =
    | RequestMessage(request: Request)
    | ResponseMessage(response: Response)
    | ErrorMessage(code: I32, description: Utf8String)

  datatype Message = Message(
    transactionId: Bytes,
    version: Option<Bytes>,
    requesterIp: Option<SocketAddr>,
    messageType: MessageType,
    readOnly: Option<bool>)

  /** The id of a message's sender; error messages do not carry one. */
  function AuthorId(m: Message): Option<Id> {
    match m.messageType
    case RequestMessage(r) => Some(r.requesterId)
    case ResponseMessage(r) => Some(r.responderId)
    case ErrorMessage(_, _) => None
  }

  /** A ping response also answers an announcement: the two responses look the same. */
  predicate ResponseMatchesRequest(res: Response, req: Request) {
    match res
    case PingResponse(_) => req.PingRequest? || req.AnnouncePeerRequest?
    case FindNodeResponse(_, _) => req.FindNodeRequest?
    case GetPeersResponse(_, _, _) => req.GetPeersRequest?
    case SampleInfoHashesResponse(_, _, _, _, _) => req.SampleInfoHashesRequest?
  }
}
