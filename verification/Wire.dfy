/**
  The structures that go on the wire (src/packets/internal.rs) and the conversions
  between them and messages (src/packets/public.rs).
 */
module Wire {
  import opened Wrappers
  import opened Ids
  import opened Nodes
  import opened Messages
  import opened Compact

  /** The longest interval announced for sampling info hashes, in seconds: 6 hours. */
  const MAX_SCRAPE_INTERVAL: nat := 21600

  type I64 = x: int | -0x8000_0000_0000_0000 <= x <= 0x7fff_ffff_ffff_ffff

  datatype Bencode = IntValue(value: I64) | BytesValue(bytes: Bytes) | OtherValue

  datatype WireRequest =
    | WPing(id: Bytes)
    | WFindNode(id: Bytes, target: Bytes)
    | WGetPeers(id: Bytes, infoHash: Bytes)
    | WSampleInfoHashes(id: Bytes, target: Bytes)
    | WAnnouncePeer(id: Bytes, infoHash: Bytes, port: bv16, token: Bytes, impliedPort: Option<bv8>)

  datatype WireResponse =
    | WGetPeersR(id: Bytes, token: Bytes, maybeNodes: Option<Bytes>, values: Option<seq<Bytes>>)
    | WSampleInfoHashesR(id: Bytes, interval: I32, nodes: Bytes, num: I32, samples: Bytes)
    | WFindNodeR(id: Bytes, nodes: Bytes)
    | WPingR(id: Bytes)

  datatype Variant =
    | WRequest(request: WireRequest)
    | WResponse(response: WireResponse)
    | WError(errorInfo: seq<Bencode>)

  datatype DHTMessage = DHTMessage(
    transactionId: Bytes, version: Option<Bytes>, variant: Variant, ip: Option<Bytes>, readOnly: Option<I32>)

  // ---------- to the wire ----------

  function EncodeRequest(r: Request): WireRequest {
    match r
    case PingRequest(id) => WPing(id)
    case FindNodeRequest(target, id) => WFindNode(id, target)
    case GetPeersRequest(infoHash, id) => WGetPeers(id, infoHash)
    case SampleInfoHashesRequest(target, id) => WSampleInfoHashes(id, target)
    case AnnouncePeerRequest(id, infoHash, port, impliedPort, token) =>
      WAnnouncePeer(id, infoHash, port, token,
                    match impliedPort case None => None case Some(p) => Some(if p then 1 else 0))
  }

  function EncodeResponse(r: Response): WireResponse {
    match r
    case FindNodeResponse(id, nodes) => WFindNodeR(id, EncodeNodes(nodes))
    case GetPeersResponse(id, token, values) =>
      WGetPeersR(id, token,
                 if values.NodeValues? then Some(EncodeNodes(values.nodes)) else None,
                 if values.PeerAddrs? then Some(EncodePeers(values.peers)) else None)
    case PingResponse(id) => WPingR(id)
    case SampleInfoHashesResponse(id, interval, nodes, samples, num) =>
      WSampleInfoHashesR(id, Min(MAX_SCRAPE_INTERVAL, interval.secs), EncodeNodes(nodes), num, EncodeIds(samples))
  }

  function IntoSerdeMessage(m: Message): DHTMessage {
    DHTMessage(
      m.transactionId,
      m.version,
      match m.messageType {
        case RequestMessage(r) => WRequest(EncodeRequest(r))
        case ResponseMessage(r) => WResponse(EncodeResponse(r))
        case ErrorMessage(code, description) => WError([IntValue(code), BytesValue(description)])
      },
      match m.requesterIp case None => None case Some(a) => Some(EncodeAddr(a)),
      match m.readOnly case None => None case Some(ro) => Some(if ro then 1 else 0))
  }

  // ---------- from the wire ----------

  function DecodeRequest(w: WireRequest): Result<Request, string> {
    match FromBytes(w.id)
    case Err(e) => Err(e)
    case Ok(id) =>
      match w
      case WPing(_) => Ok(PingRequest(id))
      case WFindNode(_, t) =>
        (match FromBytes(t) case Err(e) => Err(e) case Ok(target) => Ok(FindNodeRequest(target, id)))
      case WGetPeers(_, h) =>
        (match FromBytes(h) case Err(e) => Err(e) case Ok(infoHash) => Ok(GetPeersRequest(infoHash, id)))
      case WSampleInfoHashes(_, t) =>
        (match FromBytes(t) case Err(e) => Err(e) case Ok(target) => Ok(SampleInfoHashesRequest(target, id)))
      case WAnnouncePeer(_, h, port, token, impliedPort) =>
        match FromBytes(h)
        case Err(e) => Err(e)
        case Ok(infoHash) =>
          Ok(AnnouncePeerRequest(id, infoHash, port,
                                 match impliedPort case None => None case Some(p) => Some(p != 0), token))
  }

  /** A 32-bit integer taken for an unsigned 64-bit one: negative values wrap around. */
  function AsU64(x: I32): (u: nat)
    ensures u < U64_SIZE
  {
    if x >= 0 then x else U64_SIZE + x
  }

  function DecodePeerValues(nodes: Option<Bytes>, values: Option<seq<Bytes>>): Result<PeerValues, string> {
    if values.Some? then
      match DecodePeers(values.value) case Err(e) => Err(e) case Ok(peers) => Ok(PeerAddrs(peers))
    else if nodes.Some? then
      match DecodeNodes(nodes.value) case Err(e) => Err(e) case Ok(ns) => Ok(NodeValues(ns))
    else Ok(NodeValues([]))
  }

  function DecodeResponse(w: WireResponse): Result<Response, string> {
    match FromBytes(w.id)
    case Err(e) => Err(e)
    case Ok(id) =>
      match w
      case WFindNodeR(_, ns) =>
        (match DecodeNodes(ns) case Err(e) => Err(e) case Ok(nodes) => Ok(FindNodeResponse(id, nodes)))
      case WGetPeersR(_, token, nodes, values) =>
        (match DecodePeerValues(nodes, values) case Err(e) => Err(e) case Ok(v) => Ok(GetPeersResponse(id, token, v)))
      case WPingR(_) => Ok(PingResponse(id))
      case WSampleInfoHashesR(_, interval, ns, num, ss) =>
        match DecodeNodes(ns)
        case Err(e) => Err(e)
        case Ok(nodes) =>
          match DecodeIds(ss)
          case Err(e) => Err(e)
          case Ok(samples) =>
            Ok(SampleInfoHashesResponse(id, Duration(AsU64(interval), 0), nodes, samples, num))
  }

  function DecodeError(info: seq<Bencode>): Result<MessageType, string> {
    if |info| < 2 then Err("Error packet should have at least 2 elements")
    else if !info[0].IntValue? then Err("Expected error code as first element")
    else if !(-0x8000_0000 <= info[0].value <= 0x7fff_ffff) then Err("out of range integral type conversion attempted")
    else if !info[1].BytesValue? then Err("Expected description as second element")
    else if !IsUtf8(info[1].bytes) then Err("invalid utf-8 sequence")
    else Ok(ErrorMessage(info[0].value, info[1].bytes))
  }

  function DecodeVariant(v: Variant): Result<MessageType, string> {
    match v
    case WRequest(w) => (match DecodeRequest(w) case Err(e) => Err(e) case Ok(r) => Ok(RequestMessage(r)))
    case WResponse(w) => (match DecodeResponse(w) case Err(e) => Err(e) case Ok(r) => Ok(ResponseMessage(r)))
    case WError(info) => DecodeError(info)
  }

  function DecodeOptionalAddr(ip: Option<Bytes>): Result<Option<SocketAddr>, string> {
    match ip
    case None => Ok(None)
    case Some(b) => (match DecodeAddr(b) case Err(e) => Err(e) case Ok(a) => Ok(Some(a)))
  }

  function FromSerdeMessage(d: DHTMessage): Result<Message, string> {
    match DecodeOptionalAddr(d.ip)
    case Err(e) => Err(e)
    case Ok(requesterIp) =>
      match DecodeVariant(d.variant)
      case Err(e) => Err(e)
      case Ok(messageType) =>
        Ok(Message(d.transactionId, d.version, requesterIp, messageType,
                   match d.readOnly case None => None case Some(ro) => Some(ro >= 1)))
  }

  // ---------- what survives ----------

  /** IPv4 only, and no interval that the wire cannot say. */
  predicate PortableResponse(r: Response) {
    match r
    case FindNodeResponse(_, nodes) => AllNodesV4(nodes)
    case GetPeersResponse(_, _, NodeValues(nodes)) => AllNodesV4(nodes)
    case GetPeersResponse(_, _, PeerAddrs(peers)) => AllV4(peers)
    case PingResponse(_) => true
    case SampleInfoHashesResponse(_, interval, nodes, _, _) =>
      AllNodesV4(nodes) && interval.nanos == 0 && interval.secs <= MAX_SCRAPE_INTERVAL
  }

  predicate Portable(m: Message) {
    && (m.requesterIp.Some? ==> m.requesterIp.value.V4?)
    && (m.messageType.ResponseMessage? ==> PortableResponse(m.messageType.response))
  }

  lemma RequestRoundTrip(r: Request)
    ensures DecodeRequest(EncodeRequest(r)) == Ok(r)
  {
  }

  lemma ResponseRoundTrip(r: Response)
    ensures DecodeResponse(EncodeResponse(r)) == Ok(r) <==> PortableResponse(r)
  {
    match r
    case FindNodeResponse(_, nodes) => NodesRoundTrip(nodes);
    case GetPeersResponse(_, _, values) =>
      if values.NodeValues? {
        NodesRoundTrip(values.nodes);
      } else {
        PeersRoundTrip(values.peers);
      }
    case PingResponse(_) =>
    case SampleInfoHashesResponse(_, _, nodes, samples, _) =>
      NodesRoundTrip(nodes);
      IdsRoundTrip(samples);
  }

  lemma VariantRoundTrip(m: Message)
    ensures DecodeVariant(IntoSerdeMessage(m).variant) == Ok(m.messageType)
       <==> (m.messageType.ResponseMessage? ==> PortableResponse(m.messageType.response))
  {
    match m.messageType
    case RequestMessage(r) => RequestRoundTrip(r);
    case ResponseMessage(r) => ResponseRoundTrip(r);
    case ErrorMessage(_, _) =>
  }

  lemma IpRoundTrip(m: Message)
    ensures DecodeOptionalAddr(IntoSerdeMessage(m).ip) == Ok(m.requesterIp)
       <==> (m.requesterIp.Some? ==> m.requesterIp.value.V4?)
  {
    if m.requesterIp.Some? {
      AddrRoundTrip(m.requesterIp.value);
    }
  }

  /** Decoding the encoded form gives a message back exactly if the message is portable. */
  lemma MessageRoundTrip(m: Message)
    ensures FromSerdeMessage(IntoSerdeMessage(m)) == Ok(m) <==> Portable(m)
  {
    IpRoundTrip(m);
    VariantRoundTrip(m);
  }

  // ---------- what decoding yields ----------

  /** A message as it comes back: an interval beyond the maximum is cut to it. */
  function Clamped(m: Message): Message {
    if m.messageType.ResponseMessage? && m.messageType.response.SampleInfoHashesResponse? then
      var r := m.messageType.response;
      m.(messageType := ResponseMessage(r.(interval := Duration(Min(MAX_SCRAPE_INTERVAL, r.interval.secs), 0))))
    else m
  }

  lemma DecodedResponse(w: WireResponse)
    requires DecodeResponse(w).Ok?
    ensures var r := DecodeResponse(w).value;
            PortableResponse(if r.SampleInfoHashesResponse? then
                               r.(interval := Duration(Min(MAX_SCRAPE_INTERVAL, r.interval.secs), 0)) else r)
  {
    match w
    case WFindNodeR(_, ns) => NodesInverse(ns);
    case WGetPeersR(_, _, nodes, values) =>
      if values.None? && nodes.Some? {
        NodesInverse(nodes.value);
      }
    case WPingR(_) =>
    case WSampleInfoHashesR(_, _, ns, _, _) => NodesInverse(ns);
  }

  lemma DecodedIsPortableOnceClamped(d: DHTMessage)
    requires FromSerdeMessage(d).Ok?
    ensures Portable(Clamped(FromSerdeMessage(d).value))
  {
    match d.variant
    case WResponse(w) => DecodedResponse(w);
    case _ =>
  }

  /**
    Whatever was decoded, one encoding settles it: decoding and encoding again
    changes nothing more, and all that the first encoding changed is the interval.
   */
  lemma EncodeDecodeEncode(d: DHTMessage)
    requires FromSerdeMessage(d).Ok?
    ensures var m := FromSerdeMessage(d).value;
            && FromSerdeMessage(IntoSerdeMessage(m)) == Ok(Clamped(m))
            && IntoSerdeMessage(Clamped(m)) == IntoSerdeMessage(m)
  {
    var m := FromSerdeMessage(d).value;
    DecodedIsPortableOnceClamped(d);
    MessageRoundTrip(Clamped(m));
    assert IntoSerdeMessage(Clamped(m)) == IntoSerdeMessage(m);
  }

  // ---------- when decoding succeeds ----------

  predicate IdSized(b: Bytes) {
    |b| == 20
  }

  predicate WellFormedRequest(w: WireRequest) {
    && IdSized(w.id)
    && (w.WFindNode? || w.WSampleInfoHashes? ==> IdSized(w.target))
    && (w.WGetPeers? || w.WAnnouncePeer? ==> IdSized(w.infoHash))
  }

  predicate WellFormedResponse(w: WireResponse) {
    && IdSized(w.id)
    && match w
       case WFindNodeR(_, nodes) => |nodes| % 26 == 0
       case WGetPeersR(_, _, _, Some(values)) => forall i :: 0 <= i < |values| ==> |values[i]| == 6
       case WGetPeersR(_, _, Some(nodes), None) => |nodes| % 26 == 0
       case WSampleInfoHashesR(_, _, nodes, _, samples) => |nodes| % 26 == 0 && |samples| % 20 == 0
       case _ => true
  }

  predicate WellFormed(d: DHTMessage) {
    && (d.ip.Some? ==> |d.ip.value| == 6)
    && match d.variant
       case WRequest(w) => WellFormedRequest(w)
       case WResponse(w) => WellFormedResponse(w)
       case WError(info) =>
         && |info| >= 2
         && info[0].IntValue? && -0x8000_0000 <= info[0].value <= 0x7fff_ffff
         && info[1].BytesValue? && IsUtf8(info[1].bytes)
  }

  /** Decoding fails on ill-sized fields and ill-formed errors, and on nothing else. */
  lemma {:induction false} DecodesExactlyTheWellFormed(d: DHTMessage)
    ensures FromSerdeMessage(d).Ok? <==> WellFormed(d)
  {
    match d.variant
    case WRequest(w) => assert DecodeRequest(w).Ok? <==> WellFormedRequest(w);
    case WResponse(w) => ResponseDecodes(w);
    case WError(info) =>
  }

  lemma {:induction false} ResponseDecodes(w: WireResponse)
    ensures DecodeResponse(w).Ok? <==> WellFormedResponse(w)
  {
    if w.WGetPeersR? && w.values.Some? {
      var values := w.values.value;
      assert DecodePeers(values).Ok? <==> forall i :: 0 <= i < |values| ==> |values[i]| == 6 by {
        if DecodePeers(values).Ok? {
          forall i | 0 <= i < |values| ensures |values[i]| == 6 {
            assert DecodeAddr(values[i]).Ok?;
          }
        }
      }
    }
  }
}
