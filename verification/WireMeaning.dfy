/**
  What a decoded message says, told from the bytes on the wire alone (BEP 5), and what
  encoding it again makes of them (src/packets/public.rs).
 */
module WireMeaning {
  import opened Wrappers
  import opened Ids
  import opened Nodes
  import opened Messages
  import opened Compact
  import opened Wire

  // ---------- addresses, nodes and samples ----------

  /** The six bytes from i on: four octets, and the port with its more significant byte first. */
  predicate AddrFrom(b: Bytes, i: nat, a: SocketAddr) {
    && i + 6 <= |b|
    && a.V4? && a.ip4 == b[i..i + 4]
    && a.port == 256 * (b[i + 4] as bv16) + (b[i + 5] as bv16)
  }

  predicate AddrIs(b: Bytes, a: SocketAddr) {
    |b| == 6 && AddrFrom(b, 0, a)
  }

  /** The 26 bytes from i on: an id and an address. */
  predicate NodeFrom(b: Bytes, i: nat, n: Node) {
    i + 26 <= |b| && n.id == b[i..i + 20] && AddrFrom(b, i + 20, n.address)
  }

  /** The nodes are those of the records of 26 bytes, in their order. */
  predicate NodesAre(b: Bytes, nodes: seq<Node>) {
    |b| == 26 * |nodes| && forall i :: 0 <= i < |nodes| ==> NodeFrom(b, 26 * i, nodes[i])
  }

  predicate PeersAre(bs: seq<Bytes>, peers: seq<SocketAddr>) {
    |bs| == |peers| && forall i :: 0 <= i < |peers| ==> AddrIs(bs[i], peers[i])
  }

  predicate SamplesAre(b: Bytes, samples: seq<Id>) {
    |b| == 20 * |samples| && forall i :: 0 <= i < |samples| ==> samples[i] == b[20 * i..20 * i + 20]
  }

  lemma PortIs(high: bv8, low: bv8)
    ensures PortOf(high, low) == 256 * (high as bv16) + (low as bv16)
  {
  }

  lemma AddrSays(b: Bytes)
    requires |b| == 6
    ensures AddrIs(b, DecodeAddr(b).value)
  {
    PortIs(b[4], b[5]);
    assert b[0..4] == [b[0], b[1], b[2], b[3]];
  }

  lemma RecordSays(b: Bytes, n: Node)
    requires |b| == 26 && DecodeNode(b) == n
    ensures n.id == b[..20] && AddrFrom(b, 20, n.address)
  {
    AddrSays(b[20..]);
    assert b[20..][0..4] == b[20..24] && b[20..][4] == b[24] && b[20..][5] == b[25];
  }

  lemma FirstNode(b: Bytes, n: Node)
    requires |b| >= 26 && DecodeNode(b[..26]) == n
    ensures NodeFrom(b, 0, n)
  {
    RecordSays(b[..26], n);
    assert b[..26][..20] == b[0..20] && b[..26][20..24] == b[20..24];
  }

  lemma {:induction false} NodesSay(b: Bytes)
    requires |b| % 26 == 0
    ensures NodesAre(b, Records(b))
  {
    if b != [] {
      var nodes, rest := Records(b), Records(b[26..]);
      NodesSay(b[26..]);
      FirstNode(b, nodes[0]);
      assert nodes == [nodes[0]] + rest;
      forall i | 0 <= i < |nodes| ensures NodeFrom(b, 26 * i, nodes[i]) {
        if i > 0 {
          assert NodeFrom(b[26..], 26 * (i - 1), rest[i - 1]);
          NodeFurtherOn(b, 26, 26 * (i - 1), nodes[i]);
        }
      }
    }
  }

  lemma NodeFurtherOn(b: Bytes, skip: nat, i: nat, n: Node)
    requires skip <= |b| && NodeFrom(b[skip..], i, n)
    ensures NodeFrom(b, skip + i, n)
  {
    AddrFurtherOn(b, skip, i + 20, n.address);
    assert b[skip..][i..i + 20] == b[skip + i..skip + i + 20];
  }

  lemma AddrFurtherOn(b: Bytes, skip: nat, i: nat, a: SocketAddr)
    requires skip <= |b| && AddrFrom(b[skip..], i, a)
    ensures AddrFrom(b, skip + i, a)
  {
    var rest := b[skip..];
    assert rest[i..i + 4] == b[skip + i..skip + i + 4];
    assert rest[i + 4] == b[skip + i + 4] && rest[i + 5] == b[skip + i + 5];
  }

  lemma {:induction false} SamplesSay(b: Bytes)
    requires |b| % 20 == 0
    ensures SamplesAre(b, IdRecords(b))
  {
    if b != [] {
      var ids := IdRecords(b);
      SamplesSay(b[20..]);
      forall i | 0 <= i < |ids| ensures ids[i] == b[20 * i..20 * i + 20] {
        if i > 0 {
          assert ids[i] == IdRecords(b[20..])[i - 1];
          assert b[20..][20 * (i - 1)..20 * i] == b[20 * i..20 * i + 20];
        }
      }
    }
  }

  lemma PeersSay(bs: seq<Bytes>)
    requires DecodePeers(bs).Ok?
    ensures PeersAre(bs, DecodePeers(bs).value)
  {
    forall i | 0 <= i < |bs| ensures AddrIs(bs[i], DecodePeers(bs).value[i]) {
      AddrSays(bs[i]);
    }
  }

  /** The bytes written for an address of either kind: its octets, and the port with its more significant byte first. */
  lemma AddrBytes(a: SocketAddr)
    ensures var b, n := EncodeAddr(a), if a.V4? then 4 else 16;
            && |b| == n + 2 && b[..n] == (if a.V4? then a.ip4 else a.ip6)
            && a.port == 256 * (b[n] as bv16) + (b[n + 1] as bv16)
  {
    PortBytes(a.port);
    assert EncodeAddr(a) == (if a.V4? then a.ip4 else a.ip6) + [HighByte(a.port), LowByte(a.port)];
  }

  lemma PortBytes(port: bv16)
    ensures port == 256 * (HighByte(port) as bv16) + (LowByte(port) as bv16)
  {
  }

  // ---------- messages ----------

  predicate RequestSays(w: WireRequest, r: Request) {
    && r.requesterId == w.id
    && match w
       case WPing(_) => r.PingRequest?
       case WFindNode(_, target) => r.FindNodeRequest? && r.target == target
       case WGetPeers(_, infoHash) => r.GetPeersRequest? && r.infoHash == infoHash
       case WSampleInfoHashes(_, target) => r.SampleInfoHashesRequest? && r.target == target
       case WAnnouncePeer(_, infoHash, port, token, impliedPort) =>
         && r.AnnouncePeerRequest? && r.infoHash == infoHash && r.port == port && r.token == token
         && (impliedPort.None? ==> r.impliedPort == None)
         && (impliedPort.Some? ==> r.impliedPort == Some(impliedPort.value != 0))
  }

  /** Peers go before nodes: these count only if there is no list of peers, however short. */
  predicate PeerValuesSay(nodes: Option<Bytes>, values: Option<seq<Bytes>>, v: PeerValues) {
    if values.Some? then v.PeerAddrs? && PeersAre(values.value, v.peers)
    else v.NodeValues? && if nodes.Some? then NodesAre(nodes.value, v.nodes) else v.nodes == []
  }

  predicate ResponseSays(w: WireResponse, r: Response) {
    && r.responderId == w.id
    && match w
       case WPingR(_) => r.PingResponse?
       case WFindNodeR(_, nodes) => r.FindNodeResponse? && NodesAre(nodes, r.nodes)
       case WGetPeersR(_, token, nodes, values) =>
         r.GetPeersResponse? && r.token == token && PeerValuesSay(nodes, values, r.values)
       case WSampleInfoHashesR(_, interval, nodes, num, samples) =>
         && r.SampleInfoHashesResponse? && r.num == num && NodesAre(nodes, r.nodes) && SamplesAre(samples, r.samples)
         && r.interval.nanos == 0
         && r.interval.secs == if interval >= 0 then interval else 0x1_0000_0000_0000_0000 + interval
  }

  predicate VariantSays(v: Variant, t: MessageType) {
    match v
    case WRequest(w) => t.RequestMessage? && RequestSays(w, t.request)
    case WResponse(w) => t.ResponseMessage? && ResponseSays(w, t.response)
    case WError(info) =>
      t.ErrorMessage? && |info| >= 2 && info[0] == IntValue(t.code) && info[1] == BytesValue(t.description)
  }

  /** The message says what is on the wire. */
  predicate Says(d: DHTMessage, m: Message) {
    && m.transactionId == d.transactionId && m.version == d.version
    && (d.ip.None? ==> m.requesterIp == None)
    && (d.ip.Some? ==> m.requesterIp.Some? && AddrIs(d.ip.value, m.requesterIp.value))
    && (d.readOnly.None? ==> m.readOnly == None)
    && (d.readOnly.Some? ==> m.readOnly == Some(d.readOnly.value >= 1))
    && VariantSays(d.variant, m.messageType)
  }

  lemma AddrDecodes(b: Bytes, a: SocketAddr)
    ensures DecodeAddr(b) == Ok(a) <==> AddrIs(b, a)
  {
    if |b| == 6 {
      AddrSays(b);
    }
  }

  lemma NodesDecode(b: Bytes, nodes: seq<Node>)
    ensures DecodeNodes(b) == Ok(nodes) <==> NodesAre(b, nodes)
  {
    if |b| % 26 == 0 {
      NodesSay(b);
      if NodesAre(b, nodes) {
        forall i | 0 <= i < |nodes| ensures nodes[i] == Records(b)[i] {
          assert NodeFrom(b, 26 * i, nodes[i]) && NodeFrom(b, 26 * i, Records(b)[i]);
        }
        assert nodes == Records(b);
      }
    }
  }

  lemma PeersDecode(bs: seq<Bytes>, peers: seq<SocketAddr>)
    ensures DecodePeers(bs) == Ok(peers) <==> PeersAre(bs, peers)
  {
    if DecodePeers(bs).Ok? {
      PeersSay(bs);
    }
    if PeersAre(bs, peers) {
      forall i | 0 <= i < |bs| ensures DecodeAddr(bs[i]) == Ok(peers[i]) {
        assert AddrIs(bs[i], peers[i]);
        AddrDecodes(bs[i], peers[i]);
      }
      assert DecodePeers(bs).value == peers;
    }
  }

  lemma SamplesDecode(b: Bytes, samples: seq<Id>)
    ensures DecodeIds(b) == Ok(samples) <==> SamplesAre(b, samples)
  {
    if |b| % 20 == 0 {
      SamplesSay(b);
      if SamplesAre(b, samples) {
        assert forall i :: 0 <= i < |samples| ==> samples[i] == IdRecords(b)[i];
        assert samples == IdRecords(b);
      }
    }
  }

  lemma RequestDecodes(w: WireRequest, r: Request)
    ensures DecodeRequest(w) == Ok(r) <==> RequestSays(w, r)
  {
  }

  lemma PeerValuesDecode(nodes: Option<Bytes>, values: Option<seq<Bytes>>, v: PeerValues)
    ensures DecodePeerValues(nodes, values) == Ok(v) <==> PeerValuesSay(nodes, values, v)
  {
    if values.Some? {
      if v.PeerAddrs? {
        PeersDecode(values.value, v.peers);
      }
    } else if nodes.Some? && v.NodeValues? {
      NodesDecode(nodes.value, v.nodes);
    }
  }

  lemma ResponseDecodesTo(w: WireResponse, r: Response)
    ensures DecodeResponse(w) == Ok(r) <==> ResponseSays(w, r)
  {
    match w
    case WPingR(_) =>
    case WFindNodeR(_, nodes) =>
      if r.FindNodeResponse? {
        NodesDecode(nodes, r.nodes);
      }
    case WGetPeersR(_, _, nodes, values) =>
      if r.GetPeersResponse? {
        PeerValuesDecode(nodes, values, r.values);
      }
    case WSampleInfoHashesR(_, _, nodes, _, samples) =>
      if r.SampleInfoHashesResponse? {
        NodesDecode(nodes, r.nodes);
        SamplesDecode(samples, r.samples);
      }
  }

  lemma VariantDecodes(v: Variant, t: MessageType)
    ensures DecodeVariant(v) == Ok(t) <==> VariantSays(v, t)
  {
    match v
    case WRequest(w) =>
      if t.RequestMessage? {
        RequestDecodes(w, t.request);
      }
    case WResponse(w) =>
      if t.ResponseMessage? {
        ResponseDecodesTo(w, t.response);
      }
    case WError(_) =>
  }

  /** A message is what the wire decodes to exactly if it says what is there. */
  lemma DecodesToWhatItSays(d: DHTMessage, m: Message)
    ensures FromSerdeMessage(d) == Ok(m) <==> Says(d, m)
  {
    VariantDecodes(d.variant, m.messageType);
    if d.ip.Some? && m.requesterIp.Some? {
      AddrDecodes(d.ip.value, m.requesterIp.value);
    }
  }

  // ---------- encoding again ----------

  /**
    The wire that says the same in the program's own way: flags are 0 or 1, only one of nodes and peers
    is given, an interval that is negative or too long is the longest one, and an error has two parts.
   */
  function Canonical(d: DHTMessage): DHTMessage
    requires d.variant.WError? ==> |d.variant.errorInfo| >= 2
  {
    d.(readOnly := match d.readOnly case None => None case Some(ro) => Some(if ro >= 1 then 1 else 0),
       variant := match d.variant
                  case WRequest(w) => WRequest(CanonicalRequest(w))
                  case WResponse(w) => WResponse(CanonicalResponse(w))
                  case WError(info) => WError([info[0], info[1]]))
  }

  function CanonicalRequest(w: WireRequest): WireRequest {
    match w
    case WAnnouncePeer(_, _, _, _, Some(p)) => w.(impliedPort := Some(if p == 0 then 0 else 1))
    case _ => w
  }

  function CanonicalResponse(w: WireResponse): WireResponse {
    match w
    case WGetPeersR(_, _, _, Some(_)) => w.(maybeNodes := None)
    case WGetPeersR(_, _, None, None) => w.(maybeNodes := Some([]))
    case WSampleInfoHashesR(_, interval, _, _, _) => w.(interval := if 0 <= interval <= 21600 then interval else 21600)
    case _ => w
  }

  lemma PeersInverse(bs: seq<Bytes>)
    requires DecodePeers(bs).Ok?
    ensures EncodePeers(DecodePeers(bs).value) == bs
  {
    forall i | 0 <= i < |bs| ensures EncodePeers(DecodePeers(bs).value)[i] == bs[i] {
      AddrInverse(bs[i]);
    }
  }

  lemma ReencodedResponse(w: WireResponse)
    requires DecodeResponse(w).Ok?
    ensures EncodeResponse(DecodeResponse(w).value) == CanonicalResponse(w)
  {
    match w
    case WPingR(_) =>
    case WFindNodeR(_, nodes) => NodesInverse(nodes);
    case WGetPeersR(_, _, _, Some(values)) => PeersInverse(values);
    case WGetPeersR(_, _, Some(nodes), None) => NodesInverse(nodes);
    case WGetPeersR(_, _, None, None) =>
    case WSampleInfoHashesR(_, _, nodes, _, samples) =>
      NodesInverse(nodes);
      IdsInverse(samples);
  }

  lemma ReencodedVariant(d: DHTMessage, m: Message)
    requires FromSerdeMessage(d) == Ok(m)
    ensures d.variant.WError? ==> |d.variant.errorInfo| >= 2
    ensures IntoSerdeMessage(m).variant == Canonical(d).variant
  {
    match d.variant
    case WRequest(_) =>
    case WResponse(w) => ReencodedResponse(w);
    case WError(_) =>
  }

  /** Encoding a decoded message gives the wire back but for what the program writes in its own way. */
  lemma ReencodedIsCanonical(d: DHTMessage, m: Message)
    requires FromSerdeMessage(d) == Ok(m)
    ensures d.variant.WError? ==> |d.variant.errorInfo| >= 2
    ensures IntoSerdeMessage(m) == Canonical(d)
  {
    ReencodedVariant(d, m);
    if d.ip.Some? {
      AddrInverse(d.ip.value);
    }
  }

  // ---------- messages of the program's own ----------

  /** All addresses in the message are IPv4 addresses. */
  predicate OnlyV4(m: Message) {
    && (m.requesterIp.Some? ==> m.requesterIp.value.V4?)
    && (m.messageType.ResponseMessage? ==>
          match m.messageType.response
          case PingResponse(_) => true
          case FindNodeResponse(_, nodes) => AllNodesV4(nodes)
          case GetPeersResponse(_, _, NodeValues(nodes)) => AllNodesV4(nodes)
          case GetPeersResponse(_, _, PeerAddrs(peers)) => AllV4(peers)
          case SampleInfoHashesResponse(_, _, nodes, _, _) => AllNodesV4(nodes))
  }

  /** Whoever receives a message with IPv4 addresses only has it as it was, but for a too long or too exact interval. */
  lemma OnlyTheIntervalChanges(m: Message)
    requires OnlyV4(m)
    ensures FromSerdeMessage(IntoSerdeMessage(m)) == Ok(Clamped(m))
  {
    assert IntoSerdeMessage(Clamped(m)) == IntoSerdeMessage(m);
    MessageRoundTrip(Clamped(m));
  }
}
