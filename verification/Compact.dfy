/**
  The compact encodings of addresses, nodes and ids (src/packets/public.rs; the
  "Contact Encoding" section of BEP 5), their loops and their inverses.
 */
module Compact {
  import opened Wrappers
  import opened Ids
  import opened Nodes
  import opened Messages

  /** A compact node is an id of 20 bytes, an address of 4 and a port of 2. */
  const NODE4_SIZE: nat := 26

  // ---------- ports and addresses ----------

  function HighByte(port: bv16): bv8 {
    (port >> 8) as bv8
  }

  function LowByte(port: bv16): bv8 {
    (port & 0xff) as bv8
  }

  function PortOf(high: bv8, low: bv8): bv16 {
    (high as bv16 << 8) | (low as bv16)
  }

  lemma PortRoundTrip(port: bv16)
    ensures PortOf(HighByte(port), LowByte(port)) == port
  {
  }

  lemma BytesRoundTrip(high: bv8, low: bv8)
    ensures HighByte(PortOf(high, low)) == high && LowByte(PortOf(high, low)) == low
  {
  }

  function EncodeAddr(a: SocketAddr): (b: Bytes)
    ensures |b| == if a.V4? then 6 else 18
  {
    (match a case V4(ip, _) => ip case V6(ip, _) => ip) + [HighByte(a.port), LowByte(a.port)]
  }

  function DecodeAddr(b: Bytes): (r: Result<SocketAddr, string>)
    ensures r.Ok? <==> |b| == 6
    ensures r.Ok? ==> r.value.V4?
  {
    if |b| == 6 then Ok(V4([b[0], b[1], b[2], b[3]], PortOf(b[4], b[5])))
    else if |b| == 18 then Err("IPv6 is not yet implemented")
    else Err("Wrong number of bytes for sockaddr")
  }

  /** An address survives the wire exactly if it is an IPv4 address. */
  lemma AddrRoundTrip(a: SocketAddr)
    ensures DecodeAddr(EncodeAddr(a)) == Ok(a) <==> a.V4?
    ensures a.V6? ==> DecodeAddr(EncodeAddr(a)).Err?
  {
    if a.V4? {
      PortRoundTrip(a.port);
      var b := EncodeAddr(a);
      assert a.ip4 == [b[0], b[1], b[2], b[3]];
    }
  }

  lemma AddrInverse(b: Bytes)
    requires |b| == 6
    ensures EncodeAddr(DecodeAddr(b).value) == b
  {
    BytesRoundTrip(b[4], b[5]);
  }

  method SockaddrToBytes(a: SocketAddr) returns (r: Bytes)
    ensures r == EncodeAddr(a)
  {
    r := [];
    match a {
      case V4(ip, _) =>
        for i := 0 to 4
          invariant r == ip[..i]
        {
          r := r + [ip[i]];
        }
      case V6(ip, _) =>
        for i := 0 to 16
          invariant r == ip[..i]
        {
          r := r + [ip[i]];
        }
    }
    r := r + [HighByte(a.port)];
    r := r + [LowByte(a.port)];
  }

  // ---------- lists of peers ----------

  function EncodePeers(peers: seq<SocketAddr>): (b: seq<Bytes>)
    ensures |b| == |peers|
    ensures forall i :: 0 <= i < |peers| ==> b[i] == EncodeAddr(peers[i])
  {
    seq(|peers|, i requires 0 <= i < |peers| => EncodeAddr(peers[i]))
  }

  function DecodePeers(b: seq<Bytes>): (r: Result<seq<SocketAddr>, string>)
    ensures r.Ok? <==> forall i :: 0 <= i < |b| ==> DecodeAddr(b[i]).Ok?
    ensures r.Ok? ==> |r.value| == |b| && forall i :: 0 <= i < |b| ==> r.value[i] == DecodeAddr(b[i]).value
  {
    if b == [] then Ok([])
    else
      match DecodeAddr(b[0])
      case Err(e) => Err(e)
      case Ok(first) =>
        match DecodePeers(b[1..])
        case Err(e) =>
          assert exists i :: 0 <= i < |b[1..]| && !DecodeAddr(b[1..][i]).Ok?;
          Err(e)
        case Ok(rest) => Ok([first] + rest)
  }

  predicate AllV4(peers: seq<SocketAddr>) {
    forall i :: 0 <= i < |peers| ==> peers[i].V4?
  }

  lemma PeersRoundTrip(peers: seq<SocketAddr>)
    ensures DecodePeers(EncodePeers(peers)) == Ok(peers) <==> AllV4(peers)
  {
    forall i | 0 <= i < |peers|
      ensures DecodeAddr(EncodePeers(peers)[i]) == Ok(peers[i]) <==> peers[i].V4?
      ensures DecodeAddr(EncodePeers(peers)[i]).Ok? <==> peers[i].V4?
    {
      AddrRoundTrip(peers[i]);
    }
    var d := DecodePeers(EncodePeers(peers));
    if AllV4(peers) {
      assert d.value == peers;
    } else {
      var i :| 0 <= i < |peers| && !peers[i].V4?;
      assert DecodeAddr(EncodePeers(peers)[i]).Err?;
    }
  }

  // ---------- lists of nodes ----------

  function EncodeNode(n: Node): Bytes {
    n.id + EncodeAddr(n.address)
  }

  function EncodeNodes(nodes: seq<Node>): Bytes {
    if nodes == [] then [] else EncodeNode(nodes[0]) + EncodeNodes(nodes[1..])
  }

  function DecodeNode(b: Bytes): (n: Node)
    requires |b| == NODE4_SIZE
    ensures n.id == b[..ID_SIZE] && n.address.V4?
  {
    Node(b[..ID_SIZE], DecodeAddr(b[ID_SIZE..]).value)
  }

  /** The nodes in a whole number of 26-byte records. */
  function Records(b: Bytes): (nodes: seq<Node>)
    requires |b| % 26 == 0
    ensures |nodes| == |b| / 26
  {
    if b == [] then [] else [DecodeNode(b[..NODE4_SIZE])] + Records(b[NODE4_SIZE..])
  }

  function DecodeNodes(b: Bytes): (r: Result<seq<Node>, string>)
    ensures r.Ok? <==> |b| % 26 == 0
  {
    if |b| % 26 != 0 then Err("Wrong number of bytes for nodes message") else Ok(Records(b))
  }

  predicate AllNodesV4(nodes: seq<Node>) {
    forall i :: 0 <= i < |nodes| ==> nodes[i].address.V4?
  }

  lemma NodeRoundTrip(n: Node)
    requires n.address.V4?
    ensures |EncodeNode(n)| == NODE4_SIZE && DecodeNode(EncodeNode(n)) == n
  {
    var b := EncodeNode(n);
    assert b[..ID_SIZE] == n.id && b[ID_SIZE..] == EncodeAddr(n.address);
    AddrRoundTrip(n.address);
  }

  lemma FirstRecord(b: Bytes, n: Node)
    requires |b| % 26 == 0 && |b| > 0 && DecodeNode(b[..NODE4_SIZE]) == n
    ensures Records(b) == [n] + Records(b[NODE4_SIZE..])
  {
  }

  lemma {:induction false} V4NodesRoundTrip(nodes: seq<Node>)
    requires AllNodesV4(nodes)
    ensures |EncodeNodes(nodes)| == 26 * |nodes|
    ensures DecodeNodes(EncodeNodes(nodes)) == Ok(nodes)
  {
    if nodes != [] {
      var b := EncodeNodes(nodes);
      NodeRoundTrip(nodes[0]);
      V4NodesRoundTrip(nodes[1..]);
      assert b[..NODE4_SIZE] == EncodeNode(nodes[0]) && b[NODE4_SIZE..] == EncodeNodes(nodes[1..]);
      assert |b| % 26 == 0;
      FirstRecord(b, nodes[0]);
      assert nodes == [nodes[0]] + nodes[1..];
    }
  }

  lemma HeadAndTailV4(nodes: seq<Node>)
    requires nodes != []
    ensures AllNodesV4(nodes) <==> nodes[0].address.V4? && AllNodesV4(nodes[1..])
  {
    if nodes[0].address.V4? && AllNodesV4(nodes[1..]) {
      assert forall i :: 0 < i < |nodes| ==> nodes[i] == nodes[1..][i - 1];
    }
  }

  lemma {:induction false} EncodedSize(nodes: seq<Node>)
    ensures |EncodeNodes(nodes)| >= 26 * |nodes|
    ensures !AllNodesV4(nodes) ==> |EncodeNodes(nodes)| > 26 * |nodes|
  {
    if nodes != [] {
      EncodedSize(nodes[1..]);
      HeadAndTailV4(nodes);
    }
  }

  /** A list of nodes survives the wire exactly if all its addresses are IPv4 addresses. */
  lemma NodesRoundTrip(nodes: seq<Node>)
    ensures DecodeNodes(EncodeNodes(nodes)) == Ok(nodes) <==> AllNodesV4(nodes)
  {
    EncodedSize(nodes);
    if AllNodesV4(nodes) {
      V4NodesRoundTrip(nodes);
    } else if |EncodeNodes(nodes)| % 26 == 0 {
      assert |Records(EncodeNodes(nodes))| == |EncodeNodes(nodes)| / 26 > |nodes|;
    }
  }

  /** Every well-sized string of bytes is the encoding of the nodes it decodes to. */
  lemma {:induction false} NodesInverse(b: Bytes)
    requires |b| % 26 == 0
    ensures AllNodesV4(Records(b))
    ensures EncodeNodes(Records(b)) == b
  {
    if b != [] {
      NodesInverse(b[NODE4_SIZE..]);
      AddrInverse(b[ID_SIZE..NODE4_SIZE]);
      assert b[..NODE4_SIZE][ID_SIZE..] == b[ID_SIZE..NODE4_SIZE];
      assert b[..NODE4_SIZE][..ID_SIZE] == b[..ID_SIZE];
      assert EncodeNode(DecodeNode(b[..NODE4_SIZE])) == b[..NODE4_SIZE];
      assert Records(b)[1..] == Records(b[NODE4_SIZE..]);
      assert b == b[..NODE4_SIZE] + b[NODE4_SIZE..];
    }
  }

  method Nodes4ToBytes(nodes: seq<Node>) returns (r: Bytes)
    ensures r == EncodeNodes(nodes)
  {
    r := [];
    for i := 0 to |nodes|
      invariant r + EncodeNodes(nodes[i..]) == EncodeNodes(nodes)
    {
      assert nodes[i..][1..] == nodes[i + 1..];
      var address := SockaddrToBytes(nodes[i].address);
      r := r + nodes[i].id;
      r := r + address;
    }
  }

  /** The node in the record at byte i. */
  function NodeAt(b: Bytes, i: nat): Node
    requires i + NODE4_SIZE <= |b|
  {
    Node(b[i..i + ID_SIZE], DecodeAddr(b[i + ID_SIZE..i + NODE4_SIZE]).value)
  }

  method ReadNode(b: Bytes, i: nat) returns (r: Result<Node, string>)
    requires i + NODE4_SIZE <= |b|
    ensures r == Ok(NodeAt(b, i))
  {
    var id := FromBytes(b[i..i + ID_SIZE]);
    var address := DecodeAddr(b[i + ID_SIZE..i + NODE4_SIZE]);
    r := Ok(Node(id.value, address.value));
  }

  method BytesToNodes4(b: Bytes) returns (r: Result<seq<Node>, string>)
    ensures r == DecodeNodes(b)
  {
    if |b| % 26 != 0 {
      return Err("Wrong number of bytes for nodes message");
    }
    var nodes := [];
    for n := 0 to |b| / 26
      invariant Collected(b, 26 * n, nodes)
    {
      CollectNext(b, 26 * n, nodes);
      var node := ReadNode(b, 26 * n);
      nodes := nodes + [node.value];
    }
    assert 26 * (|b| / 26) == |b|;
    AllCollected(b, nodes);
    r := Ok(nodes);
  }

  /** nodes are the records before byte i. */
  ghost predicate Collected(b: Bytes, i: nat, nodes: seq<Node>) {
    i <= |b| && |b| % 26 == 0 && (|b| - i) % 26 == 0 && nodes + Records(b[i..]) == Records(b)
  }

  lemma CollectNext(b: Bytes, i: nat, nodes: seq<Node>)
    requires Collected(b, i, nodes) && i + NODE4_SIZE <= |b|
    ensures Collected(b, i + NODE4_SIZE,
                      nodes + [NodeAt(b, i)])
  {
    RecordAt(b, i);
    var x := NodeAt(b, i);
    MoveFront(nodes, x, Records(b[i..]), Records(b[i + NODE4_SIZE..]), Records(b));
  }

  lemma AllCollected(b: Bytes, nodes: seq<Node>)
    requires Collected(b, |b|, nodes)
    ensures DecodeNodes(b) == Ok(nodes)
  {
    assert b[|b|..] == [];
    assert nodes + [] == nodes;
  }

  lemma RecordAt(b: Bytes, i: nat)
    requires i + NODE4_SIZE <= |b| && (|b| - i) % 26 == 0
    ensures Records(b[i..]) ==
              [NodeAt(b, i)] + Records(b[i + NODE4_SIZE..])
  {
    var rest := b[i..];
    assert rest[NODE4_SIZE..] == b[i + NODE4_SIZE..];
    assert rest[..NODE4_SIZE][..ID_SIZE] == b[i..i + ID_SIZE];
    assert rest[..NODE4_SIZE][ID_SIZE..] == b[i + ID_SIZE..i + NODE4_SIZE];
  }

  lemma MoveFront<T>(done: seq<T>, x: T, rest: seq<T>, tail: seq<T>, all: seq<T>)
    requires done + rest == all && rest == [x] + tail
    ensures done + [x] + tail == all
  {
  }

  // ---------- lists of ids ----------

  function EncodeIds(ids: seq<Id>): Bytes {
    if ids == [] then [] else ids[0] + EncodeIds(ids[1..])
  }

  function IdRecords(b: Bytes): seq<Id>
    requires |b| % 20 == 0
  {
    if b == [] then [] else [b[..ID_SIZE]] + IdRecords(b[ID_SIZE..])
  }

  function DecodeIds(b: Bytes): (r: Result<seq<Id>, string>)
    ensures r.Ok? <==> |b| % 20 == 0
  {
    if |b| % 20 != 0 then Err("Wrong sample length") else Ok(IdRecords(b))
  }

  lemma {:induction false} IdsRoundTrip(ids: seq<Id>)
    ensures |EncodeIds(ids)| == 20 * |ids|
    ensures DecodeIds(EncodeIds(ids)) == Ok(ids)
  {
    if ids != [] {
      var b := EncodeIds(ids);
      IdsRoundTrip(ids[1..]);
      assert b[..ID_SIZE] == ids[0] && b[ID_SIZE..] == EncodeIds(ids[1..]);
      assert |b| % 20 == 0;
      assert IdRecords(b) == [ids[0]] + IdRecords(b[ID_SIZE..]);
      assert ids == [ids[0]] + ids[1..];
    }
  }

  lemma {:induction false} IdsInverse(b: Bytes)
    requires |b| % 20 == 0
    ensures EncodeIds(IdRecords(b)) == b
  {
    if b != [] {
      IdsInverse(b[ID_SIZE..]);
      assert IdRecords(b)[1..] == IdRecords(b[ID_SIZE..]);
      assert b == b[..ID_SIZE] + b[ID_SIZE..];
    }
  }

  method SamplesToBytes(ids: seq<Id>) returns (r: Bytes)
    ensures r == EncodeIds(ids)
  {
    r := [];
    for i := 0 to |ids|
      invariant r + EncodeIds(ids[i..]) == EncodeIds(ids)
    {
      assert ids[i..][1..] == ids[i + 1..];
      r := r + ids[i];
    }
  }
}
