/** Nodes as the routing table stores them (src/common/node.rs, src/storage/node_wrapper.rs). */
module Nodes {
  import opened Wrappers
  import opened Ids

  type Octets4 = s: seq<bv8> | |s| == 4 witness [127, 0, 0, 1]
  type Octets16 = s: seq<bv8> | |s| == 16 witness seq(16, _ => 0)

  datatype IpAddr = Ip4(octets4: Octets4) | Ip6(octets16: Octets16)

  datatype SocketAddr =
    | V4(ip4: Octets4, port: bv16)
    | V6(ip6: Octets16, port: bv16)

  datatype Node = Node(id: Id, address: SocketAddr)

  type Instant = nat

  /** A node with the instants at which it was first seen, last seen and last verified. */
  datatype NodeWrapper = NodeWrapper(
    node: Node, firstSeen: Instant, lastSeen: Instant, lastVerified: Option<Instant>)

  function NewWrapper(node: Node, now: Instant): NodeWrapper {
    NodeWrapper(node, now, now, None)
  }
}
