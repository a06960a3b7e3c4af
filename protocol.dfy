/** The records a routing node keeps and the messages it exchanges. */
module Protocol {
  import opened Collections
  import opened Distances

  /** A node is identified by its port number. */
  type Address = int

  /** A neighbor link is forgotten after this many milliseconds of continued
      silence (LINK_LIFE). */
  const LinkLife: int := 15_000

  /** One (destination, distance) pair of a distance vector (NodeInfoBase). */
  datatype Entry = Entry(address: Address, distance: Dist)

  datatype Message =
    | DistanceVector(source: Address, entries: seq<Entry>)
    | EchoRequest(source: Address)
    | EchoReply(source: Address)

  /** A datagram handed to the transport, in the order the node sends it. */
  datatype Send = Send(to: Address, message: Message)

  /** A Neighbor: the measured cost of the link and the time of the last
      echo request or reply heard from that neighbor. */
  datatype Link = Link(distance: Dist, lastEcho: int)

  /** A NodeInfo: the best known distance to a destination and the neighbor
      it is reached through, None when it is the direct link. */
  datatype Route = Route(distance: Dist, via: Option<Address>)
}
