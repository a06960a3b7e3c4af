/** The routing node of src/Node.java: its link table, routing table and
    configured link costs as fields, each synchronized block as one method,
    and the datagrams it sends appended to an outbox. */
module Nodes {
  import opened Collections
  import opened Distances
  import opened Protocol
  import opened Routing

  /** The same message to every destination in order (multicast): every
      send carries `m`, and the addressees are exactly `dests`. */
  function Multicast(m: Message, dests: seq<Address>): (r: seq<Send>)
    ensures |r| == |dests|
    ensures forall i :: 0 <= i < |r| ==> r[i] == Send(dests[i], m)
    ensures forall x :: x in r ==> x.message == m
    ensures forall n :: n in dests <==> Send(n, m) in r
  {
    seq(|dests|, i requires 0 <= i < |dests| => Send(dests[i], m))
  }

  class RoutingNode {
    const address: Address
    /** Link records by neighbor address. */
    var neighbors: Links
    /** Routes by destination address. */
    var nodes: Routes
    /** The link costs set from outside, read by the ping task. */
    var neighborDistances: map<Address, Dist>
    /** Every datagram sent so far, in order. */
    var outbox: seq<Send>

    /** Each table's iteration order lists its keys once. */
    ghost predicate Valid()
      reads this
    {
      neighbors.Valid() && nodes.Valid()
    }

    /** Every neighbor has a configured cost, so that getDistance does not
        unbox a missing value.  A message from an unconfigured peer breaks
        this; the ping task needs it. */
    ghost predicate Configured()
      reads this
    {
      neighbors.at.Keys <= neighborDistances.Keys
    }

    /** Node(address, neighbors): one link and one direct route per initial
        neighbor, both with the given cost, all iterated in the given order;
        `now` is the creation time of the neighbor records. */
    constructor (address: Address, initial: seq<Entry>, now: int)
      requires Distinct(Addresses(initial))
      ensures this.address == address && Valid() && Configured() && outbox == []
      ensures neighbors.order == nodes.order == Addresses(initial)
      ensures neighborDistances.Keys == neighbors.at.Keys
      ensures forall i :: 0 <= i < |initial| ==>
                var e := initial[i];
                && neighbors.at[e.address] == Link(e.distance, now)
                && nodes.at[e.address] == Route(e.distance, None)
                && neighborDistances[e.address] == e.distance
    {
      this.address := address;
      neighbors := Collect(initial, (e: Entry) => Link(e.distance, now));
      nodes := Collect(initial, (e: Entry) => Route(e.distance, None));
      var costs := Collect(initial, (e: Entry) => e.distance);
      neighborDistances := costs.at;
      outbox := [];
    }

    /** setNeighborDistance: records the configured cost and creates a link
        of unknown cost for a new peer; a known link keeps its cost, which
        the ping task and the sender bootstrap of receivedDistanceVector
        write. */
    method SetNeighborDistance(a: Address, d: Dist, now: int)
      requires Valid()
      modifies this`neighbors, this`neighborDistances
      ensures Valid()
      ensures old(Configured()) ==> Configured()
      ensures neighborDistances == old(neighborDistances)[a := d]
      ensures neighbors.at.Keys == old(neighbors.at.Keys) + {a}
      ensures forall b :: b in old(neighbors.at) ==> neighbors.at[b] == old(neighbors.at[b])
      ensures a !in old(neighbors.at) ==> neighbors.at[a] == Link(Unknown, now)
    {
      neighborDistances := neighborDistances[a := d];
      var (links, _) := PutIfAbsent(neighbors, a, Link(Unknown, now));
      neighbors := links;
    }

    /** receivedEchoRequest: refreshes the sender's liveness, creating its
        link with unknown cost if needed, and replies. */
    method ReceivedEchoRequest(source: Address, now: int)
      requires Valid()
      modifies this`neighbors, this`outbox
      ensures Valid()
      ensures neighbors.at.Keys == old(neighbors.at.Keys) + {source}
      ensures forall b :: b in old(neighbors.at) && b != source ==> neighbors.at[b] == old(neighbors.at[b])
      ensures neighbors.at[source] ==
                Link(if source in old(neighbors.at) then old(neighbors.at[source].distance) else Unknown, now)
      ensures outbox == old(outbox) + [Send(source, EchoReply(address))]
    {
      var (links, sender) := GetOrPut(neighbors, source, Link(Unknown, now));
      neighbors := links.Put(source, sender.(lastEcho := now));
      outbox := outbox + [Send(source, EchoReply(address))];
    }

    /** receivedEchoReply: refreshes the sender's liveness only. */
    method ReceivedEchoReply(source: Address, now: int)
      requires Valid()
      modifies this`neighbors
      ensures Valid()
      ensures neighbors.at.Keys == old(neighbors.at.Keys) + {source}
      ensures forall b :: b in old(neighbors.at) && b != source ==> neighbors.at[b] == old(neighbors.at[b])
      ensures neighbors.at[source] ==
                Link(if source in old(neighbors.at) then old(neighbors.at[source].distance) else Unknown, now)
    {
      var (links, sender) := GetOrPut(neighbors, source, Link(Unknown, now));
      neighbors := links.Put(source, sender.(lastEcho := now));
    }

    /** filterNodes. */
    method FilterNodes()
      requires Valid()
      modifies this`nodes
      ensures Valid()
      ensures nodes == Purge(old(nodes))
    {
      nodes := nodes.Retain((route: Route) => IsFinite(route.distance));
    }

    /** updateByCheckingLinks(a, d): the route to `a` collapses to the direct
        link when `a` is a neighbor whose cost is at most `d`; otherwise its
        distance becomes `d` and its next hop stays.  No other route changes. */
    method UpdateByCheckingLinks(a: Address, d: Dist)
      requires Valid() && a in nodes.at
      modifies this`nodes
      ensures Valid()
      ensures nodes == old(nodes).Put(a, Collapse(neighbors, a, old(nodes.at[a]), d))
    {
      var node := nodes.at[a];
      if a in neighbors.at && Le(neighbors.at[a].distance, d) {
        nodes := nodes.Put(a, Route(neighbors.at[a].distance, None));
      } else {
        nodes := nodes.Put(a, node.(distance := d));
      }
    }

    /** The forEach body of updateByCheckingDescendants for a child `b` of
        `a`: its next hop becomes that of `a` (or `a` itself when `a` is
        direct), then it is link-checked at its distance shifted by `delta`. */
    method Reparent(a: Address, b: Address, delta: Dist)
      requires Valid() && a in nodes.at && b in nodes.at
      modifies this`nodes
      ensures Valid() && nodes.order == old(nodes.order)
      ensures nodes.at == old(nodes.at)[b := Collapse(neighbors, b, old(nodes.at[b]).(via := Hop(old(nodes.at[a]), a)),
                                                           Add(old(nodes.at[b]).distance, delta))]
    {
      nodes := nodes.Put(b, nodes.at[b].(via := if nodes.at[a].via != None then nodes.at[a].via else Some(a)));
      UpdateByCheckingLinks(b, Add(nodes.at[b].distance, delta));
    }

    /** The stream pass of updateByCheckingDescendants: every route through
        `a`, in iteration order, re-pointed to `target` and shifted by
        `delta` (see Reparent), and added to `updated`. */
    method ReparentChildren(a: Address, ghost target: Option<Address>, delta: Dist, updated: set<Address>)
      returns (updated': set<Address>)
      requires Valid() && a in nodes.at && Hop(nodes.at[a], a) == target
      modifies this`nodes
      ensures Valid()
      ensures nodes == Table(old(nodes.order), map b | b in old(nodes.at) :: Cascade(neighbors, a, target, delta, b, old(nodes.at[b])))
      ensures updated' == updated + set b | b in old(nodes.at) && old(nodes.at[b]).via == Some(a)
    {
      var order := nodes.order;
      ghost var start := nodes.at;
      updated' := updated;
      for i := 0 to |order|
        invariant Valid() && nodes.order == order && nodes.at.Keys == start.Keys
        invariant forall j :: 0 <= j < |order| ==>
                    nodes.at[order[j]] == if j < i then Cascade(neighbors, a, target, delta, order[j], start[order[j]])
                                          else start[order[j]]
        invariant Hop(nodes.at[a], a) == target
        invariant forall b :: b in updated' <==>
                    b in updated || exists j :: 0 <= j < i && order[j] == b && start[b].via == Some(a)
      {
        var b := order[i];
        ghost var before := nodes.at;
        assert before[b] == start[b];
        if nodes.at[b].via == Some(a) {
          Reparent(a, b, delta);
          updated' := updated' + {b};
        }
        assert nodes.at == before[b := Cascade(neighbors, a, target, delta, b, start[b])];
        forall j | 0 <= j < |order|
          ensures nodes.at[order[j]] == if j < i + 1 then Cascade(neighbors, a, target, delta, order[j], start[order[j]])
                                        else start[order[j]]
        {
          if j != i {
            assert order[j] != b;
          }
        }
      }
      ChildrenByOrder(a, order, start, updated, updated');
      CascadeByOrder(neighbors, a, target, delta, order, start, nodes.at);
    }

    /** updateByCheckingDescendants(a, d, updated): sets the route to `a` to
        distance `d` and, when `a` is a neighbor with a finite old distance,
        shifts every route through `a` by the same delta, re-pointing it to
        the next hop of `a` (or keeping it on `a` when that is direct) and
        link-checking it; those routes are added to `updated`. */
    method UpdateByCheckingDescendants(a: Address, d: Dist, updated: set<Address>)
      returns (updated': set<Address>)
      requires Valid() && a in nodes.at
      modifies this`nodes
      ensures Valid()
      ensures nodes == Descend(neighbors, old(nodes), a, d).0
      ensures updated' == updated + Descend(neighbors, old(nodes), a, d).1
    {
      var node := nodes.at[a];
      if a !in neighbors.at || !IsFinite(node.distance) {
        nodes := nodes.Put(a, node.(distance := d));
        return updated;
      }
      var delta := Minus(d, node.distance.value);
      nodes := nodes.Put(a, node.(distance := Add(node.distance, delta)));
      updated' := ReparentChildren(a, Hop(node, a), delta, updated);
    }

    /** sendDistanceVector(dest): a unicast of the split-horizon vector. */
    method SendDistanceVector(dest: Address)
      requires Valid()
      modifies this`outbox
      ensures outbox == old(outbox) + [Send(dest, VectorFor(address, nodes, dest))]
    {
      outbox := outbox + [Send(dest, VectorFor(address, nodes, dest))];
    }

    /** forEach(this::sendDistanceVector) over `dests`. */
    method SendDistanceVectors(dests: seq<Address>)
      requires Valid()
      modifies this`outbox
      ensures outbox == old(outbox) + VectorSends(address, nodes, dests)
    {
      for i := 0 to |dests|
        invariant outbox == old(outbox) + VectorSends(address, nodes, dests[..i])
      {
        assert VectorSends(address, nodes, dests[..i + 1]) == VectorSends(address, nodes, dests[..i]) + [Send(dests[i], VectorFor(address, nodes, dests[i]))];
        SendDistanceVector(dests[i]);
      }
      assert dests[..|dests|] == dests;
    }

    /** broadcastDistanceVector(): a vector to every responsive neighbor. */
    method BroadcastDistanceVector()
      requires Valid()
      modifies this`outbox
      ensures outbox == old(outbox) + VectorSends(address, nodes, Responsive(neighbors))
    {
      SendDistanceVectors(Responsive(neighbors));
    }

    /** broadcastDistanceVector(sender, updated, inform). */
    method BroadcastDistanceVectorFrom(sender: Address, updated: bool, inform: bool)
      requires Valid()
      modifies this`outbox
      ensures outbox == old(outbox) + VectorSends(address, nodes, Targets(neighbors, sender, updated, inform))
    {
      SendDistanceVectors(Targets(neighbors, sender, updated, inform));
    }

    /** The loop body of receivedDistanceVector for one entry `e` of the
        vector from `source`, which reports `reported` as its distance to
        this node. */
    method ProcessUpdate(source: Address, reported: Dist, e: Entry, updated: set<Address>, inform: set<Address>)
      returns (updated': set<Address>, inform': set<Address>)
      requires Valid() && source in nodes.at
      modifies this`nodes
      ensures Valid()
      ensures Scan(nodes, updated', inform') == EntryStep(address, source, reported, neighbors, Scan(old(nodes), updated, inform), e)
    {
      updated', inform' := updated, inform;
      if e.address == address {
        return;
      }
      var candidate := Add(nodes.at[source].distance, e.distance);
      if e.address !in nodes.at {
        if IsFinite(candidate) {
          nodes := nodes.Put(e.address, Route(candidate, Some(source)));
          updated' := updated' + {e.address};
        }
      } else {
        var node := nodes.at[e.address];
        if Lt(candidate, node.distance) {
          nodes := nodes.Put(e.address, node.(via := Some(source)));
          updated' := UpdateByCheckingDescendants(e.address, candidate, updated');
          updated' := updated' + {e.address};
        } else if Ne(node.distance, candidate) && node.via == Some(source) && e.address !in updated' {
          UpdateByCheckingLinks(e.address, candidate);
          updated' := updated' + {e.address};
        }
        if Lt(Add(reported, nodes.at[e.address].distance), e.distance) && nodes.at[e.address].via != Some(source) {
          inform' := inform' + {e.address};
        }
      }
    }

    /** The loop of receivedDistanceVector over the partitioned entries. */
    method ProcessUpdates(source: Address, reported: Dist, updates: seq<Entry>, updated: set<Address>, inform: set<Address>)
      returns (updated': set<Address>, inform': set<Address>)
      requires Valid() && source in nodes.at
      modifies this`nodes
      ensures Valid()
      ensures Scan(nodes, updated', inform') == ApplyEntries(address, source, reported, neighbors, Scan(old(nodes), updated, inform), updates)
    {
      updated', inform' := updated, inform;
      for i := 0 to |updates|
        invariant Valid() && source in nodes.at
        invariant Scan(nodes, updated', inform') == ApplyEntries(address, source, reported, neighbors, Scan(old(nodes), updated, inform), updates[..i])
      {
        assert updates[..i + 1][..i] == updates[..i];
        updated', inform' := ProcessUpdate(source, reported, updates[i], updated', inform');
      }
      assert updates[..|updates|] == updates;
    }

    /** The start of receivedDistanceVector: the sender's link is created
        with the reported cost, or given it when its cost is not finite, and
        the route to the sender is created as a direct one when missing. */
    method Bootstrap(source: Address, reported: Dist, now: int) returns (updated: set<Address>, inform: set<Address>)
      requires Valid()
      modifies this`neighbors, this`nodes
      ensures Valid() && source in nodes.at
      ensures neighbors == BootLinks(old(neighbors), source, reported, now)
      ensures Scan(nodes, updated, inform) == BootScan(old(nodes), source, reported)
    {
      var sender := if source in neighbors.at then neighbors.at[source] else Link(reported, now);
      var (links, added) := PutIfAbsent(neighbors, source, sender);
      neighbors := links;
      if !added && !IsFinite(sender.distance) {
        neighbors := neighbors.Put(source, sender.(distance := reported));
      }

      updated, inform := {}, {};
      var (routes, created) := PutIfAbsent(nodes, source, Route(reported, None));
      nodes := routes;
      if created {
        updated := updated + {source};
      }
    }

    /** receivedDistanceVector: `false`, with nothing changed, when the vector
        has no entry for this node (the source throws there).  Otherwise the
        sender bootstrap, the entry loop in partition order, and then, when
        some route was updated or the sender is to be informed, the replies
        and the purge. */
    method ReceivedDistanceVector(source: Address, entries: seq<Entry>, now: int) returns (ok: bool)
      requires Valid()
      modifies this`neighbors, this`nodes, this`outbox
      ensures Valid()
      ensures ok <==> SelfDistance(entries, address).Some?
      ensures !ok ==> neighbors == old(neighbors) && nodes == old(nodes) && outbox == old(outbox)
      ensures ok ==>
        var reported := SelfDistance(entries, address).value;
        var links := BootLinks(old(neighbors), source, reported, now);
        var boot := BootScan(old(nodes), source, reported);
        var s := ApplyEntries(address, source, reported, links, boot, Updates(boot.routes, entries));
        && neighbors == links
        && (if s.updated == {} && s.inform == {} then nodes == s.routes && outbox == old(outbox)
            else s.routes.Valid() && nodes == Purge(s.routes)
                 && outbox == old(outbox) + VectorSends(address, s.routes, Targets(links, source, s.updated != {}, s.inform != {})))
    {
      var self := SelfDistance(entries, address);
      if self.None? {
        return false;
      }
      ok := true;
      var reported := self.value;

      var updated, inform := Bootstrap(source, reported, now);
      ghost var boot := BootScan(old(nodes), source, reported);

      var updates := Partition(DirectRoute(nodes), true, entries);
      updated, inform := ProcessUpdates(source, reported, updates, updated, inform);
      ghost var s := ApplyEntries(address, source, reported, neighbors, boot, Updates(boot.routes, entries));
      assert s == Scan(nodes, updated, inform);

      if updated != {} || inform != {} {
        ghost var sent := outbox;
        BroadcastDistanceVectorFrom(source, updated != {}, inform != {});
        assert outbox == sent + VectorSends(address, s.routes, Targets(neighbors, source, s.updated != {}, s.inform != {}));
        FilterNodes();
        assert nodes == Purge(s.routes);
        assert sent == old(outbox);
        assert outbox == old(outbox) + VectorSends(address, s.routes, Targets(BootLinks(old(neighbors), source, reported, now), source, s.updated != {}, s.inform != {}));
      } else {
        assert s.updated == {} && s.inform == {};
        assert nodes == s.routes;
        assert outbox == old(outbox);
      }
    }

    /** The locked probe half of the ping task: the probe time, and an echo
        request to every neighbor whose configured cost is finite. */
    method ProbeNeighbors(now: int) returns (echoRequest: int)
      requires Valid() && Configured()
      modifies this`outbox
      ensures echoRequest == now
      ensures outbox == old(outbox) + Multicast(EchoRequest(address), ProbeTargets(neighbors, neighborDistances))
    {
      echoRequest := now;
      outbox := outbox + Multicast(EchoRequest(address), ProbeTargets(neighbors, neighborDistances));
    }

    /** The loop body of the detection half of the ping task for neighbor `k`:
        its cost becomes infinite when it has not echoed since the probe, and
        the configured cost otherwise; its route is created or re-set to the
        direct link; the link is dropped once it has been silent too long. */
    method PingNeighbor(echoRequest: int, k: Address, updated: set<Address>) returns (updated': set<Address>)
      requires Valid() && k in neighbors.at && k in neighborDistances
      modifies this`neighbors, this`nodes
      ensures Valid()
      ensures Sweep(neighbors, nodes, updated') == PingStep(echoRequest, neighborDistances, Sweep(old(neighbors), old(nodes), updated), k)
    {
      updated' := updated;
      var link := neighbors.at[k];
      var cost := if link.lastEcho < echoRequest then Inf else neighborDistances[k];
      neighbors := neighbors.Put(k, link.(distance := cost));
      if k !in nodes.at {
        if IsFinite(cost) {
          nodes := nodes.Put(k, Route(cost, None));
          updated' := updated' + {k};
        }
      } else if (nodes.at[k].via.None? && Ne(cost, nodes.at[k].distance))
             || (nodes.at[k].via.Some? && Le(cost, nodes.at[k].distance)) {
        updated' := UpdateByCheckingDescendants(k, cost, updated');
        nodes := nodes.Put(k, nodes.at[k].(via := None));
        updated' := updated' + {k};
      }
      if !IsFinite(cost) && echoRequest - link.lastEcho > LinkLife {
        neighbors := neighbors.Remove(k);
      }
    }

    /** The iterator loop of the detection half: PingNeighbor on every
        neighbor, in iteration order. */
    method SweepNeighbors(echoRequest: int) returns (updated: set<Address>)
      requires Valid() && Configured()
      modifies this`neighbors, this`nodes
      ensures Valid() && Configured()
      ensures Sweep(neighbors, nodes, updated) ==
                PingLoop(echoRequest, neighborDistances, Sweep(old(neighbors), old(nodes), {}), old(neighbors.order))
    {
      ghost var init := Sweep(neighbors, nodes, {});
      var order := neighbors.order;
      updated := {};
      assert forall k :: k in order ==> k in init.links.at && k in neighborDistances;
      for i := 0 to |order|
        invariant Valid() && Configured()
        invariant Distinct(order[..i]) && forall k :: k in order[..i] ==> k in init.links.at && k in neighborDistances
        invariant Sweep(neighbors, nodes, updated) == PingLoop(echoRequest, neighborDistances, init, order[..i])
      {
        PingLoopExtend(echoRequest, neighborDistances, init, order, i);
        updated := PingNeighbor(echoRequest, order[i], updated);
      }
      assert order[..|order|] == order;
    }

    /** The locked detection half of the ping task, after the timeout: every
        neighbor, in iteration order, is marked down or given its configured
        cost, its route is created or re-set to the direct link, and it is
        removed once expired; when a route changed, a vector goes to every
        responsive neighbor and the table is purged. */
    method DetectUnreachable(echoRequest: int)
      requires Valid() && Configured()
      modifies this`neighbors, this`nodes, this`outbox
      ensures Valid() && Configured()
      ensures
        var s := PingLoop(echoRequest, neighborDistances, Sweep(old(neighbors), old(nodes), {}), old(neighbors.order));
        && neighbors == s.links
        && (if s.updated == {} then nodes == s.routes && outbox == old(outbox)
            else s.routes.Valid() && nodes == Purge(s.routes)
                 && outbox == old(outbox) + VectorSends(address, s.routes, Responsive(s.links)))
    {
      var updated := SweepNeighbors(echoRequest);
      ghost var s := PingLoop(echoRequest, neighborDistances, Sweep(old(neighbors), old(nodes), {}), old(neighbors.order));

      if updated != {} {
        ghost var sent := outbox;
        SendDistanceVectors(Responsive(neighbors));
        assert outbox == sent + VectorSends(address, s.routes, Responsive(s.links));
        FilterNodes();
        assert sent == old(outbox);
      } else {
        assert nodes == s.routes && outbox == old(outbox);
      }
    }
  }
}
