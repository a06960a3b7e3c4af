/** The routing engine of one node as functions of its tables: every locked
    step of src/Node.java written as the new tables it produces.  The class
    in nodes.dfy performs these steps in place and is proved against them. */
module Routing {
  import opened Collections
  import opened Distances
  import opened Protocol

  type Links = Table<Link>
  type Routes = Table<Route>

  // ---------------------------------------------------------------- tables

  /** neighbors(): the responsive neighbors, those whose measured cost is
      finite, in iteration order. */
  function Responsive(links: Links): (r: seq<Address>)
    requires links.Valid()
    ensures forall n :: n in r <==> n in links.at && IsFinite(links.at[n].distance)
    ensures Distinct(r)
  {
    SelectKeepsDistinct(links.order, n => n in links.at && IsFinite(links.at[n].distance), true);
    Select(links.order, n => n in links.at && IsFinite(links.at[n].distance), true)
  }

  /** filterNodes: drop every route whose distance is not finite. */
  function Purge(routes: Routes): (r: Routes)
    ensures forall a :: a in r.at ==> IsFinite(r.at[a].distance)
    ensures forall a :: a in routes.at && IsFinite(routes.at[a].distance) ==> a in r.at && r.at[a] == routes.at[a]
    ensures forall a :: a in r.at ==> a in routes.at
    ensures routes.Valid() ==> r.Valid()
  {
    routes.Retain((route: Route) => IsFinite(route.distance))
  }

  /** The addresses of `entries`, in order. */
  function Addresses(entries: seq<Entry>): (r: seq<Address>)
    ensures |r| == |entries| && forall i :: 0 <= i < |r| ==> r[i] == entries[i].address
  {
    seq(|entries|, i requires 0 <= i < |entries| => entries[i].address)
  }

  /** Collectors.toMap keyed by address, over entries with distinct addresses
      (toMap throws on a duplicate key): one value `f(e)` per entry, iterated
      in the order of the entries. */
  function Collect<V>(entries: seq<Entry>, f: Entry -> V): (t: Table<V>)
    requires Distinct(Addresses(entries))
    ensures t.Valid() && t.order == Addresses(entries)
    ensures forall i :: 0 <= i < |entries| ==> t.at[entries[i].address] == f(entries[i])
    decreases |entries|
  {
    if entries == [] then Table([], map[])
    else
      var init := entries[..|entries| - 1];
      var e := entries[|entries| - 1];
      assert Addresses(entries) == Addresses(init) + [e.address];
      assert Distinct(Addresses(init)) by {
        forall i, j | 0 <= i < j < |init| ensures init[i].address != init[j].address {
          assert Addresses(entries)[i] == init[i].address && Addresses(entries)[j] == init[j].address;
        }
      }
      var t := Collect(init, f);
      assert e.address !in t.order by {
        forall i | 0 <= i < |init| ensures t.order[i] != e.address {
          assert Addresses(entries)[i] == t.order[i];
        }
      }
      t.Put(e.address, f(e))
  }

  // ------------------------------------------------------------ messages

  /** The destinations a vector sent to `dest` advertises: every route except
      those whose next hop is `dest` (split horizon), in iteration order. */
  function Advertised(routes: Routes, dest: Address): (r: seq<Address>)
    requires routes.Valid()
    ensures forall a :: a in r <==> a in routes.at && routes.at[a].via != Some(dest)
    ensures forall i :: 0 <= i < |r| ==> r[i] in routes.at
    ensures Distinct(r)
  {
    var p := a => a in routes.at && routes.at[a].via != Some(dest);
    SelectKeepsDistinct(routes.order, p, true);
    Select(routes.order, p, true)
  }

  /** sendDistanceVector(dest): the vector `self` sends to `dest`. */
  function VectorFor(self: Address, routes: Routes, dest: Address): (m: Message)
    requires routes.Valid()
    ensures m.DistanceVector? && m.source == self
    ensures forall e :: e in m.entries ==>
              e.address in routes.at && routes.at[e.address].via != Some(dest)
              && e.distance == routes.at[e.address].distance
    ensures forall a :: a in routes.at && routes.at[a].via != Some(dest) ==>
              Entry(a, routes.at[a].distance) in m.entries
    ensures forall i, j :: 0 <= i < j < |m.entries| ==> m.entries[i].address != m.entries[j].address
  {
    var ks := Advertised(routes, dest);
    var es := seq(|ks|, i requires 0 <= i < |ks| => Entry(ks[i], routes.at[ks[i]].distance));
    assert forall a :: a in ks ==> Entry(a, routes.at[a].distance) in es by {
      forall a | a in ks ensures Entry(a, routes.at[a].distance) in es {
        var i :| 0 <= i < |ks| && ks[i] == a;
        assert es[i] == Entry(a, routes.at[a].distance);
      }
    }
    DistanceVector(self, es)
  }

  /** One sendDistanceVector per destination, in the given order: each
      destination is sent a vector from `self` that applies split horizon
      for that destination. */
  function VectorSends(self: Address, routes: Routes, dests: seq<Address>): (r: seq<Send>)
    requires routes.Valid()
    ensures |r| == |dests|
    ensures forall i :: 0 <= i < |r| ==> r[i].to == dests[i] && r[i].message == VectorFor(self, routes, dests[i])
    ensures forall n :: n in dests <==> exists i :: 0 <= i < |r| && r[i].to == n
    ensures forall i :: 0 <= i < |r| ==> r[i].message.DistanceVector? && r[i].message.source == self
    ensures forall i, e :: 0 <= i < |r| && e in r[i].message.entries ==>
              e.address in routes.at && routes.at[e.address].via != Some(r[i].to)
              && e.distance == routes.at[e.address].distance
    ensures forall i, a :: 0 <= i < |r| && a in routes.at && routes.at[a].via != Some(r[i].to) ==>
              Entry(a, routes.at[a].distance) in r[i].message.entries
  {
    seq(|dests|, i requires 0 <= i < |dests| => Send(dests[i], VectorFor(self, routes, dests[i])))
  }

  /** broadcastDistanceVector(sender, updated, inform): the responsive
      neighbors other than the sender when something was updated, and the
      sender itself when it is to be informed. */
  function Targets(links: Links, sender: Address, updated: bool, inform: bool): (r: seq<Address>)
    requires links.Valid()
    ensures forall n :: n in r <==>
              n in links.at && IsFinite(links.at[n].distance)
              && ((updated && n != sender) || (inform && n == sender))
    ensures Distinct(r)
  {
    var p := n => (updated && n != sender) || (inform && n == sender);
    SelectKeepsDistinct(Responsive(links), p, true);
    Select(Responsive(links), p, true)
  }

  /** The neighbors the probe half of the ping task sends an echo request to:
      those whose externally configured cost is finite. */
  function ProbeTargets(links: Links, config: map<Address, Dist>): (r: seq<Address>)
    requires links.Valid() && links.at.Keys <= config.Keys
    ensures forall n :: n in r <==> n in links.at && IsFinite(config[n])
    ensures Distinct(r)
  {
    var p := n => n in links.at && n in config && IsFinite(config[n]);
    SelectKeepsDistinct(links.order, p, true);
    Select(links.order, p, true)
  }

  // ------------------------------------------------- route maintenance

  /** updateByCheckingLinks on one record: collapse to the direct link when
      `a` is a neighbor whose cost is at most `d`, else take distance `d`. */
  function Collapse(links: Links, a: Address, route: Route, d: Dist): Route {
    if a in links.at && Le(links.at[a].distance, d) then Route(links.at[a].distance, None)
    else Route(d, route.via)
  }

  /** The next hop a child of `a` takes over from the route to `a`: its next
      hop, or `a` itself when that route is direct. */
  function Hop(route: Route, a: Address): (r: Option<Address>)
    ensures r.Some?
    ensures route.via.Some? ==> r == route.via
    ensures route.via.None? ==> r == Some(a)
  {
    if route.via.Some? then route.via else Some(a)
  }

  /** One record of the descendant cascade anchored at `a`: a route through
      `a` moves to `target` and is shifted by `delta`, then link-checked. */
  function Cascade(links: Links, a: Address, target: Option<Address>, delta: Dist,
                   b: Address, route: Route): Route
  {
    if route.via == Some(a) then Collapse(links, b, route.(via := target), Add(route.distance, delta))
    else route
  }

  /** updateByCheckingDescendants(a, d): the new routes and the routes the
      cascade marks as updated. */
  function Descend(links: Links, routes: Routes, a: Address, d: Dist): (r: (Routes, set<Address>))
    requires a in routes.at
    ensures r.0.at.Keys == routes.at.Keys && r.0.order == routes.order
    ensures r.1 <= routes.at.Keys
  {
    var node := routes.at[a];
    if a !in links.at || !IsFinite(node.distance) then
      (routes.Put(a, node.(distance := d)), {})
    else
      var delta := Minus(d, node.distance.value);
      var shifted := routes.Put(a, node.(distance := Add(node.distance, delta)));
      var target := Hop(node, a);
      (Table(shifted.order, map b | b in shifted.at :: Cascade(links, a, target, delta, b, shifted.at[b])),
       set b | b in shifted.at && shifted.at[b].via == Some(a))
  }

  /** A table walked in order `order` whose every visited route holds its
      cascade value holds exactly the cascade of `start`. */
  lemma CascadeByOrder(links: Links, a: Address, target: Option<Address>, delta: Dist, order: seq<Address>,
                       start: map<Address, Route>, now: map<Address, Route>)
    requires Enumerates(order, start.Keys) && now.Keys == start.Keys
    requires forall j :: 0 <= j < |order| ==> now[order[j]] == Cascade(links, a, target, delta, order[j], start[order[j]])
    ensures now == map b | b in start :: Cascade(links, a, target, delta, b, start[b])
  {
    forall b | b in start ensures now[b] == Cascade(links, a, target, delta, b, start[b]) {
      var j :| 0 <= j < |order| && order[j] == b;
    }
  }

  /** The routes marked while walking `order` are exactly the children of `a`. */
  lemma ChildrenByOrder(a: Address, order: seq<Address>, start: map<Address, Route>,
                        updated: set<Address>, marked: set<Address>)
    requires Enumerates(order, start.Keys)
    requires forall b :: b in marked <==>
               b in updated || exists j :: 0 <= j < |order| && order[j] == b && start[b].via == Some(a)
    ensures marked == updated + set b | b in start && start[b].via == Some(a)
  {
    var children := set b | b in start && start[b].via == Some(a);
    assert forall b :: b in marked <==> b in updated + children;
  }

  // ------------------------------------------- receiving a distance vector

  /** The distance the first entry for `self` carries: how far the sender
      measures itself from the receiver. */
  function SelfDistance(entries: seq<Entry>, self: Address): (r: Option<Dist>)
    ensures r.None? <==> forall e :: e in entries ==> e.address != self
    ensures r.Some? ==> exists i :: 0 <= i < |entries| && entries[i] == Entry(self, r.value)
                                    && forall j :: 0 <= j < i ==> entries[j].address != self
  {
    if entries == [] then None
    else if entries[0].address == self then Some(entries[0].distance)
    else
      var r := SelfDistance(entries[1..], self);
      assert forall e :: e in entries[1..] ==> e in entries;
      assert entries[0] in entries;
      if r.Some? then
        var i :| 0 <= i < |entries[1..]| && entries[1..][i] == Entry(self, r.value)
                 && forall j :: 0 <= j < i ==> entries[1..][j].address != self;
        assert entries[i + 1] == Entry(self, r.value);
        r
      else r
  }

  /** The sender link after the bootstrap: created with the reported cost
      when unknown, its cost overwritten when not finite, else untouched. */
  function BootLinks(links: Links, source: Address, reported: Dist, now: int): Links {
    var sender := if source in links.at then links.at[source] else Link(reported, now);
    var (m, added) := PutIfAbsent(links, source, sender);
    if !added && !IsFinite(sender.distance) then m.Put(source, sender.(distance := reported)) else m
  }

  /** The state of a vector's processing: the routes, the destinations
      updated so far and those the sender is to be informed about. */
  datatype Scan = Scan(routes: Routes, updated: set<Address>, inform: set<Address>)

  /** The route to the sender after the bootstrap: created as a direct route
      with the reported cost when missing, which counts as an update. */
  function BootScan(routes: Routes, source: Address, reported: Dist): Scan {
    var (m, added) := PutIfAbsent(routes, source, Route(reported, None));
    Scan(m, if added then {source} else {}, {})
  }

  /** The partition predicate: the entry's destination has a direct route. */
  function DirectRoute(routes: Routes): Entry -> bool {
    (e: Entry) => e.address in routes.at && routes.at[e.address].via.None?
  }

  /** The order in which the entries are processed: direct destinations first. */
  function Updates(routes: Routes, entries: seq<Entry>): seq<Entry> {
    Partition(DirectRoute(routes), true, entries)
  }

  /** The loop body of receivedDistanceVector for one entry. */
  function EntryStep(self: Address, source: Address, reported: Dist, links: Links,
                     s: Scan, e: Entry): (r: Scan)
    requires source in s.routes.at
    ensures s.routes.at.Keys <= r.routes.at.Keys <= s.routes.at.Keys + {e.address}
    ensures s.updated <= r.updated && s.inform <= r.inform
    ensures s.routes.Valid() ==> r.routes.Valid()
  {
    if e.address == self then s
    else
      var routes := s.routes;
      var candidate := Add(routes.at[source].distance, e.distance);
      if e.address !in routes.at then
        if IsFinite(candidate) then
          Scan(routes.Put(e.address, Route(candidate, Some(source))), s.updated + {e.address}, s.inform)
        else s
      else
        var node := routes.at[e.address];
        var (routes', updated') :=
          if Lt(candidate, node.distance) then
            var (rs, children) := Descend(links, routes.Put(e.address, node.(via := Some(source))), e.address, candidate);
            (rs, s.updated + children + {e.address})
          else if Ne(node.distance, candidate) && node.via == Some(source) && e.address !in s.updated then
            (routes.Put(e.address, Collapse(links, e.address, node, candidate)), s.updated + {e.address})
          else (routes, s.updated);
        var now := routes'.at[e.address];
        var inform' := if Lt(Add(reported, now.distance), e.distance) && now.via != Some(source)
                       then s.inform + {e.address} else s.inform;
        Scan(routes', updated', inform')
  }

  /** The loop of receivedDistanceVector over `es`, first entry first. */
  function ApplyEntries(self: Address, source: Address, reported: Dist, links: Links,
                        s: Scan, es: seq<Entry>): (r: Scan)
    requires source in s.routes.at
    ensures s.routes.at.Keys <= r.routes.at.Keys
    ensures s.updated <= r.updated && s.inform <= r.inform
    ensures s.routes.Valid() ==> r.routes.Valid()
    decreases |es|
  {
    if es == [] then s
    else EntryStep(self, source, reported, links,
                   ApplyEntries(self, source, reported, links, s, es[..|es| - 1]), es[|es| - 1])
  }

  // ------------------------------------------------------------ ping task

  /** The state of the detection loop: links, routes and updated routes. */
  datatype Sweep = Sweep(links: Links, routes: Routes, updated: set<Address>)

  /** Whether the detection step re-sets the route to neighbor `k` to the
      direct link of cost `cost`. */
  predicate ResetsRoute(route: Route, cost: Dist) {
    (route.via.None? && Ne(cost, route.distance)) || (route.via.Some? && Le(cost, route.distance))
  }

  /** Whether a neighbor whose last echo is `lastEcho` and whose new cost is
      `cost` expires at probe time `echo`. */
  predicate Expired(cost: Dist, lastEcho: int, echo: int) {
    !IsFinite(cost) && echo - lastEcho > LinkLife
  }

  /** The cost the detection step gives a link: infinite when the neighbor has
      not echoed since the probe at `echo`, the configured cost otherwise. */
  function ProbedCost(link: Link, configured: Dist, echo: int): Dist {
    if link.lastEcho < echo then Inf else configured
  }

  /** The loop body of the detection half of the ping task for neighbor `k`. */
  function PingStep(echo: int, config: map<Address, Dist>, s: Sweep, k: Address): (r: Sweep)
    requires k in s.links.at && k in config
    ensures r.links.at.Keys <= s.links.at.Keys
    ensures forall j :: j in s.links.at && j != k ==> j in r.links.at && r.links.at[j] == s.links.at[j]
    ensures s.links.Valid() ==> r.links.Valid()
    ensures s.routes.Valid() ==> r.routes.Valid()
    ensures s.updated <= r.updated
  {
    var link := s.links.at[k];
    var cost := ProbedCost(link, config[k], echo);
    var links := s.links.Put(k, link.(distance := cost));
    var (routes, updated) :=
      if k !in s.routes.at then
        if IsFinite(cost) then (s.routes.Put(k, Route(cost, None)), s.updated + {k})
        else (s.routes, s.updated)
      else if ResetsRoute(s.routes.at[k], cost) then
        var (rs, children) := Descend(links, s.routes, k, cost);
        (rs.Put(k, rs.at[k].(via := None)), s.updated + children + {k})
      else (s.routes, s.updated);
    var links' := if Expired(cost, link.lastEcho, echo) then links.Remove(k) else links;
    Sweep(links', routes, updated)
  }

  /** The detection loop over the neighbors in `ks`, first key first. */
  function PingLoop(echo: int, config: map<Address, Dist>, s: Sweep, ks: seq<Address>): (r: Sweep)
    requires Distinct(ks)
    requires forall k :: k in ks ==> k in s.links.at && k in config
    ensures r.links.at.Keys <= s.links.at.Keys
    ensures forall j :: j in s.links.at && j !in ks ==> j in r.links.at && r.links.at[j] == s.links.at[j]
    ensures s.links.Valid() ==> r.links.Valid()
    ensures s.routes.Valid() ==> r.routes.Valid()
    ensures s.updated <= r.updated
    decreases |ks|
  {
    if ks == [] then s
    else
      var init := ks[..|ks| - 1];
      var k := ks[|ks| - 1];
      assert Distinct(init);
      assert k !in init;
      PingStep(echo, config, PingLoop(echo, config, s, init), k)
  }

  /** One more neighbor of a fixed visiting order: the loop over the first
      `i + 1` keys is the step for key `i` after the loop over the first `i`. */
  lemma PingLoopExtend(echo: int, config: map<Address, Dist>, s: Sweep, ks: seq<Address>, i: nat)
    requires i < |ks| && Distinct(ks) && forall k :: k in ks ==> k in s.links.at && k in config
    ensures Distinct(ks[..i]) && Distinct(ks[..i + 1])
    ensures forall k :: k in ks[..i + 1] ==> k in s.links.at && k in config
    ensures ks[i] in PingLoop(echo, config, s, ks[..i]).links.at
    ensures PingLoop(echo, config, s, ks[..i + 1]) == PingStep(echo, config, PingLoop(echo, config, s, ks[..i]), ks[i])
  {
    assert ks[..i + 1][..i] == ks[..i];
    assert ks[i] !in ks[..i];
  }
}
