/** What the routing engine promises, stated over the step functions of
    Routing: the per-entry rules of receivedDistanceVector, the descendant
    cascade, the link check and the detection half of the ping task. */
module RoutingFacts {
  import opened Collections
  import opened Distances
  import opened Protocol
  import opened Routing

  // ------------------------------------------------------------ link check

  /** updateByCheckingLinks: the route becomes the direct link exactly when
      `a` is a neighbor whose cost is at most `d`, and otherwise takes `d`
      and keeps its next hop; no other route is touched. */
  lemma LinkCheckOutcome(links: Links, routes: Routes, a: Address, d: Dist)
    requires a in routes.at
    ensures var r := routes.Put(a, Collapse(links, a, routes.at[a], d));
      && r.order == routes.order && r.at.Keys == routes.at.Keys
      && (a in links.at && Le(links.at[a].distance, d) ==> r.at[a] == Route(links.at[a].distance, None))
      && (!(a in links.at && Le(links.at[a].distance, d)) ==> r.at[a] == Route(d, routes.at[a].via))
      && forall b :: b in routes.at && b != a ==> r.at[b] == routes.at[b]
  {
  }

  /** The link check never leaves a route longer than the candidate distance
      it is given, unless that candidate is unknown. */
  lemma LinkCheckNeverLengthens(links: Links, a: Address, route: Route, d: Dist)
    requires !d.Unknown?
    ensures Le(Collapse(links, a, route, d).distance, d)
  {
  }

  // ------------------------------------------------------ descendant cascade

  /** When `a` is not a neighbor or its route is not finite, it has no
      children in the forwarding tree: only its own distance is set. */
  lemma DescendOffTree(links: Links, routes: Routes, a: Address, d: Dist)
    requires a in routes.at && (a !in links.at || !IsFinite(routes.at[a].distance))
    ensures Descend(links, routes, a, d).0.at == routes.at[a := routes.at[a].(distance := d)]
    ensures Descend(links, routes, a, d).1 == {}
  {
  }

  /** In the tree case the route to `a` itself ends at distance `d`. When
      that route goes through `a` itself, it is also its own child: the
      stream pass re-points it to `a` and link-checks it at `d` plus the
      delta once more. */
  lemma DescendAnchor(links: Links, routes: Routes, a: Address, d: Dist)
    requires a in routes.at && a in links.at && IsFinite(routes.at[a].distance)
    ensures var r := Descend(links, routes, a, d).0;
      var delta := Minus(d, routes.at[a].distance.value);
      && (routes.at[a].via != Some(a) ==> r.at[a] == routes.at[a].(distance := d))
      && (routes.at[a].via == Some(a) ==> r.at[a] == Collapse(links, a, Route(d, Some(a)), Add(d, delta)))
  {
  }

  /** In the tree case exactly the routes through `a` are marked; each of them
      takes over the next hop of `a` (or `a` itself when `a` is direct) and is
      link-checked at its distance plus the delta `d - old`, where the route
      to `a`, when it is its own child, starts from `d`; every other route is
      unchanged. */
  lemma DescendChildren(links: Links, routes: Routes, a: Address, d: Dist)
    requires a in routes.at && a in links.at && IsFinite(routes.at[a].distance)
    ensures var (r, children) := Descend(links, routes, a, d);
      var delta := Minus(d, routes.at[a].distance.value);
      var via := if routes.at[a].via.Some? then routes.at[a].via else Some(a);
      && (forall b :: b in children <==> b in routes.at && routes.at[b].via == Some(a))
      && (forall b :: b in routes.at && b != a && routes.at[b].via != Some(a) ==> r.at[b] == routes.at[b])
      && (forall b :: b in routes.at && b != a && routes.at[b].via == Some(a) ==>
            r.at[b] == Collapse(links, b, routes.at[b].(via := via), Add(routes.at[b].distance, delta)))
      && (routes.at[a].via == Some(a) ==>
            r.at[a] == Collapse(links, a, routes.at[a].(distance := d).(via := via), Add(d, delta)))
  {
  }

  /** A finite child of `a` that the link check leaves alone moves by exactly
      the change of the distance to `a`, onto the next hop of `a`. */
  lemma DescendShiftsChild(links: Links, routes: Routes, a: Address, d: Dist, b: Address)
    requires a in routes.at && a in links.at && IsFinite(routes.at[a].distance) && IsFinite(d)
    requires b in routes.at && b != a && routes.at[b].via == Some(a) && IsFinite(routes.at[b].distance)
    requires var moved := Fin(routes.at[b].distance.value + d.value - routes.at[a].distance.value);
             !(b in links.at && Le(links.at[b].distance, moved))
    ensures Descend(links, routes, a, d).0.at[b] ==
              Route(Fin(routes.at[b].distance.value + d.value - routes.at[a].distance.value), Hop(routes.at[a], a))
  {
    ShiftByDelta(routes.at[b].distance.value, d, routes.at[a].distance.value);
  }

  // ------------------------------------------------------- sender bootstrap

  /** The sender's link after the bootstrap: new with the reported cost, or
      re-costed when its cost was not finite, else untouched; no other link
      changes. */
  lemma BootLinksOutcome(links: Links, source: Address, reported: Dist, now: int)
    ensures var r := BootLinks(links, source, reported, now);
      && r.at.Keys == links.at.Keys + {source}
      && (forall b :: b in links.at && b != source ==> r.at[b] == links.at[b])
      && (source !in links.at ==> r.at[source] == Link(reported, now))
      && (source in links.at && IsFinite(links.at[source].distance) ==> r.at[source] == links.at[source])
      && (source in links.at && !IsFinite(links.at[source].distance) ==>
            r.at[source] == Link(reported, links.at[source].lastEcho))
  {
  }

  /** The route to the sender after the bootstrap: a direct route with the
      reported cost when it was missing, which is then the one update. */
  lemma BootScanOutcome(routes: Routes, source: Address, reported: Dist)
    ensures var s := BootScan(routes, source, reported);
      && s.routes.at.Keys == routes.at.Keys + {source}
      && (forall b :: b in routes.at ==> s.routes.at[b] == routes.at[b])
      && (source !in routes.at ==> s.routes.at[source] == Route(reported, None) && s.updated == {source})
      && (source in routes.at ==> s.updated == {})
      && s.inform == {}
  {
  }

  // ----------------------------------------------------- per-entry rules

  /** The entry for the receiver's own address changes nothing. */
  lemma SelfEntryIgnored(self: Address, source: Address, reported: Dist, links: Links, s: Scan, e: Entry)
    requires source in s.routes.at && e.address == self
    ensures EntryStep(self, source, reported, links, s, e) == s
  {
  }

  /** An unknown destination gets a route through the sender exactly when the
      distance through the sender is finite, and is then updated. */
  lemma CreateRule(self: Address, source: Address, reported: Dist, links: Links, s: Scan, e: Entry)
    requires source in s.routes.at && e.address != self && e.address !in s.routes.at
    ensures var r := EntryStep(self, source, reported, links, s, e);
      var candidate := Add(s.routes.at[source].distance, e.distance);
      && (e.address in r.routes.at <==> IsFinite(candidate))
      && (IsFinite(candidate) ==> r.routes.at[e.address] == Route(candidate, Some(source)) && e.address in r.updated)
      && (forall b :: b in s.routes.at ==> r.routes.at[b] == s.routes.at[b])
      && r.inform == s.inform
  {
  }

  /** A strictly shorter distance through the sender re-points the route to
      the sender and runs the descendant cascade at that distance. */
  lemma ImproveRule(self: Address, source: Address, reported: Dist, links: Links, s: Scan, e: Entry)
    requires source in s.routes.at && e.address != self && e.address in s.routes.at
    requires Lt(Add(s.routes.at[source].distance, e.distance), s.routes.at[e.address].distance)
    ensures var r := EntryStep(self, source, reported, links, s, e);
      var candidate := Add(s.routes.at[source].distance, e.distance);
      var (routes, children) := Descend(links, s.routes.Put(e.address, s.routes.at[e.address].(via := Some(source))), e.address, candidate);
      && r.routes == routes
      && r.updated == s.updated + children + {e.address}
  {
  }

  /** A different but not shorter distance is taken, through the link check,
      only from the current next hop and only once per vector. */
  lemma FollowNextHopRule(self: Address, source: Address, reported: Dist, links: Links, s: Scan, e: Entry)
    requires source in s.routes.at && e.address != self && e.address in s.routes.at
    requires var candidate := Add(s.routes.at[source].distance, e.distance);
             var node := s.routes.at[e.address];
             && !Lt(candidate, node.distance) && Ne(node.distance, candidate)
             && node.via == Some(source) && e.address !in s.updated
    ensures var r := EntryStep(self, source, reported, links, s, e);
      var candidate := Add(s.routes.at[source].distance, e.distance);
      && r.routes == s.routes.Put(e.address, Collapse(links, e.address, s.routes.at[e.address], candidate))
      && r.updated == s.updated + {e.address}
  {
  }

  /** In every other case the routes and the updated set stay as they are. */
  lemma KeepRule(self: Address, source: Address, reported: Dist, links: Links, s: Scan, e: Entry)
    requires source in s.routes.at && e.address in s.routes.at
    requires var candidate := Add(s.routes.at[source].distance, e.distance);
             var node := s.routes.at[e.address];
             && !Lt(candidate, node.distance)
             && !(Ne(node.distance, candidate) && node.via == Some(source) && e.address !in s.updated)
    ensures var r := EntryStep(self, source, reported, links, s, e);
      r.routes == s.routes && r.updated == s.updated
  {
  }

  /** A known destination is added to `inform` exactly when the sender's own
      advertisement is worse than going back through this node, and the
      route (as it stands after the entry) does not go through the sender. */
  lemma InformRule(self: Address, source: Address, reported: Dist, links: Links, s: Scan, e: Entry)
    requires source in s.routes.at && e.address != self && e.address in s.routes.at
    requires e.address !in s.inform
    ensures var r := EntryStep(self, source, reported, links, s, e);
      var now := r.routes.at[e.address];
      && (e.address in r.inform <==> Lt(Add(reported, now.distance), e.distance) && now.via != Some(source))
      && r.inform <= s.inform + {e.address}
  {
  }

  /** Collecting `inform` never steers the tables: the routes and updates of
      a step do not depend on the destinations already to be reported. */
  lemma InformDoesNotSteerStep(self: Address, source: Address, reported: Dist, links: Links,
                               s: Scan, e: Entry, inform: set<Address>)
    requires source in s.routes.at
    ensures var r := EntryStep(self, source, reported, links, s, e);
      var q := EntryStep(self, source, reported, links, s.(inform := inform), e);
      q.routes == r.routes && q.updated == r.updated
  {
  }

  // --------------------------------------------------- whole entry loop

  /** A vector never creates a route to the receiver itself. */
  lemma {:induction false} NoRouteToSelf(self: Address, source: Address, reported: Dist, links: Links,
                                         s: Scan, es: seq<Entry>)
    requires source in s.routes.at && self !in s.routes.at
    ensures self !in ApplyEntries(self, source, reported, links, s, es).routes.at
    decreases |es|
  {
    if es != [] {
      NoRouteToSelf(self, source, reported, links, s, es[..|es| - 1]);
    }
  }

  /** A vector creates routes only to destinations it advertises. */
  lemma {:induction false} OnlyAdvertisedCreated(self: Address, source: Address, reported: Dist, links: Links,
                                                 s: Scan, es: seq<Entry>)
    requires source in s.routes.at
    ensures forall a :: a in ApplyEntries(self, source, reported, links, s, es).routes.at ==>
              a in s.routes.at || exists i :: 0 <= i < |es| && es[i].address == a
    decreases |es|
  {
    if es != [] {
      var init := es[..|es| - 1];
      OnlyAdvertisedCreated(self, source, reported, links, s, init);
      forall a | a in ApplyEntries(self, source, reported, links, s, es).routes.at
        ensures a in s.routes.at || exists i :: 0 <= i < |es| && es[i].address == a
      {
        if a != es[|es| - 1].address && a !in s.routes.at {
          var i :| 0 <= i < |init| && init[i].address == a;
          assert es[i] == init[i];
        }
      }
    }
  }

  /** Every destination marked as updated has a route (before the purge). */
  lemma {:induction false} UpdatedHaveRoutes(self: Address, source: Address, reported: Dist, links: Links,
                                             s: Scan, es: seq<Entry>)
    requires source in s.routes.at && s.updated <= s.routes.at.Keys
    ensures var r := ApplyEntries(self, source, reported, links, s, es);
      r.updated <= r.routes.at.Keys
    decreases |es|
  {
    if es != [] {
      UpdatedHaveRoutes(self, source, reported, links, s, es[..|es| - 1]);
    }
  }

  /** Over a whole vector, the routes and updates do not depend on `inform`. */
  lemma {:induction false} InformDoesNotSteer(self: Address, source: Address, reported: Dist, links: Links,
                                              s: Scan, es: seq<Entry>, inform: set<Address>)
    requires source in s.routes.at
    ensures var r := ApplyEntries(self, source, reported, links, s, es);
      var q := ApplyEntries(self, source, reported, links, s.(inform := inform), es);
      q.routes == r.routes && q.updated == r.updated
    decreases |es|
  {
    if es != [] {
      var init := es[..|es| - 1];
      InformDoesNotSteer(self, source, reported, links, s, init, inform);
      var r := ApplyEntries(self, source, reported, links, s, init);
      var q := ApplyEntries(self, source, reported, links, s.(inform := inform), init);
      assert q == r.(inform := q.inform);
      InformDoesNotSteerStep(self, source, reported, links, r, es[|es| - 1], q.inform);
    }
  }

  // ------------------------------------------------------------- ping task

  /** One detection step: the neighbor's cost becomes infinite iff it has not
      echoed since the probe, else its configured cost; it is dropped iff that
      cost is not finite and it has been silent for longer than LinkLife. */
  lemma PingStepLink(echo: int, config: map<Address, Dist>, s: Sweep, k: Address)
    requires k in s.links.at && k in config
    ensures var r := PingStep(echo, config, s, k);
      var link := s.links.at[k];
      var cost := if link.lastEcho < echo then Inf else config[k];
      && (k in r.links.at <==> !(!IsFinite(cost) && echo - link.lastEcho > LinkLife))
      && (k in r.links.at ==> r.links.at[k] == Link(cost, link.lastEcho))
  {
  }

  /** One detection step: a missing route to the neighbor is created as a
      direct route iff its new cost is finite; an existing one is re-set when
      that link changed for a direct route or is no longer than an indirect
      route, and otherwise left as it is.  The re-set route is direct and
      updated; it takes the new cost, except for a finite route whose next
      hop is the neighbor itself, which the cascade shifts a second time, to
      twice the new cost minus the old distance. */
  lemma PingStepRoute(echo: int, config: map<Address, Dist>, s: Sweep, k: Address)
    requires k in s.links.at && k in config
    ensures var r := PingStep(echo, config, s, k);
      var cost := if s.links.at[k].lastEcho < echo then Inf else config[k];
      && (k !in s.routes.at ==> (k in r.routes.at <==> IsFinite(cost)))
      && (k !in s.routes.at && IsFinite(cost) ==> r.routes.at[k] == Route(cost, None) && k in r.updated)
      && (k !in s.routes.at ==> forall b :: b in s.routes.at ==> r.routes.at[b] == s.routes.at[b])
      && (k in s.routes.at && ResetsRoute(s.routes.at[k], cost) ==>
            r.routes.at[k].via.None? && k in r.updated)
      && (k in s.routes.at && ResetsRoute(s.routes.at[k], cost)
          && !(s.routes.at[k].via == Some(k) && IsFinite(s.routes.at[k].distance)) ==>
            r.routes.at[k] == Route(cost, None))
      && (k in s.routes.at && ResetsRoute(s.routes.at[k], cost)
          && s.routes.at[k].via == Some(k) && IsFinite(s.routes.at[k].distance) ==>
            IsFinite(cost) && r.routes.at[k] == Route(Fin(2.0 * cost.value - s.routes.at[k].distance.value), None))
      && (k in s.routes.at && !ResetsRoute(s.routes.at[k], cost) ==> r.routes == s.routes && r.updated == s.updated)
  {
    var link := s.links.at[k];
    var cost := ProbedCost(link, config[k], echo);
    var links := s.links.Put(k, link.(distance := cost));
    if k in s.routes.at && ResetsRoute(s.routes.at[k], cost) && IsFinite(s.routes.at[k].distance) {
      DescendAnchor(links, s.routes, k, cost);
    }
  }

  /** The double shift, on one concrete state: a route to neighbor 7 at
      distance 5 through 7 itself, whose link now costs 3, ends as a direct
      route of distance 1, shorter than the link it runs over. */
  lemma SelfHopShiftedTwice()
    ensures var s := Sweep(Table([7], map[7 := Link(Fin(5.0), 100)]), Table([7], map[7 := Route(Fin(5.0), Some(7))]), {});
      PingStep(100, map[7 := Fin(3.0)], s, 7).routes.at[7] == Route(Fin(1.0), None)
  {
    var s := Sweep(Table([7], map[7 := Link(Fin(5.0), 100)]), Table([7], map[7 := Route(Fin(5.0), Some(7))]), {});
    PingStepRoute(100, map[7 := Fin(3.0)], s, 7);
  }

  /** The detection loop over distinct neighbors `ks`: each of them ends with
      the cost its own step gave it, and is gone exactly when that step
      expired it; later steps never touch an earlier neighbor's link. */
  lemma {:induction false} PingLoopLinks(echo: int, config: map<Address, Dist>, s: Sweep, ks: seq<Address>)
    requires Distinct(ks) && forall k :: k in ks ==> k in s.links.at && k in config
    ensures var r := PingLoop(echo, config, s, ks);
      forall k :: k in ks ==>
        var link := s.links.at[k];
        var cost := if link.lastEcho < echo then Inf else config[k];
        && (k in r.links.at <==> !Expired(cost, link.lastEcho, echo))
        && (k in r.links.at ==> r.links.at[k] == Link(cost, link.lastEcho))
    decreases |ks|
  {
    if ks != [] {
      var init := ks[..|ks| - 1];
      var last := ks[|ks| - 1];
      assert Distinct(init);
      assert last !in init;
      PingLoopLinks(echo, config, s, init);
      var t := PingLoop(echo, config, s, init);
      PingStepLink(echo, config, t, last);
      forall k | k in ks
        ensures var r := PingLoop(echo, config, s, ks);
          var link := s.links.at[k];
          var cost := if link.lastEcho < echo then Inf else config[k];
          && (k in r.links.at <==> !Expired(cost, link.lastEcho, echo))
          && (k in r.links.at ==> r.links.at[k] == Link(cost, link.lastEcho))
      {
        if k != last {
          assert k in init;
        }
      }
    }
  }
}
