# Distance-vector routing node

This project models the routing engine of one node of the simulated network in
`src/Node.java`. The node keeps three tables:

- a **link table**, recording the measured cost of the link to each neighbor
  and when that neighbor was last heard from;
- a **routing table**, recording for each destination the best known distance
  and the neighbor it is reached through;
- the **configured link costs**, which the orchestrator sets from outside.

The node reacts to three messages: distance vectors, echo requests and echo
replies. It also runs a two-half ping task that probes its neighbors and then
detects those that went silent. Every one of these reactions is a critical
section of `Node`. Each one is modelled as one method of the class
`Nodes.RoutingNode`, which changes the tables in place and appends the
datagrams it sends to an outbox.

Each method is proved against a function of module `Routing`. That function
gives the new tables the step produces. Module `RoutingFacts` then proves
what the source promises about those functions:

- the create, improve, follow-the-next-hop and keep rules for one entry;
- the inform rule;
- the descendant cascade and the link check;
- the bootstrap of an unknown sender;
- the outcome of the detection loop for every neighbor.

Modules:

- `Collections`: the optional value standing for a Java `null`;
  stream filtering (`Select`) and `partition`; `Table`, a map together with
  the order in which an iteration visits its keys; `getOrPut` and
  `putIfAbsent`.
- `Distances`: the metric. A Java `double` used as a distance is either
  finite, `+Infinity` ("unreachable") or `NaN` ("not measured yet"). The
  module gives IEEE `<`, `<=`, `!=`, `+` and `-` on these three kinds, and
  the table-dump rendering `format`.
- `Protocol`: addresses, `LINK_LIFE`, messages, link and route records.
- `Routing`: one pure function per locked step.
- `Nodes`: the class `RoutingNode`.
- `RoutingFacts`: the lemmas.

Design choices:

- **Next hop.** `via` is a reference to a `Neighbor` object compared by
  identity. It is modelled as the neighbor's address (`Option<Address>`,
  `None` for a direct route).
- **Updates.** The `updated` and `inform` lists are only tested for
  emptiness and membership, so they are sets of addresses.
- **Iteration order.** A `HashMap`'s iteration order is unspecified. Every
  table therefore carries an explicit iteration order, and the source's
  iterations visit the keys in that order: the ping loop, `neighbors()`,
  `sendDistanceVector` and `removeIf`. New keys are appended at the end.
- **Behaviour of the code worth knowing.** In these places the code does
  something other than what a reader of a distance-vector router might
  assume, and the model follows the code:
  - There is no separate "after all entries, collapse every direct
    neighbor" pass in `receivedDistanceVector`. The collapse happens only
    inside `updateByCheckingLinks` (`src/Node.java:285-292`) and in the
    ping task (`src/Node.java:234-242`).
  - A different, not shorter distance from the current next hop is taken
    only through the link check. It is taken only when that destination was
    not already updated by the same vector
    (`src/Node.java:181-185`).
  - The inform test adds the sender's *reported* distance to the receiver,
    not the receiver's distance to the sender, to the route's distance
    (`src/Node.java:186`).
  - A link's measured cost has two writers, not one. The ping task sets it
    (`src/Node.java:224-225`), and so does the bootstrap of a known sender
    whose cost is not finite, which takes the cost the sender reports
    (`src/Node.java:147-149`).
  - A route to a neighbor whose next hop is that neighbor itself is its own
    child in `updateByCheckingDescendants`. It is shifted once at
    `src/Node.java:276` and once more as a child at `src/Node.java:279-281`.
    When the ping task resets such a route, it ends direct at twice the new
    cost minus the old distance, which can be shorter than the link
    (`RoutingFacts.SelfHopShiftedTwice`).
  - A vector without an entry for the receiver does not fail "that message
    only". `findFirst().get()` throws at `src/Node.java:143` before any
    state changes, and nothing in `run()` catches it, so the receive loop
    ends. The model returns `false` with nothing changed, which is the
    state the tables are left in.

## Model

| member | source | states |
|---|---|---|
| Collections.Partition | src/Node.java:447-454 | the result is a permutation of the values (same multiset and length), and every value whose predicate equals `reverse` comes before every value whose predicate does not |
| Collections.GetOrPut | src/Node.java:434-439 | afterwards the key is present and the returned value is the one stored there; it is the given value when the key was absent, else the value stored before; every old entry is unchanged and only the key is added |
| Collections.PutIfAbsent | src/Node.java:440-445 | reports true exactly when the key was absent, then stores the value there; old entries are unchanged and only the key is added |
| Distances.Add | src/Node.java:167 | IEEE sum of distances: NaN iff an operand is NaN, finite iff both are, and then the real sum |
| Distances.Minus | src/Node.java:275 | the delta `distance - old`: adding the old value back gives the new distance again, on either side |
| Distances.UnknownIsUnordered | src/Node.java:234-237 | NaN is neither `<` nor `<=` anything on either side, and `!=` everything, so an unmeasured link never satisfies a comparison |
| Distances.OrderFacts | src/Node.java:176-182 | `<=` is `<` or equality of ordered values, `<` is strict, and `!=` fails exactly on equal non-NaN values |
| Distances.ShiftByDelta | src/Node.java:275-281 | a finite route shifted by `d - old` ends at `x + d - old`, at infinity when `d` is infinite, and at NaN when `d` is NaN |
| Distances.IntRoundTrip | src/Node.java:459 | what `%d` prints for a long reads back as the same integer |
| Distances.Format | src/Node.java:456-462 | infinity renders as "Inf" and NaN as "NaN"; an integral value in long range renders as a string that reads back as that value; a finite value never renders as "Inf" or "NaN"; a non-integral value is not rendered as an integer |
| Routing.Collect | src/Node.java:44-52 | `toMap` over neighbors with distinct addresses: one entry per neighbor holding the value made from it, iterated in list order |
| Routing.Responsive | src/Node.java:263-266 | `neighbors()` yields exactly the neighbors whose measured cost is finite, each once |
| Routing.Purge | src/Node.java:293-295 | after `filterNodes` every route is finite, every route that was finite is still there unchanged, and no route is added |
| Routing.Advertised | src/Node.java:308-309 | the destinations in a vector for `dest` are exactly the routes whose next hop is not `dest` (split horizon), each once |
| Routing.VectorFor | src/Node.java:307-311 | the vector sent to `dest` comes from this node, carries every route not through `dest` with its distance, carries nothing else, and names each destination once |
| Routing.VectorSends | src/Node.java:202-204 | the addressees are exactly the destinations, one send each in order; every send is a vector from this node that carries each route not through its addressee, with its distance, and nothing else |
| Routing.Targets | src/Node.java:200-205 | a neighbor receives a reply iff it is responsive and either something was updated and it is not the sender, or the sender is to be informed and it is the sender |
| Routing.ProbeTargets | src/Node.java:212-213 | echo requests go exactly to the neighbors whose configured cost is finite, each once |
| Routing.Hop | src/Node.java:280 | a child of a route takes over that route's next hop when it has one, and is kept on the anchor neighbor itself when the route is direct; it is never left direct |
| Routing.Descend | src/Node.java:267-284 | the cascade keeps the set of destinations and their order, and marks only existing routes |
| Routing.SelfDistance | src/Node.java:142-143 | no value iff no entry names the receiver; otherwise the distance of the first entry that does |
| Routing.EntryStep | src/Node.java:161-189 | one entry adds at most a route to its own destination, removes none, only adds to `updated` and `inform`, and keeps the table well formed |
| Routing.ApplyEntries | src/Node.java:161-190 | the entry loop removes no route, only adds to `updated` and `inform`, and keeps the table well formed |
| Routing.PingStep | src/Node.java:222-247 | one detection step only touches neighbor `k`'s link, may only drop that link, keeps both tables well formed, and only adds to `updated` |
| Routing.PingLoop | src/Node.java:220-248 | the detection loop leaves links outside the visited keys unchanged, adds no link, keeps both tables well formed, and only adds to `updated` |
| RoutingFacts.LinkCheckOutcome | src/Node.java:285-292 | the route becomes the direct link (link cost, no next hop) exactly when the destination is a neighbor whose cost is `<= d`; otherwise it takes `d` and keeps its next hop; no other route and no key changes |
| RoutingFacts.LinkCheckNeverLengthens | src/Node.java:285-292 | unless the candidate is NaN, the link check never leaves a route longer than the candidate |
| RoutingFacts.DescendOffTree | src/Node.java:269-273 | for a non-neighbor or a non-finite route only its own distance is set, and nothing is marked |
| RoutingFacts.DescendAnchor | src/Node.java:275-283 | in the tree case the anchor route itself ends at the new distance; when its next hop is the anchor itself, it is its own child and is link-checked once more at the new distance plus the delta |
| RoutingFacts.DescendChildren | src/Node.java:275-283 | exactly the routes through the anchor are marked; each moves to the anchor's next hop (the anchor itself when that route is direct) and is link-checked at its distance plus the delta, the anchor as its own child from the new distance; all other routes are unchanged |
| RoutingFacts.DescendShiftsChild | src/Node.java:275-283 | a finite child the link check leaves alone moves by exactly the anchor's change and onto the anchor's next hop |
| RoutingFacts.BootLinksOutcome | src/Node.java:145-149 | an unknown sender gets a link with the reported cost, a known sender with a non-finite cost gets the reported cost, a finite one is untouched, and no other link changes |
| RoutingFacts.BootScanOutcome | src/Node.java:151-154 | a missing route to the sender is created direct with the reported cost and is the only update; an existing one is untouched and nothing is updated |
| RoutingFacts.SelfEntryIgnored | src/Node.java:162-164 | the entry for the receiver's own address changes nothing |
| RoutingFacts.CreateRule | src/Node.java:169-174 | an unknown destination gets a route exactly when the distance through the sender is finite, with the sender as next hop, and is then updated; nothing else changes and nothing is informed |
| RoutingFacts.ImproveRule | src/Node.java:176-180 | a strictly shorter distance re-points the route to the sender and runs the cascade at that distance; the route and the cascade's children are updated |
| RoutingFacts.FollowNextHopRule | src/Node.java:181-185 | a different, not shorter distance from the current next hop, for a destination not yet updated, is applied through the link check and marks it updated |
| RoutingFacts.KeepRule | src/Node.java:176-185 | in every other case the routes and the updated set stay as they are |
| RoutingFacts.InformRule | src/Node.java:186-188 | a known destination is to be informed exactly when the reported distance plus the (post-update) route distance is below the advertised one and the route does not go through the sender |
| RoutingFacts.InformDoesNotSteerStep | src/Node.java:186-188 | the routes and updates of one step do not depend on the inform set |
| RoutingFacts.NoRouteToSelf | src/Node.java:161-164 | a whole vector never creates a route to the receiver |
| RoutingFacts.OnlyAdvertisedCreated | src/Node.java:161-190 | a whole vector only creates routes to destinations it carries |
| RoutingFacts.UpdatedHaveRoutes | src/Node.java:153-190 | every destination marked updated by a vector has a route before the purge |
| RoutingFacts.InformDoesNotSteer | src/Node.java:161-190 | over a whole vector the routes and updates do not depend on which destinations are to be informed |
| RoutingFacts.PingStepLink | src/Node.java:224-225 | a neighbor's cost becomes infinite iff it has not echoed since the probe, else its configured cost; it is dropped iff that cost is not finite and it has been silent longer than `LINK_LIFE` |
| RoutingFacts.PingStepRoute | src/Node.java:227-242 | a missing route is created direct iff the new cost is finite; an existing one is re-set on a changed direct cost or when the link is no longer than an indirect route, becoming direct and updated at the new cost, or, for a finite route through the neighbor itself, at twice the new cost minus the old distance; otherwise nothing changes |
| RoutingFacts.SelfHopShiftedTwice | src/Node.java:234-242 | a route to neighbor 7 at distance 5 through 7 itself, reset over a link of cost 3, ends direct at distance 1 |
| RoutingFacts.PingLoopLinks | src/Node.java:220-248 | after the loop every visited neighbor holds the cost its own step gave it, and is gone exactly when that step expired it |
| Nodes.Multicast | src/Node.java:300-302 | one send per destination, in order; every send carries the message, and the addressees are exactly the destinations |
| Nodes.RoutingNode.constructor | src/Node.java:40-53 | one link, one direct route and one configured cost per initial neighbor, all with its cost; every neighbor is configured |
| Nodes.RoutingNode.SetNeighborDistance | src/Node.java:65-70 | the configured cost is recorded; a new peer gets a link of unknown cost; an existing link keeps its cost (only the ping task and the sender bootstrap write it) |
| Nodes.RoutingNode.ReceivedEchoRequest | src/Node.java:116-123 | the sender's link records the time (created with unknown cost if new), no other link changes, and one echo reply goes to the sender |
| Nodes.RoutingNode.ReceivedEchoReply | src/Node.java:125-131 | the sender's link records the time (created with unknown cost if new) and no other link changes |
| Nodes.RoutingNode.FilterNodes | src/Node.java:293-295 | the routing table becomes its purge |
| Nodes.RoutingNode.UpdateByCheckingLinks | src/Node.java:285-292 | the route to `a` becomes its link-checked value at `d` and nothing else changes |
| Nodes.RoutingNode.Reparent | src/Node.java:279-282 | one child moves to the anchor's next hop and is link-checked at its distance plus the delta; nothing else changes |
| Nodes.RoutingNode.ReparentChildren | src/Node.java:277-283 | the stream pass over the table gives every route the cascade value and marks exactly the routes through the anchor |
| Nodes.RoutingNode.UpdateByCheckingDescendants | src/Node.java:267-284 | the table and the updated set become those of the cascade |
| Nodes.RoutingNode.SendDistanceVector | src/Node.java:307-311 | one split-horizon vector is appended for the destination |
| Nodes.RoutingNode.SendDistanceVectors | src/Node.java:61 | the vectors for each destination, in order |
| Nodes.RoutingNode.BroadcastDistanceVector | src/Node.java:59-63 | a vector goes to every responsive neighbor |
| Nodes.RoutingNode.BroadcastDistanceVectorFrom | src/Node.java:200-205 | vectors go to the reply targets of the sender |
| Nodes.RoutingNode.Bootstrap | src/Node.java:145-154 | the link and route to the sender become their bootstrap values |
| Nodes.RoutingNode.ProcessUpdate | src/Node.java:161-189 | the table, updated and inform sets become those of the entry step |
| Nodes.RoutingNode.ProcessUpdates | src/Node.java:161-190 | those of the whole entry loop |
| Nodes.RoutingNode.ReceivedDistanceVector | src/Node.java:133-199 | a vector without an entry for this node changes nothing; otherwise the sender is bootstrapped, the entries run in partition order, and only when something was updated or is to be informed do the replies go out to the reply targets, followed by the purge |
| Nodes.RoutingNode.ProbeNeighbors | src/Node.java:209-214 | the probe time is `now`, and one echo request goes to every neighbor whose configured cost is finite |
| Nodes.RoutingNode.PingNeighbor | src/Node.java:222-247 | the link and route to one neighbor become those of the detection step |
| Nodes.RoutingNode.SweepNeighbors | src/Node.java:220-248 | the tables become those of the detection loop over the link table's iteration order |
| Nodes.RoutingNode.DetectUnreachable | src/Node.java:217-258 | the tables become those of the detection loop; only when some route was updated does a vector go to every neighbor then responsive, followed by the purge |

## Left out

- Threads, the `Timer`, the `synchronized (nodes)` lock and the `volatile` termination flag are left out. So are `run()`'s receive loop and dispatch, `start`, `terminate` and `sleep`. Each locked block is one atomic method, and the timeout wait is the gap between `ProbeNeighbors` and `DetectUnreachable`.
- `System.currentTimeMillis()` is not modelled. Each read becomes a `now` parameter. The probe time is handed from `ProbeNeighbors` to `DetectUnreachable` as `echoRequest`.
- Sockets, serialization and the datagram retry loops of `SerializedDatagram` are left out. Every send is appended to the outbox instead.
- All logging (`log`, `logDistanceVector`, `logLinkExpiration`, `logTermination`, `join`, `toString`, identifiers) is left out. It is console output.
- `Program` and `InteractiveShell` are not part of this model. They are scenario parsing, random topologies and the user interface.
- Object identity of `via` is not modelled. A neighbor dropped at `src/Node.java:246` and created again later is a new object in Java, so routes still pointing at the old object stop matching it. The model matches by address.
- The unspecified `HashMap` iteration order is fixed to insertion order. New keys go to the end, and removals keep the relative order of the rest.
- Duplicate addresses in the constructor's list are excluded by a precondition, since `toMap` throws on them.
- The missing-entry exception is not modelled: `false` stands for it, and so does the ending of the receive thread it causes.
- The unboxing of a missing configured cost in `getDistance` is not modelled. It is excluded by the `Configured()` precondition of the two ping halves. Echoes and vectors from an unconfigured peer can break that invariant, so the other methods do not require it.
- `-Infinity`, negative zero, rounding and overflow of `double` arithmetic are not modelled. Distances are exact reals plus `+Infinity` and `NaN`.
- Distances.Format: does not render the `%s` (`Double.toString`) branch for finite values outside the integral long range. It yields no string there.
- The ping task's detection half takes no `now`: it reads only the probe time.
- Cross-node properties are left out: convergence to shortest paths and acyclic next-hop edges need a model of the whole network and its messages.
