/** Vehicle routing over exact distances: the greedy solver and 2-opt improvement. */
module Routing {
  import opened Collections

  datatype Order = Order(id: int, node: nat, quantity: int)

  type Distances = (nat, nat) -> real

  datatype Instance = Instance(distance: Distances, orders: seq<Order>, starts: seq<nat>, capacities: seq<int>)

  datatype Solution = Solution(
    routes: seq<seq<nat>>, served: seq<int>, unserved: seq<int>, total: real, perAgent: seq<real>)

  /** What an improved candidate must gain. */
  const TOLERANCE := 0.000000000001

  ghost predicate NonNegative(d: Distances) {
    forall a, b :: d(a, b) >= 0.0
  }

  // ---------- route length ----------

  /** The length of a path through the nodes, from the first to the last. */
  function PathLength(d: Distances, nodes: seq<nat>): real {
    if |nodes| <= 1 then 0.0
    else PathLength(d, nodes[..|nodes| - 1]) + d(nodes[|nodes| - 2], nodes[|nodes| - 1])
  }

  function RouteLength(d: Distances, start: nat, nodes: seq<nat>): real {
    if nodes == [] then 0.0 else d(start, nodes[0]) + PathLength(d, nodes)
  }

  lemma {:induction false} PathNonNegative(d: Distances, nodes: seq<nat>)
    requires NonNegative(d)
    ensures PathLength(d, nodes) >= 0.0
  {
    if |nodes| > 1 {
      PathNonNegative(d, nodes[..|nodes| - 1]);
    }
  }

  /** The accumulating loop of the source. */
  method MeasureRoute(d: Distances, start: nat, nodes: seq<nat>) returns (total: real)
    ensures total == RouteLength(d, start, nodes)
  {
    if nodes == [] { return 0.0; }
    total := d(start, nodes[0]);
    for i := 0 to |nodes| - 1
      invariant total == d(start, nodes[0]) + PathLength(d, nodes[..i + 1])
    {
      assert nodes[..i + 2][..i + 1] == nodes[..i + 1];
      total := total + d(nodes[i], nodes[i + 1]);
    }
    assert nodes[..|nodes|] == nodes;
  }

  function Costs(instance: Instance, routes: seq<seq<nat>>): (r: seq<real>)
    requires |routes| <= |instance.starts|
    ensures |r| == |routes|
  {
    seq(|routes|, a requires 0 <= a < |routes| => RouteLength(instance.distance, instance.starts[a], routes[a]))
  }

  // ---------- segment reversal ----------

  function Reversed<T>(s: seq<T>): (r: seq<T>)
    ensures |r| == |s| && multiset(r) == multiset(s)
    ensures forall k :: 0 <= k < |s| ==> r[k] == s[|s| - 1 - k]
  {
    if s == [] then []
    else
      assert s == s[..|s| - 1] + [s[|s| - 1]];
      [s[|s| - 1]] + Reversed(s[..|s| - 1])
  }

  /** nodes[:i] + reversed(nodes[i : j + 1]) + nodes[j + 1 :] */
  function Flip<T>(s: seq<T>, i: nat, j: nat): (r: seq<T>)
    requires i <= j < |s|
    ensures |r| == |s| && multiset(r) == multiset(s)
    ensures forall k :: 0 <= k < |s| ==> r[k] == if i <= k <= j then s[i + j - k] else s[k]
  {
    assert s == s[..i] + s[i..j + 1] + s[j + 1..];
    s[..i] + Reversed(s[i..j + 1]) + s[j + 1..]
  }

  lemma FlipAt<T>(s: seq<T>, i: nat, j: nat, k: nat)
    requires i <= j < |s| && k < |s|
    ensures |Flip(s, i, j)| == |s| && Flip(s, i, j)[k] == if i <= k <= j then s[i + j - k] else s[k]
  {}

  /** Reversing this segment gains no more than the tolerance. */
  predicate NoGain(d: Distances, start: nat, nodes: seq<nat>, i: nat, j: nat)
    requires i <= j < |nodes|
  {
    RouteLength(d, start, nodes) <= RouteLength(d, start, Flip(nodes, i, j)) + TOLERANCE
  }

  ghost predicate LocallyOptimal(d: Distances, start: nat, nodes: seq<nat>) {
    forall i, j :: 0 <= i < j < |nodes| ==> NoGain(d, start, nodes, i, j)
  }

  /** Each improvement costs at least one step of this count. */
  ghost function StepsLeft(d: Distances, start: nat, nodes: seq<nat>): int {
    (RouteLength(d, start, nodes) / TOLERANCE).Floor
  }

  lemma GainTakesStep(d: Distances, start: nat, before: seq<nat>, after: seq<nat>)
    requires NonNegative(d) && RouteLength(d, start, after) + TOLERANCE < RouteLength(d, start, before)
    ensures 0 <= StepsLeft(d, start, after) < StepsLeft(d, start, before)
  {
    PathNonNegative(d, after);
    var x, y := RouteLength(d, start, after) / TOLERANCE, RouteLength(d, start, before) / TOLERANCE;
    assert x + 1.0 < y;
  }

  function Pairs(nodes: seq<nat>, ids: seq<int>): (r: seq<(nat, int)>)
    requires |nodes| == |ids|
    ensures |r| == |nodes|
  {
    seq(|nodes|, k requires 0 <= k < |nodes| => (nodes[k], ids[k]))
  }

  lemma PairsFlip(nodes: seq<nat>, ids: seq<int>, i: nat, j: nat)
    requires |nodes| == |ids| && i <= j < |nodes|
    ensures Pairs(Flip(nodes, i, j), Flip(ids, i, j)) == Flip(Pairs(nodes, ids), i, j)
  {
    var ps := Pairs(nodes, ids);
    FlipMultiset(nodes, i, j);
    FlipMultiset(ids, i, j);
    FlipMultiset(ps, i, j);
    hide Flip;
    forall k | 0 <= k < |nodes| ensures Pairs(Flip(nodes, i, j), Flip(ids, i, j))[k] == Flip(ps, i, j)[k] {
      FlipAt(nodes, i, j, k);
      FlipAt(ids, i, j, k);
      FlipAt(ps, i, j, k);
    }
  }

  function Picked(ids: seq<int>, positions: seq<nat>): (r: seq<int>)
    requires PositionsWithin(positions, |ids|)
    ensures |r| == |positions|
  {
    seq(|positions|, k requires 0 <= k < |positions| => ids[positions[k]])
  }

  /** One route and its order ids after improvement: the same pairs, no longer than before, and no
      reversal left that gains more than the tolerance. */
  ghost predicate RouteImproved(
      d: Distances, start: nat, nodes: seq<nat>, ids: seq<int>, newNodes: seq<nat>, newIds: seq<int>)
  {
    && |newNodes| == |nodes| && |newIds| == |ids|
    && (|nodes| == |ids| ==> multiset(Pairs(newNodes, newIds)) == multiset(Pairs(nodes, ids)))
    && RouteLength(d, start, newNodes) <= RouteLength(d, start, nodes)
    && LocallyOptimal(d, start, newNodes)
  }

  /** The current nodes, with the ids their positions point to, are the pairs of the route. */
  ghost predicate Tracks(route: seq<nat>, ids: seq<int>, nodes: seq<nat>, positions: seq<nat>) {
    && |nodes| == |positions| == |route| == |ids|
    && PositionsWithin(positions, |ids|)
    && multiset(Pairs(nodes, Picked(ids, positions))) == multiset(Pairs(route, ids))
  }

  lemma FlipTracks(route: seq<nat>, ids: seq<int>, nodes: seq<nat>, positions: seq<nat>, i: nat, j: nat)
    requires Tracks(route, ids, nodes, positions) && i <= j < |nodes|
    ensures Tracks(route, ids, Flip(nodes, i, j), Flip(positions, i, j))
  {
    var picked := Picked(ids, positions);
    PickedFlip(ids, positions, i, j);
    PairsFlip(nodes, picked, i, j);
    FlipMultiset(Pairs(nodes, picked), i, j);
    FlipMultiset(nodes, i, j);
    FlipMultiset(positions, i, j);
    hide Flip, Pairs, Picked;
  }

  lemma FlipMultiset<T>(s: seq<T>, i: nat, j: nat)
    requires i <= j < |s|
    ensures |Flip(s, i, j)| == |s| && multiset(Flip(s, i, j)) == multiset(s)
  {}

  ghost predicate PositionsWithin(positions: seq<nat>, n: nat) {
    forall k :: 0 <= k < |positions| ==> positions[k] < n
  }

  lemma PickedFlip(ids: seq<int>, positions: seq<nat>, i: nat, j: nat)
    requires PositionsWithin(positions, |ids|) && i <= j < |positions|
    ensures PositionsWithin(Flip(positions, i, j), |ids|)
    ensures Picked(ids, Flip(positions, i, j)) == Flip(Picked(ids, positions), i, j)
  {
    var picked := Picked(ids, positions);
    FlipMultiset(positions, i, j);
    FlipMultiset(picked, i, j);
    hide Flip;
    forall k | 0 <= k < |positions|
      ensures Flip(positions, i, j)[k] < |ids| && ids[Flip(positions, i, j)[k]] == Flip(picked, i, j)[k]
    {
      FlipAt(positions, i, j, k);
      FlipAt(picked, i, j, k);
    }
  }

  /** The improvement loop on one route; positions records where each node came from. */
  method ImproveRoute(d: Distances, start: nat, route: seq<nat>, ids: seq<int>)
    returns (nodes: seq<nat>, newIds: seq<int>)
    requires NonNegative(d) && |route| == |ids|
    ensures |newIds| == |ids| && RouteImproved(d, start, route, ids, nodes, newIds)
  {
    nodes := route;
    var positions: seq<nat> := seq(|route|, k => k);
    assert Picked(ids, positions) == ids;
    var improved := true;
    hide Flip, RouteLength, NonNegative, LocallyOptimal;
    while improved
      invariant Tracks(route, ids, nodes, positions)
      invariant RouteLength(d, start, nodes) <= RouteLength(d, start, route)
      invariant !improved ==> LocallyOptimal(d, start, nodes)
      decreases StepsLeft(d, start, nodes), improved
    {
      var i, j := FirstGain(d, start, nodes);
      improved := i < |nodes|;
      if improved {
        GainTakesStep(d, start, nodes, Flip(nodes, i, j));
        FlipTracks(route, ids, nodes, positions, i, j);
        nodes := Flip(nodes, i, j);
        positions := Flip(positions, i, j);
      } else {
        NoGainLeft(d, start, nodes);
      }
    }
    newIds := Picked(ids, positions);
  }

  lemma NoGainLeft(d: Distances, start: nat, nodes: seq<nat>)
    requires forall a, b :: 0 <= a < b < |nodes| ==> NoGain(d, start, nodes, a, b)
    ensures LocallyOptimal(d, start, nodes)
  {}

  /** The double loop: the first reversal, in the order of i and then j, that gains more than the
      tolerance; i is the number of nodes when there is none. */
  method FirstGain(d: Distances, start: nat, nodes: seq<nat>) returns (i: nat, j: nat)
    ensures i < |nodes| ==> i < j < |nodes| && !NoGain(d, start, nodes, i, j)
    ensures i <= |nodes| && forall a, b :: 0 <= a < b < |nodes| && (a < i || (a == i && b < j)) ==>
      NoGain(d, start, nodes, a, b)
  {
    hide Flip, RouteLength;
    var bestLength := MeasureRoute(d, start, nodes);
    i, j := 0, 0;
    while i < |nodes|
      invariant i <= |nodes|
      invariant forall a, b :: 0 <= a < b < |nodes| && a < i ==> NoGain(d, start, nodes, a, b)
    {
      j := i + 1;
      while j < |nodes|
        invariant i < j <= |nodes|
        invariant forall b :: i < b < j ==> NoGain(d, start, nodes, i, b)
      {
        var length := MeasureRoute(d, start, Flip(nodes, i, j));
        if length + TOLERANCE < bestLength { return; }
        j := j + 1;
      }
      i := i + 1;
    }
  }

  // ---------- the greedy solver ----------

  /** The state of the greedy loop; a route lists the orders an agent has taken. */
  datatype Plan = Plan(remaining: seq<Order>, routes: seq<seq<Order>>, capacity: seq<int>, position: seq<nat>)

  predicate Shaped(plan: Plan) {
    |plan.routes| == |plan.capacity| == |plan.position|
  }

  predicate WellFormed(instance: Instance) {
    |instance.starts| == |instance.capacities|
  }

  /** {o.order_id: o}: the first occurrence of an id fixes its place, the last one its order. */
  function Keyed(orders: seq<Order>): seq<Order> {
    if orders == [] then []
    else Upsert(Keyed(orders[..|orders| - 1]), orders[|orders| - 1])
  }

  function Upsert(orders: seq<Order>, o: Order): seq<Order> {
    if orders == [] then [o]
    else if orders[0].id == o.id then [o] + orders[1..]
    else [orders[0]] + Upsert(orders[1..], o)
  }

  /** The first of the nearest orders that fit. */
  function Best(d: Distances, from: nat, room: int, orders: seq<Order>): (r: Option<nat>)
    ensures r.Some? ==> r.value < |orders|
  {
    if orders == [] then None
    else
      var last := |orders| - 1;
      var best := Best(d, from, room, orders[..last]);
      if orders[last].quantity > room then best
      else if best.None? || d(from, orders[last].node) < d(from, orders[best.value].node) then Some(last)
      else best
  }

  /** It fits, no order that fits is nearer, and none before it is as near. */
  lemma {:induction false} BestMeaning(d: Distances, from: nat, room: int, orders: seq<Order>)
    ensures var r := Best(d, from, room, orders);
      && (r.None? <==> forall k :: 0 <= k < |orders| ==> orders[k].quantity > room)
      && (r.Some? ==>
            && orders[r.value].quantity <= room
            && (forall k :: 0 <= k < |orders| && orders[k].quantity <= room ==>
                  d(from, orders[r.value].node) <= d(from, orders[k].node))
            && (forall k :: 0 <= k < r.value && orders[k].quantity <= room ==>
                  d(from, orders[r.value].node) < d(from, orders[k].node)))
  {
    if orders != [] {
      BestMeaning(d, from, room, orders[..|orders| - 1]);
    }
  }

  // ---------- the documented choice ----------

  /** A reward counts for at least one. */
  function Clamp(reward: real): real {
    if reward > 1.0 then reward else 1.0
  }

  /** The documented cost of an order: its distance over its reward. */
  function Weighed(d: Distances, from: nat, o: Order, reward: real): real {
    d(from, o.node) / Clamp(reward)
  }

  /** The choice, if there is one, is a cheapest order that fits by the documented cost. */
  ghost predicate ChoosesCheapest(d: Distances, from: nat, room: int, orders: seq<Order>, rewards: seq<real>)
    requires |rewards| == |orders|
  {
    var best := Best(d, from, room, orders);
    best.Some? ==> forall k :: 0 <= k < |orders| && orders[k].quantity <= room ==>
      Weighed(d, from, orders[best.value], rewards[best.value]) <= Weighed(d, from, orders[k], rewards[k])
  }

  /** It does so over every table of distances. */
  ghost predicate AlwaysCheapest(from: nat, room: int, orders: seq<Order>, rewards: seq<real>)
    requires |rewards| == |orders|
  {
    forall d: Distances :: NonNegative(d) ==> ChoosesCheapest(d, from, room, orders, rewards)
  }

  /** The order fits, and no order before it at the same node does. */
  ghost predicate FirstAtNode(room: int, orders: seq<Order>, i: nat) {
    && i < |orders| && orders[i].quantity <= room
    && forall k :: 0 <= k < i && orders[k].quantity <= room ==> orders[k].node != orders[i].node
  }

  /** No order that fits has a greater reward than one that stands first at its node. */
  ghost predicate FirstsRewardMost(room: int, orders: seq<Order>, rewards: seq<real>)
    requires |rewards| == |orders|
  {
    forall i: nat, k: nat :: FirstAtNode(room, orders, i) && k < |orders| && orders[k].quantity <= room ==>
      Clamp(rewards[k]) <= Clamp(rewards[i])
  }

  /** A table with one near node. */
  function OneNear(node: nat, far: real): Distances {
    (a, b) => if b == node then 1.0 else far
  }

  lemma CrossMultiply(a: real, p: real, b: real, q: real)
    requires p > 0.0 && q > 0.0
    ensures a / p <= b / q <==> a * q <= b * p
  {
    var x, y := a / p, b / q;
    assert x * p == a && y * q == b;
    assert a * q == x * (p * q) && b * p == y * (p * q);
    if x <= y { ScaleBoth(x, y, p * q); } else { ScaleBoth(y, x, p * q); }
  }

  lemma ScaleBoth(x: real, y: real, s: real)
    requires x <= y && s > 0.0
    ensures x * s <= y * s && (x < y ==> x * s < y * s)
  {}

  /** A nearer order with no smaller reward is no dearer. */
  lemma NearerIsCheaper(a: real, p: real, b: real, q: real)
    requires 0.0 <= a <= b && p >= q > 0.0
    ensures a / p <= b / q
  {
    CrossMultiply(a, p, b, q);
    assert a * q <= a * p;
    ScaleBoth(a, b, p);
  }

  /** A distance a little over one, at which the greater reward p is still the cheaper. */
  lemma LittleFarther(p: real, q: real) returns (x: real)
    requires p > q > 0.0
    ensures x > 1.0 && x / p < 1.0 / q && 1.0 / p < 1.0 / q
  {
    x := (p + q) / (2.0 * q);
    assert x * (2.0 * q) == p + q;
    assert x * q == (p + q) / 2.0;
    assert x > 1.0 by { if x <= 1.0 { ScaleBoth(x, 1.0, q); } }
    CrossMultiply(1.0, q, x, p);
    CrossMultiply(1.0, q, 1.0, p);
  }

  /** Where a first order has a smaller reward than another that fits, this table breaks the promise. */
  lemma NearMisses(from: nat, room: int, orders: seq<Order>, rewards: seq<real>, i: nat, k: nat) returns (d: Distances)
    requires |rewards| == |orders| && FirstAtNode(room, orders, i)
    requires k < |orders| && orders[k].quantity <= room && Clamp(rewards[k]) > Clamp(rewards[i])
    ensures NonNegative(d) && !ChoosesCheapest(d, from, room, orders, rewards)
  {
    var far := LittleFarther(Clamp(rewards[k]), Clamp(rewards[i]));
    d := OneNear(orders[i].node, far);
    BestMeaning(d, from, room, orders);
    var best := Best(d, from, room, orders);
    assert best == Some(i);
    assert Weighed(d, from, orders[k], rewards[k]) < Weighed(d, from, orders[i], rewards[i]);
  }

  /** The documentation weighs distances by rewards and the choice does not. It is the documented choice
      over every table of distances exactly when no order that fits has a greater reward, counted for at
      least one, than an order that stands first at its node. */
  lemma RewardIgnored(from: nat, room: int, orders: seq<Order>, rewards: seq<real>)
    requires |rewards| == |orders|
    ensures AlwaysCheapest(from, room, orders, rewards) <==> FirstsRewardMost(room, orders, rewards)
  {
    if FirstsRewardMost(room, orders, rewards) {
      forall d: Distances | NonNegative(d) ensures ChoosesCheapest(d, from, room, orders, rewards) {
        ChoiceCheapest(d, from, room, orders, rewards);
      }
    } else {
      var i: nat, k: nat :| FirstAtNode(room, orders, i) && k < |orders| && orders[k].quantity <= room
        && Clamp(rewards[k]) > Clamp(rewards[i]);
      var d := NearMisses(from, room, orders, rewards, i, k);
    }
  }

  lemma ChoiceCheapest(d: Distances, from: nat, room: int, orders: seq<Order>, rewards: seq<real>)
    requires |rewards| == |orders| && NonNegative(d) && FirstsRewardMost(room, orders, rewards)
    ensures ChoosesCheapest(d, from, room, orders, rewards)
  {
    hide Best;
    BestMeaning(d, from, room, orders);
    var best := Best(d, from, room, orders);
    if best.Some? {
      assert FirstAtNode(room, orders, best.value);
      forall k | 0 <= k < |orders| && orders[k].quantity <= room
        ensures Weighed(d, from, orders[best.value], rewards[best.value]) <= Weighed(d, from, orders[k], rewards[k])
      {
        NearerIsCheaper(d(from, orders[best.value].node), Clamp(rewards[best.value]),
                        d(from, orders[k].node), Clamp(rewards[k]));
      }
    }
  }

  /** For orders at different nodes: exactly when all that fit have one reward, counted for at least one. */
  lemma RewardIgnoredApart(from: nat, room: int, orders: seq<Order>, rewards: seq<real>)
    requires |rewards| == |orders| && forall j, k :: 0 <= j < k < |orders| ==> orders[j].node != orders[k].node
    ensures AlwaysCheapest(from, room, orders, rewards)
      <==> forall j, k ::
             0 <= j < |orders| && 0 <= k < |orders| && orders[j].quantity <= room && orders[k].quantity <= room
             ==> Clamp(rewards[j]) == Clamp(rewards[k])
  {
    RewardIgnored(from, room, orders, rewards);
    hide AlwaysCheapest, Clamp;
    forall i: nat | i < |orders| && orders[i].quantity <= room ensures FirstAtNode(room, orders, i) {}
  }

  /** An order at distance one and reward one is preferred to one at distance two and reward ten, which
      the documented cost makes five times cheaper. */
  lemma RewardMissed()
    ensures var orders, d := [Order(0, 1, 1), Order(1, 2, 1)], OneNear(1, 2.0);
      && Best(d, 0, 1, orders) == Some(0)
      && Weighed(d, 0, orders[0], 1.0) == 5.0 * Weighed(d, 0, orders[1], 10.0)
  {
    var orders, d := [Order(0, 1, 1), Order(1, 2, 1)], OneNear(1, 2.0);
    BestMeaning(d, 0, 1, orders);
    var best := Best(d, 0, 1, orders);
    assert orders[0].quantity <= 1 && d(0, orders[0].node) == 1.0 && d(0, orders[1].node) == 2.0;
    assert best.Some? && best.value != 1;
    assert Weighed(d, 0, orders[1], 10.0) == 0.2;
  }

  method PickBest(d: Distances, from: nat, room: int, orders: seq<Order>) returns (best: Option<nat>)
    ensures best == Best(d, from, room, orders)
  {
    best := None;
    for k := 0 to |orders|
      invariant best == Best(d, from, room, orders[..k])
    {
      assert orders[..k + 1][..k] == orders[..k];
      if orders[k].quantity <= room {
        if best.None? || d(from, orders[k].node) < d(from, orders[best.value].node) { best := Some(k); }
      }
    }
    assert orders[..|orders|] == orders;
  }

  function Take(plan: Plan, a: nat, k: nat): (r: Plan)
    requires Shaped(plan) && a < |plan.routes| && k < |plan.remaining|
    ensures Shaped(r) && |r.routes| == |plan.routes|
  {
    var o := plan.remaining[k];
    Plan(plan.remaining[..k] + plan.remaining[k + 1..],
         plan.routes[a := plan.routes[a] + [o]],
         plan.capacity[a := plan.capacity[a] - o.quantity],
         plan.position[a := o.node])
  }

  /** An agent with room takes the nearest order that fits, if there is one. */
  function Turn(d: Distances, plan: Plan, a: nat): (r: Plan)
    requires Shaped(plan) && a < |plan.routes|
    ensures Shaped(r) && |r.routes| == |plan.routes| && |r.remaining| <= |plan.remaining|
  {
    if plan.capacity[a] <= 0 then plan
    else
      var best := Best(d, plan.position[a], plan.capacity[a], plan.remaining);
      if best.None? then plan else Take(plan, a, best.value)
  }

  /** The turns of the first n agents. */
  function Turns(d: Distances, plan: Plan, n: nat): (r: Plan)
    requires Shaped(plan) && n <= |plan.routes|
    ensures Shaped(r) && |r.routes| == |plan.routes| && |r.remaining| <= |plan.remaining|
  {
    if n == 0 then plan else Turn(d, Turns(d, plan, n - 1), n - 1)
  }

  /** Rounds until nothing remains or a whole round takes nothing. */
  function Rounds(d: Distances, plan: Plan): (r: Plan)
    requires Shaped(plan)
    ensures Shaped(r) && |r.routes| == |plan.routes|
    decreases |plan.remaining|
  {
    if plan.remaining == [] then plan
    else
      var next := Turns(d, plan, |plan.routes|);
      if |next.remaining| == |plan.remaining| then next else Rounds(d, next)
  }

  function StartPlan(instance: Instance): (r: Plan)
    requires WellFormed(instance)
    ensures Shaped(r) && |r.routes| == |instance.starts|
  {
    Plan(Keyed(instance.orders), seq(|instance.starts|, _ => []), instance.capacities, instance.starts)
  }

  function NodesOf(route: seq<Order>): (r: seq<nat>)
    ensures |r| == |route|
  {
    seq(|route|, k requires 0 <= k < |route| => route[k].node)
  }

  function IdsOf(route: seq<Order>): (r: seq<int>)
    ensures |r| == |route|
  {
    seq(|route|, k requires 0 <= k < |route| => route[k].id)
  }

  function Flatten<T>(lists: seq<seq<T>>): seq<T> {
    if lists == [] then [] else Flatten(lists[..|lists| - 1]) + lists[|lists| - 1]
  }

  function AllNodes(routes: seq<seq<Order>>): (r: seq<seq<nat>>)
    ensures |r| == |routes|
  {
    seq(|routes|, a requires 0 <= a < |routes| => NodesOf(routes[a]))
  }

  function Missing(orders: seq<Order>, served: seq<int>): seq<int> {
    if orders == [] then []
    else
      Missing(orders[..|orders| - 1], served)
      + if orders[|orders| - 1].id in served then [] else [orders[|orders| - 1].id]
  }

  function GreedySpec(instance: Instance): Solution
    requires WellFormed(instance)
  {
    var plan := Rounds(instance.distance, StartPlan(instance));
    var routes, served := AllNodes(plan.routes), IdsOf(Flatten(plan.routes));
    var costs := Costs(instance, routes);
    Solution(routes, served, Missing(instance.orders, served), Sum(costs), costs)
  }

  method GreedyPlan(instance: Instance) returns (plan: Plan)
    requires WellFormed(instance)
    ensures plan == Rounds(instance.distance, StartPlan(instance))
  {
    plan := StartPlan(instance);
    var progressed := true;
    while plan.remaining != [] && progressed
      invariant Shaped(plan) && |plan.routes| == |instance.starts|
      invariant progressed ==> Rounds(instance.distance, plan) == Rounds(instance.distance, StartPlan(instance))
      invariant !progressed ==> plan == Rounds(instance.distance, StartPlan(instance))
      decreases |plan.remaining|, progressed
    {
      progressed := false;
      ghost var before := plan;
      for a := 0 to |plan.routes|
        invariant Shaped(plan) && |plan.routes| == |before.routes|
        invariant plan == Turns(instance.distance, before, a)
        invariant progressed <==> |plan.remaining| < |before.remaining|
      {
        if plan.capacity[a] > 0 {
          var best := PickBest(instance.distance, plan.position[a], plan.capacity[a], plan.remaining);
          if best.Some? {
            plan := Take(plan, a, best.value);
            progressed := true;
          }
        }
      }
    }
  }

  method SolveGreedy(instance: Instance) returns (r: Solution)
    requires WellFormed(instance)
    ensures r == GreedySpec(instance)
  {
    var plan := GreedyPlan(instance);
    var served := IdsOf(Flatten(plan.routes));
    var costs := Costs(instance, AllNodes(plan.routes));
    return Solution(AllNodes(plan.routes), served, Missing(instance.orders, served), Sum(costs), costs);
  }

  // ---------- 2-opt over a solution ----------

  /** How many of m served ids the first a routes consume. */
  function Offset(routes: seq<seq<nat>>, m: nat, a: nat): (r: nat)
    requires a <= |routes|
    ensures r <= m
  {
    if a == 0 then 0
    else
      var before := Offset(routes, m, a - 1);
      if before + |routes[a - 1]| <= m then before + |routes[a - 1]| else m
  }

  /** The order ids that belong to route a. */
  function Chunk(routes: seq<seq<nat>>, served: seq<int>, a: nat): seq<int>
    requires a < |routes|
  {
    served[Offset(routes, |served|, a)..Offset(routes, |served|, a + 1)]
  }

  predicate PairableAt(routes: seq<seq<nat>>, served: seq<int>, a: nat)
    requires a < |routes|
  {
    |routes[a]| >= 2 ==> |Chunk(routes, served, a)| == |routes[a]|
  }

  /** The pairing of nodes and ids is strict for routes of two or more nodes. */
  predicate Pairable(routes: seq<seq<nat>>, served: seq<int>) {
    forall a :: 0 <= a < |routes| ==> PairableAt(routes, served, a)
  }

  /** Route a improved in place, its ids moved along with its nodes. */
  ghost predicate ImprovedAt(
      instance: Instance, routes: seq<seq<nat>>, served: seq<int>, newRoutes: seq<seq<nat>>, newServed: seq<int>,
      a: nat)
    requires a < |routes| <= |instance.starts|
  {
    var low, high := Offset(routes, |served|, a), Offset(routes, |served|, a + 1);
    && low <= high <= |newServed| && a < |newRoutes|
    && RouteImproved(instance.distance, instance.starts[a], routes[a], Chunk(routes, served, a), newRoutes[a],
      newServed[low..high])
  }

  lemma EarlierStays(
      instance: Instance, routes: seq<seq<nat>>, served: seq<int>, newRoutes: seq<seq<nat>>, newServed: seq<int>,
      nodes: seq<nat>, newIds: seq<int>, a: nat)
    requires a < |routes| <= |instance.starts| && ImprovedAt(instance, routes, served, newRoutes, newServed, a)
    ensures ImprovedAt(instance, routes, served, newRoutes + [nodes], newServed + newIds, a)
  {
    var low, high := Offset(routes, |served|, a), Offset(routes, |served|, a + 1);
    hide RouteImproved, Offset;
    assert (newServed + newIds)[low..high] == newServed[low..high];
  }

  lemma LatestJoins(
      instance: Instance, routes: seq<seq<nat>>, served: seq<int>, newRoutes: seq<seq<nat>>, newServed: seq<int>,
      nodes: seq<nat>, newIds: seq<int>, a: nat)
    requires a < |routes| <= |instance.starts| && |newRoutes| == a && |newServed| == Offset(routes, |served|, a)
    requires RouteImproved(instance.distance, instance.starts[a], routes[a], Chunk(routes, served, a), nodes, newIds)
    ensures ImprovedAt(instance, routes, served, newRoutes + [nodes], newServed + newIds, a)
  {
    var low, high := Offset(routes, |served|, a), Offset(routes, |served|, a + 1);
    assert low <= high;
    hide Offset;
    assert |newIds| == high - low;
    assert (newServed + newIds)[low..high] == newIds;
  }

  lemma ShortRouteStays(d: Distances, start: nat, route: seq<nat>, ids: seq<int>)
    requires |route| < 2
    ensures RouteImproved(d, start, route, ids, route, ids)
  {}

  /** None is the ValueError of a strict zip. */
  method SolveTwoOpt(instance: Instance, initial: Solution) returns (r: Option<Solution>)
    requires NonNegative(instance.distance) && |initial.routes| <= |instance.starts|
    ensures r.Some? <==> Pairable(initial.routes, initial.served)
    ensures r.Some? ==>
      && |r.value.routes| == |initial.routes|
      && |r.value.served| == Offset(initial.routes, |initial.served|, |initial.routes|)
      && (forall a :: 0 <= a < |initial.routes| ==>
            ImprovedAt(instance, initial.routes, initial.served, r.value.routes, r.value.served, a))
      && r.value.unserved == initial.unserved
      && r.value.perAgent == Costs(instance, r.value.routes) && r.value.total == Sum(r.value.perAgent)
  {
    hide ImprovedAt, RouteImproved;
    var routes, served := initial.routes, initial.served;
    var newRoutes: seq<seq<nat>> := [];
    var newServed: seq<int> := [];
    var next := 0;
    for a := 0 to |routes|
      invariant next == Offset(routes, |served|, a) == |newServed|
      invariant |newRoutes| == a
      invariant forall b :: 0 <= b < a ==> ImprovedAt(instance, routes, served, newRoutes, newServed, b)
      invariant forall b :: 0 <= b < a ==> PairableAt(routes, served, b)
    {
      var end := if next + |routes[a]| <= |served| then next + |routes[a]| else |served|;
      var ids := served[next..end];
      var nodes, newIds := routes[a], ids;
      if |routes[a]| >= 2 {
        if |ids| != |routes[a]| {
          assert !PairableAt(routes, served, a);
          return None;
        }
        nodes, newIds := ImproveRoute(instance.distance, instance.starts[a], routes[a], ids);
      } else {
        ShortRouteStays(instance.distance, instance.starts[a], routes[a], ids);
      }
      assert Chunk(routes, served, a) == ids;
      LatestJoins(instance, routes, served, newRoutes, newServed, nodes, newIds, a);
      forall b | 0 <= b < a
        ensures ImprovedAt(instance, routes, served, newRoutes + [nodes], newServed + newIds, b)
      {
        EarlierStays(instance, routes, served, newRoutes, newServed, nodes, newIds, b);
      }
      newRoutes := newRoutes + [nodes];
      newServed := newServed + newIds;
      next := end;
    }
    var costs := Costs(instance, newRoutes);
    return Some(Solution(newRoutes, newServed, initial.unserved, Sum(costs), costs));
  }
}
