/** What the greedy rounds promise beyond capacity: every step goes to a nearest order, no agent takes
    two orders more than one that could have taken them, and the costs are the legs travelled. */
module RoutingGreedy {
  import opened Collections
  import opened Routing
  import opened RoutingTheorems

  // ---------- lengths ----------

  /** The stop before the k-th one. */
  function StopBefore(start: nat, nodes: seq<nat>, k: nat): nat
    requires k <= |nodes|
  {
    if k == 0 then start else nodes[k - 1]
  }

  function Legs(d: Distances, start: nat, nodes: seq<nat>): (r: seq<real>)
    ensures |r| == |nodes|
  {
    seq(|nodes|, k requires 0 <= k < |nodes| => d(StopBefore(start, nodes, k), nodes[k]))
  }

  lemma LegsPrefix(d: Distances, start: nat, nodes: seq<nat>, k: nat)
    requires k <= |nodes|
    ensures Legs(d, start, nodes)[..k] == Legs(d, start, nodes[..k])
  {
    forall i | 0 <= i < k ensures Legs(d, start, nodes)[i] == Legs(d, start, nodes[..k])[i] {
      assert StopBefore(start, nodes, i) == StopBefore(start, nodes[..k], i);
    }
  }

  /** The length of a route is the sum of its legs, the one from the start included. */
  lemma {:induction false} LengthIsLegs(d: Distances, start: nat, nodes: seq<nat>)
    ensures RouteLength(d, start, nodes) == Sum(Legs(d, start, nodes))
  {
    if nodes != [] {
      var last := |nodes| - 1;
      LengthIsLegs(d, start, nodes[..last]);
      LegsPrefix(d, start, nodes, last);
      assert Legs(d, start, nodes)[last] == d(StopBefore(start, nodes, last), nodes[last]);
      if last == 0 { assert PathLength(d, nodes) == 0.0; }
    }
  }

  /** A route travelled in two parts: the second starts where the first ends. */
  lemma {:induction false} LengthSplits(d: Distances, start: nat, a: seq<nat>, b: seq<nat>)
    ensures RouteLength(d, start, a + b)
         == RouteLength(d, start, a) + RouteLength(d, StopBefore(start, a, |a|), b)
  {
    hide RouteLength;
    LengthIsLegs(d, start, a + b);
    LengthIsLegs(d, start, a);
    LengthIsLegs(d, StopBefore(start, a, |a|), b);
    LegsSplit(d, start, a, b);
  }

  lemma {:induction false} LegsSplit(d: Distances, start: nat, a: seq<nat>, b: seq<nat>)
    ensures Sum(Legs(d, start, a + b)) == Sum(Legs(d, start, a)) + Sum(Legs(d, StopBefore(start, a, |a|), b))
  {
    hide Legs;
    if b == [] {
      assert a + b == a;
      NoLegs(d, StopBefore(start, a, |a|));
    } else {
      var last, from := |b| - 1, StopBefore(start, a, |a|);
      LegsSplit(d, start, a, b[..last]);
      assert (a + b)[..|a| + last] == a + b[..last];
      LegsPrefix(d, start, a + b, |a| + last);
      LegsPrefix(d, from, b, last);
      LastLeg(d, start, a + b);
      LastLeg(d, from, b);
    }
  }

  lemma NoLegs(d: Distances, start: nat)
    ensures Sum(Legs(d, start, [])) == 0.0
  {}

  lemma LastLeg(d: Distances, start: nat, nodes: seq<nat>)
    requires nodes != []
    ensures Legs(d, start, nodes)[|nodes| - 1] == d(StopBefore(start, nodes, |nodes| - 1), nodes[|nodes| - 1])
  {}

  /** A greedy solution charges each agent the legs of its route, and in total the sum of the charges. */
  lemma GreedyCosts(instance: Instance, a: nat)
    requires WellFormed(instance) && a < |instance.starts|
    ensures var r := GreedySpec(instance);
      && |r.routes| == |r.perAgent| == |instance.starts|
      && r.perAgent[a] == Sum(Legs(instance.distance, instance.starts[a], r.routes[a]))
      && r.total == Sum(r.perAgent)
  {
    hide Rounds, Flatten, Missing, Legs, RouteLength;
    LengthIsLegs(instance.distance, instance.starts[a], GreedySpec(instance).routes[a]);
  }

  /** 2-opt charges in the same way. */
  lemma ImprovedCosts(instance: Instance, routes: seq<seq<nat>>, a: nat)
    requires a < |routes| <= |instance.starts|
    ensures Costs(instance, routes)[a] == Sum(Legs(instance.distance, instance.starts[a], routes[a]))
  {
    LengthIsLegs(instance.distance, instance.starts[a], routes[a]);
  }

  // ---------- nearest first ----------

  /** Where an agent stood when it took the order at this place of its route. */
  function Stood(instance: Instance, plan: Plan, a: nat, m: nat): nat
    requires |plan.routes| == |instance.starts| && a < |plan.routes| && m <= |plan.routes[a]|
  {
    if m == 0 then instance.starts[a] else plan.routes[a][m - 1].node
  }

  /** And how much it could still carry. */
  function Carried(instance: Instance, plan: Plan, a: nat, m: nat): int
    requires WellFormed(instance) && |plan.routes| == |instance.starts| && a < |plan.routes|
    requires m <= |plan.routes[a]|
  {
    instance.capacities[a] - Load(plan.routes[a][..m])
  }

  /** The order at this place was no farther than any order that the agent took later or that nobody took,
      as far as that one fitted. */
  ghost predicate NearestAt(instance: Instance, plan: Plan, a: nat, m: nat)
    requires WellFormed(instance) && |plan.routes| == |instance.starts| && a < |plan.routes|
    requires m < |plan.routes[a]|
  {
    var route, from := plan.routes[a], Stood(instance, plan, a, m);
    forall o :: (o in plan.remaining || o in route[m + 1..]) && o.quantity <= Carried(instance, plan, a, m) ==>
      instance.distance(from, route[m].node) <= instance.distance(from, o.node)
  }

  ghost predicate NearestFirst(instance: Instance, plan: Plan)
    requires WellFormed(instance) && |plan.routes| == |instance.starts|
  {
    forall a, m :: 0 <= a < |plan.routes| && 0 <= m < |plan.routes[a]| ==> NearestAt(instance, plan, a, m)
  }

  lemma TakenFromRemaining(plan: Plan, a: nat, k: nat)
    requires Shaped(plan) && a < |plan.routes| && k < |plan.remaining|
    ensures forall o :: o in Take(plan, a, k).remaining ==> o in plan.remaining
  {}

  lemma TakeNearestAt(instance: Instance, plan: Plan, a: nat, k: nat, b: nat, m: nat)
    requires WellFormed(instance) && Shaped(plan) && Consistent(instance, plan) && NearestFirst(instance, plan)
    requires a < |plan.routes| && Best(instance.distance, plan.position[a], plan.capacity[a], plan.remaining) == Some(k)
    requires b < |plan.routes| && m < |Take(plan, a, k).routes[b]|
    ensures NearestAt(instance, Take(plan, a, k), b, m)
  {
    hide Flatten, Keyed, Load, Best;
    TakenFromRemaining(plan, a, k);
    BestMeaning(instance.distance, plan.position[a], plan.capacity[a], plan.remaining);
    assert AgentConsistent(instance, plan, b);
    var r, o := Take(plan, a, k), plan.remaining[k];
    var was, now := plan.routes[b], r.routes[b];
    assert o in plan.remaining;
    if m < |was| {
      assert NearestAt(instance, plan, b, m);
      assert now[..m] == was[..m];
      var later, earlier := now[m + 1..], was[m + 1..];
      assert forall q :: q in later ==> q in earlier || q == o;
    } else {
      assert b == a && now[..m] == was && now[m + 1..] == [];
    }
  }

  lemma TurnNearest(instance: Instance, plan: Plan, a: nat)
    requires WellFormed(instance) && Shaped(plan) && Consistent(instance, plan) && NearestFirst(instance, plan)
    requires a < |plan.routes|
    ensures NearestFirst(instance, Turn(instance.distance, plan, a))
  {
    hide Consistent, NearestAt, Best;
    assert |plan.routes| == |instance.starts| by { ConsistentSize(instance, plan); }
    if plan.capacity[a] > 0 {
      var best := Best(instance.distance, plan.position[a], plan.capacity[a], plan.remaining);
      if best.Some? {
        var r := Take(plan, a, best.value);
        forall b, m | 0 <= b < |r.routes| && 0 <= m < |r.routes[b]| ensures NearestAt(instance, r, b, m) {
          TakeNearestAt(instance, plan, a, best.value, b, m);
        }
      }
    }
  }

  lemma ConsistentSize(instance: Instance, plan: Plan)
    requires WellFormed(instance) && Shaped(plan) && Consistent(instance, plan)
    ensures |plan.routes| == |instance.starts|
  {}

  lemma {:induction false} TurnsNearest(instance: Instance, plan: Plan, n: nat)
    requires WellFormed(instance) && Shaped(plan) && Consistent(instance, plan) && n <= |plan.routes|
    requires |plan.routes| == |instance.starts| && NearestFirst(instance, plan)
    ensures NearestFirst(instance, Turns(instance.distance, plan, n))
  {
    hide Consistent, NearestFirst, Turn;
    if n > 0 {
      TurnsNearest(instance, plan, n - 1);
      TurnsConsistent(instance, plan, n - 1);
      TurnNearest(instance, Turns(instance.distance, plan, n - 1), n - 1);
    }
  }

  // ---------- round robin ----------

  predicate Fits(o: Order, room: int) {
    room > 0 && o.quantity <= room
  }

  /** An agent that found nothing in its turn has no room for anything left, nor for what others took two
      places further on. */
  ghost predicate Passed(plan: Plan, a: nat)
    requires Shaped(plan) && a < |plan.routes|
  {
    && (forall o :: o in plan.remaining ==> !Fits(o, plan.capacity[a]))
    && forall b, m :: 0 <= b < |plan.routes| && |plan.routes[a]| < m < |plan.routes[b]| ==>
         !Fits(plan.routes[b][m], plan.capacity[a])
  }

  /** After n rounds and the turns of t agents in the next: everybody took one order a round, or passed. */
  ghost predicate InStep(plan: Plan, n: nat, t: nat)
    requires Shaped(plan)
  {
    forall a :: 0 <= a < |plan.routes| ==>
      var due := if a < t then n + 1 else n;
      |plan.routes[a]| <= due && (|plan.routes[a]| == due || Passed(plan, a))
  }

  lemma PassedStays(d: Distances, plan: Plan, n: nat, t: nat, k: nat, a: nat)
    requires Shaped(plan) && InStep(plan, n, t) && t < |plan.routes| && k < |plan.remaining|
    requires a < |plan.routes| && a != t && Passed(plan, a) && |plan.routes[t]| == n
    requires |plan.routes[a]| <= if a < t then n + 1 else n
    ensures Passed(Take(plan, t, k), a)
  {
    TakenFromRemaining(plan, t, k);
    var r := Take(plan, t, k);
    assert plan.remaining[k] in plan.remaining;
    forall b, m | 0 <= b < |r.routes| && |r.routes[a]| < m < |r.routes[b]|
      ensures !Fits(r.routes[b][m], r.capacity[a])
    {
      if b == t && m == n { assert r.routes[b][m] == plan.remaining[k]; }
    }
  }

  lemma TurnInStep(d: Distances, plan: Plan, n: nat, t: nat)
    requires Shaped(plan) && InStep(plan, n, t) && t < |plan.routes|
    ensures InStep(Turn(d, plan, t), n, t + 1)
  {
    hide Passed, Best;
    var best := Best(d, plan.position[t], plan.capacity[t], plan.remaining);
    if plan.capacity[t] > 0 && best.Some? && |plan.routes[t]| == n {
      forall a | 0 <= a < |plan.routes| && a != t && Passed(plan, a) ensures Passed(Take(plan, t, best.value), a) {
        PassedStays(d, plan, n, t, best.value, a);
      }
    } else {
      NothingFound(d, plan, n, t);
    }
  }

  lemma NothingFound(d: Distances, plan: Plan, n: nat, t: nat)
    requires Shaped(plan) && InStep(plan, n, t) && t < |plan.routes|
    requires var best := Best(d, plan.position[t], plan.capacity[t], plan.remaining);
      plan.capacity[t] <= 0 || best.None? || |plan.routes[t]| != n
    ensures Turn(d, plan, t) == plan && Passed(plan, t)
  {
    hide Best;
    BestMeaning(d, plan.position[t], plan.capacity[t], plan.remaining);
    if |plan.routes[t]| != n {
      forall k | 0 <= k < |plan.remaining| ensures !Fits(plan.remaining[k], plan.capacity[t]) {
        assert Passed(plan, t) && plan.remaining[k] in plan.remaining;
      }
    }
  }

  lemma {:induction false} TurnsInStep(d: Distances, plan: Plan, n: nat, t: nat)
    requires Shaped(plan) && InStep(plan, n, 0) && t <= |plan.routes|
    ensures InStep(Turns(d, plan, t), n, t)
  {
    hide InStep, Turn;
    if t > 0 {
      TurnsInStep(d, plan, n, t - 1);
      TurnInStep(d, Turns(d, plan, t - 1), n, t - 1);
    }
  }

  lemma RoundDone(plan: Plan, n: nat)
    requires Shaped(plan) && InStep(plan, n, |plan.routes|)
    ensures InStep(plan, n + 1, 0)
  {
    hide Passed;
  }

  /** No agent was passed over: whatever an agent took two or more places beyond the end of another's route,
      the other has no room for. */
  ghost predicate Fair(plan: Plan)
    requires Shaped(plan)
  {
    forall a, b, m :: 0 <= a < |plan.routes| && 0 <= b < |plan.routes| && |plan.routes[a]| < m < |plan.routes[b]| ==>
      !Fits(plan.routes[b][m], plan.capacity[a])
  }

  lemma InStepIsFair(plan: Plan, n: nat)
    requires Shaped(plan) && InStep(plan, n, 0)
    ensures Fair(plan)
  {
    forall a, b, m | 0 <= a < |plan.routes| && 0 <= b < |plan.routes| && |plan.routes[a]| < m < |plan.routes[b]|
      ensures !Fits(plan.routes[b][m], plan.capacity[a])
    {
      assert |plan.routes[b]| <= n;
      assert Passed(plan, a);
    }
  }

  lemma {:induction false} RoundsKeep(instance: Instance, plan: Plan, n: nat)
    requires WellFormed(instance) && Shaped(plan) && Consistent(instance, plan) && InStep(plan, n, 0)
    requires |plan.routes| == |instance.starts| && NearestFirst(instance, plan)
    ensures var r := Rounds(instance.distance, plan);
      Fair(r) && |r.routes| == |instance.starts| && NearestFirst(instance, r)
    decreases |plan.remaining|
  {
    hide Consistent, NearestFirst, InStep, Fair, Turns;
    InStepIsFair(plan, n);
    if plan.remaining != [] {
      var next := Turns(instance.distance, plan, |plan.routes|);
      TurnsConsistent(instance, plan, |plan.routes|);
      TurnsNearest(instance, plan, |plan.routes|);
      TurnsInStep(instance.distance, plan, n, |plan.routes|);
      RoundDone(next, n);
      InStepIsFair(next, n + 1);
      if |next.remaining| != |plan.remaining| { RoundsKeep(instance, next, n + 1); }
    }
  }

  /** The greedy plan goes to a nearest order at every step, and takes turns fairly. */
  lemma GreedyNearestAndFair(instance: Instance)
    requires WellFormed(instance)
    ensures var plan := Rounds(instance.distance, StartPlan(instance));
      Fair(plan) && NearestFirst(instance, plan)
  {
    hide Consistent, Rounds, Keyed;
    StartConsistent(instance);
    var start := StartPlan(instance);
    assert NearestFirst(instance, start) && InStep(start, 0, 0);
    RoundsKeep(instance, start, 0);
  }
}
