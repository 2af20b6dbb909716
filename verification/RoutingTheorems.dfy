/** What the greedy plan guarantees, and what 2-opt does to a whole solution. */
module RoutingTheorems {
  import opened Collections
  import opened Routing

  // ---------- orders by id ----------

  ghost predicate DistinctIds(orders: seq<Order>) {
    forall i, j :: 0 <= i < j < |orders| ==> orders[i].id != orders[j].id
  }

  ghost predicate HasId(orders: seq<Order>, id: int) {
    exists i :: 0 <= i < |orders| && orders[i].id == id
  }

  lemma {:induction false} UpsertMeaning(orders: seq<Order>, o: Order)
    requires DistinctIds(orders)
    ensures DistinctIds(Upsert(orders, o)) && o in Upsert(orders, o)
    ensures forall q :: q in Upsert(orders, o) <==> q == o || (q in orders && q.id != o.id)
  {
    if orders != [] && orders[0].id != o.id {
      var rest := orders[1..];
      UpsertMeaning(rest, o);
      var r := Upsert(rest, o);
      assert Upsert(orders, o) == [orders[0]] + r;
      forall i | 0 <= i < |r| ensures r[i].id != orders[0].id {
        assert r[i] in r;
      }
    } else if orders != [] {
      assert forall q :: q in orders <==> q == orders[0] || q in orders[1..];
    }
  }

  /** The dictionary of orders holds every id of the list once, with the last order of that id. */
  lemma {:induction false} KeyedMeaning(orders: seq<Order>)
    ensures DistinctIds(Keyed(orders))
    ensures forall q :: q in Keyed(orders) ==> q in orders
    ensures forall i :: 0 <= i < |orders| && (forall j :: i < j < |orders| ==> orders[j].id != orders[i].id) ==>
      orders[i] in Keyed(orders)
  {
    if orders != [] {
      var last := |orders| - 1;
      KeyedMeaning(orders[..last]);
      UpsertMeaning(Keyed(orders[..last]), orders[last]);
      forall i | 0 <= i < |orders| && (forall j :: i < j < |orders| ==> orders[j].id != orders[i].id)
        ensures orders[i] in Keyed(orders)
      {
        if i < last {
          assert orders[..last][i] == orders[i];
          assert orders[last].id != orders[i].id;
        }
      }
    }
  }

  // ---------- the plan ----------

  function Load(route: seq<Order>): int {
    if route == [] then 0 else Load(route[..|route| - 1]) + route[|route| - 1].quantity
  }

  /** Where an agent stands and what room it has left follow from its route, which never overfills
      it; the orders taken and the orders left are together the orders of the dictionary. */
  ghost predicate Consistent(instance: Instance, plan: Plan)
    requires WellFormed(instance) && Shaped(plan)
  {
    && |plan.routes| == |instance.starts|
    && (forall a :: 0 <= a < |plan.routes| ==> AgentConsistent(instance, plan, a))
    && multiset(Flatten(plan.routes)) + multiset(plan.remaining) == multiset(Keyed(instance.orders))
  }

  ghost predicate AgentConsistent(instance: Instance, plan: Plan, a: nat)
    requires WellFormed(instance) && Shaped(plan) && |plan.routes| == |instance.starts| && a < |plan.routes|
  {
    var route := plan.routes[a];
    && plan.capacity[a] == instance.capacities[a] - Load(route)
    && (route != [] ==> plan.capacity[a] >= 0)
    && plan.position[a] == if route == [] then instance.starts[a] else route[|route| - 1].node
  }

  lemma {:induction false} FlattenAppend(routes: seq<seq<Order>>, a: nat, o: Order)
    requires a < |routes|
    ensures multiset(Flatten(routes[a := routes[a] + [o]])) == multiset(Flatten(routes)) + multiset{o}
  {
    var last := |routes| - 1;
    var updated := routes[a := routes[a] + [o]];
    if a < last {
      FlattenAppend(routes[..last], a, o);
      assert updated[..last] == routes[..last][a := routes[..last][a] + [o]];
    } else {
      assert updated[..last] == routes[..last];
    }
  }

  lemma TakeConsistent(instance: Instance, plan: Plan, a: nat, k: nat)
    requires WellFormed(instance) && Shaped(plan) && Consistent(instance, plan)
    requires a < |plan.routes| && k < |plan.remaining| && plan.remaining[k].quantity <= plan.capacity[a]
    ensures Consistent(instance, Take(plan, a, k))
  {
    hide Flatten, Keyed, AgentConsistent;
    var r := Take(plan, a, k);
    FlattenAppend(plan.routes, a, plan.remaining[k]);
    TakenOut(plan.remaining, k);
    forall b | 0 <= b < |r.routes| ensures AgentConsistent(instance, r, b) {
      TakeAgent(instance, plan, a, k, b);
    }
  }

  lemma TakenOut(orders: seq<Order>, k: nat)
    requires k < |orders|
    ensures multiset(orders) == multiset(orders[..k] + orders[k + 1..]) + multiset{orders[k]}
  {
    assert orders == orders[..k] + [orders[k]] + orders[k + 1..];
  }

  lemma TakeAgent(instance: Instance, plan: Plan, a: nat, k: nat, b: nat)
    requires WellFormed(instance) && Shaped(plan) && |plan.routes| == |instance.starts| && b < |plan.routes|
    requires AgentConsistent(instance, plan, b)
    requires a < |plan.routes| && k < |plan.remaining| && plan.remaining[k].quantity <= plan.capacity[a]
    ensures AgentConsistent(instance, Take(plan, a, k), b)
  {
    var route := plan.routes[a];
    assert (route + [plan.remaining[k]])[..|route|] == route;
  }

  lemma TurnConsistent(instance: Instance, plan: Plan, a: nat)
    requires WellFormed(instance) && Shaped(plan) && Consistent(instance, plan) && a < |plan.routes|
    ensures Consistent(instance, Turn(instance.distance, plan, a))
  {
    if plan.capacity[a] > 0 {
      BestMeaning(instance.distance, plan.position[a], plan.capacity[a], plan.remaining);
      var best := Best(instance.distance, plan.position[a], plan.capacity[a], plan.remaining);
      if best.Some? {
        TakeConsistent(instance, plan, a, best.value);
      }
    }
  }

  lemma {:induction false} TurnsConsistent(instance: Instance, plan: Plan, n: nat)
    requires WellFormed(instance) && Shaped(plan) && Consistent(instance, plan) && n <= |plan.routes|
    ensures Consistent(instance, Turns(instance.distance, plan, n))
  {
    hide Turn, Flatten, Keyed, AgentConsistent;
    if n > 0 {
      TurnsConsistent(instance, plan, n - 1);
      TurnConsistent(instance, Turns(instance.distance, plan, n - 1), n - 1);
    }
  }

  /** No agent has room for any order that is left. */
  ghost predicate Exhausted(plan: Plan)
    requires Shaped(plan)
  {
    forall a, k :: 0 <= a < |plan.capacity| && 0 <= k < |plan.remaining| ==>
      plan.capacity[a] <= 0 || plan.remaining[k].quantity > plan.capacity[a]
  }

  /** A round that takes nothing changes nothing, because nobody could take anything. */
  lemma {:induction false} IdleRound(d: Distances, plan: Plan, n: nat)
    requires Shaped(plan) && n <= |plan.routes| && |Turns(d, plan, n).remaining| == |plan.remaining|
    ensures Turns(d, plan, n) == plan
    ensures forall a, k :: 0 <= a < n && 0 <= k < |plan.remaining| ==>
      plan.capacity[a] <= 0 || plan.remaining[k].quantity > plan.capacity[a]
  {
    if n > 0 {
      IdleRound(d, plan, n - 1);
      if plan.capacity[n - 1] > 0 {
        BestMeaning(d, plan.position[n - 1], plan.capacity[n - 1], plan.remaining);
      }
    }
  }

  lemma {:induction false} RoundsMeaning(instance: Instance, plan: Plan)
    requires WellFormed(instance) && Shaped(plan) && Consistent(instance, plan)
    ensures var r := Rounds(instance.distance, plan);
      Consistent(instance, r) && Exhausted(r)
    decreases |plan.remaining|
  {
    if plan.remaining != [] {
      var next := Turns(instance.distance, plan, |plan.routes|);
      TurnsConsistent(instance, plan, |plan.routes|);
      if |next.remaining| == |plan.remaining| {
        IdleRound(instance.distance, plan, |plan.routes|);
      } else {
        RoundsMeaning(instance, next);
      }
    }
  }

  lemma StartConsistent(instance: Instance)
    requires WellFormed(instance)
    ensures Consistent(instance, StartPlan(instance))
  {
    var plan := StartPlan(instance);
    EmptyFlatten(plan.routes);
    forall a | 0 <= a < |plan.routes| ensures AgentConsistent(instance, plan, a) {
    }
  }

  lemma {:induction false} EmptyFlatten(routes: seq<seq<Order>>)
    requires forall a :: 0 <= a < |routes| ==> routes[a] == []
    ensures Flatten(routes) == []
  {
    if routes != [] {
      EmptyFlatten(routes[..|routes| - 1]);
    }
  }

  lemma SameIdSameOrder(orders: seq<Order>, p: Order, q: Order)
    requires DistinctIds(orders) && p in orders && q in orders && p.id == q.id
    ensures p == q
  {}

  /** A list whose multiset lies within orders of distinct ids has distinct ids. */
  lemma DistinctWithin(part: seq<Order>, whole: seq<Order>)
    requires multiset(part) <= multiset(whole) && DistinctIds(whole)
    ensures DistinctIds(part)
  {
    forall i, j | 0 <= i < j < |part| ensures part[i].id != part[j].id {
      if part[i].id == part[j].id {
        assert part[i] in multiset(part) && part[j] in multiset(part);
        assert part[i] in multiset(whole) && part[j] in multiset(whole);
        SameIdSameOrder(whole, part[i], part[j]);
        TwicePresent(part, i, j);
        OncePresent(whole, part[i]);
      }
    }
  }

  /** The greedy solver serves each order at most once and within capacity, loses none, and stops
      only when no agent has room for anything left; with positive quantities that means that every
      order left exceeds every agent's remaining capacity. */
  lemma GreedyMeaning(instance: Instance)
    requires WellFormed(instance)
    ensures var plan := Rounds(instance.distance, StartPlan(instance));
      && DistinctIds(Flatten(plan.routes))
      && multiset(Flatten(plan.routes)) + multiset(plan.remaining) == multiset(Keyed(instance.orders))
      && (forall a :: 0 <= a < |plan.routes| && plan.routes[a] != [] ==> Load(plan.routes[a]) <= instance.capacities[a])
      && (forall a, k :: 0 <= a < |plan.routes| && 0 <= k < |plan.remaining| && plan.remaining[k].quantity > 0 ==>
            Load(plan.routes[a]) + plan.remaining[k].quantity > instance.capacities[a])
  {
    var plan := Rounds(instance.distance, StartPlan(instance));
    StartConsistent(instance);
    RoundsMeaning(instance, StartPlan(instance));
    KeyedMeaning(instance.orders);
    DistinctWithin(Flatten(plan.routes), Keyed(instance.orders));
    forall a | 0 <= a < |plan.routes|
      ensures plan.routes[a] != [] ==> Load(plan.routes[a]) <= instance.capacities[a]
      ensures forall k :: 0 <= k < |plan.remaining| && plan.remaining[k].quantity > 0 ==>
        Load(plan.routes[a]) + plan.remaining[k].quantity > instance.capacities[a]
    {
      assert AgentConsistent(instance, plan, a);
    }
  }

  /** The unserved ids are the ids of the list that no route serves. */
  lemma {:induction false} UnservedMeaning(orders: seq<Order>, served: seq<int>)
    ensures forall id :: id in Missing(orders, served) <==> HasId(orders, id) && id !in served
  {
    if orders != [] {
      var front, last := orders[..|orders| - 1], orders[|orders| - 1];
      UnservedMeaning(front, served);
      assert last == orders[|orders| - 1];
      forall id ensures HasId(orders, id) <==> HasId(front, id) || id == last.id {
        if HasId(front, id) {
          var i :| 0 <= i < |front| && front[i].id == id;
          assert orders[i].id == id;
        }
        if HasId(orders, id) && id != last.id {
          var i :| 0 <= i < |orders| && orders[i].id == id;
          assert front[i].id == id;
        }
      }
    }
  }

  // ---------- 2-opt ----------

  lemma {:induction false} SumMonotone(a: seq<real>, b: seq<real>)
    requires |a| == |b| && forall i :: 0 <= i < |a| ==> a[i] <= b[i]
    ensures Sum(a) <= Sum(b)
  {
    if a != [] {
      SumMonotone(a[..|a| - 1], b[..|b| - 1]);
    }
  }

  /** Route by route no longer, so no longer in total. */
  lemma TotalNeverWorse(instance: Instance, initial: Solution, r: Solution)
    requires |r.routes| == |initial.routes| <= |instance.starts|
    requires forall a :: 0 <= a < |initial.routes| ==>
      ImprovedAt(instance, initial.routes, initial.served, r.routes, r.served, a)
    ensures Sum(Costs(instance, r.routes)) <= Sum(Costs(instance, initial.routes))
  {
    forall a | 0 <= a < |r.routes| ensures Costs(instance, r.routes)[a] <= Costs(instance, initial.routes)[a] {
      assert ImprovedAt(instance, initial.routes, initial.served, r.routes, r.served, a);
    }
    SumMonotone(Costs(instance, r.routes), Costs(instance, initial.routes));
  }

  lemma {:induction false} GreedyOffsets(routes: seq<seq<Order>>, m: nat, a: nat)
    requires a <= |routes| && |Flatten(routes[..a])| <= m
    ensures Offset(AllNodes(routes), m, a) == |Flatten(routes[..a])|
  {
    if a > 0 {
      assert routes[..a][..a - 1] == routes[..a - 1];
      GreedyOffsets(routes, m, a - 1);
    }
  }

  lemma {:induction false} FlattenPrefix(routes: seq<seq<Order>>, a: nat)
    requires a < |routes|
    ensures |Flatten(routes[..a])| + |routes[a]| == |Flatten(routes[..a + 1])| <= |Flatten(routes)|
    ensures Flatten(routes)[|Flatten(routes[..a])|..|Flatten(routes[..a + 1])|] == routes[a]
    decreases |routes|
  {
    assert routes[..a + 1][..a] == routes[..a];
    var last := |routes| - 1;
    if a < last {
      FlattenPrefix(routes[..last], a);
      assert routes[..last][..a] == routes[..a] && routes[..last][..a + 1] == routes[..a + 1];
    } else {
      assert routes[..a + 1] == routes;
    }
  }

  lemma GreedyChunk(routes: seq<seq<Order>>, a: nat)
    requires a < |routes|
    ensures Chunk(AllNodes(routes), IdsOf(Flatten(routes)), a) == IdsOf(routes[a])
  {
    hide Flatten, Offset, IdsOf, AllNodes;
    var flat := Flatten(routes);
    var low, high := |Flatten(routes[..a])|, |Flatten(routes[..a + 1])|;
    FlattenPrefix(routes, a);
    GreedyOffsets(routes, |flat|, a);
    GreedyOffsets(routes, |flat|, a + 1);
    IdsSlice(flat, low, high);
  }

  lemma IdsSlice(orders: seq<Order>, low: nat, high: nat)
    requires low <= high <= |orders|
    ensures IdsOf(orders)[low..high] == IdsOf(orders[low..high])
  {}

  /** 2-opt accepts every greedy solution, and pairs each route with the ids of its own orders. */
  lemma GreedyIsPairable(routes: seq<seq<Order>>)
    ensures Pairable(AllNodes(routes), IdsOf(Flatten(routes)))
    ensures forall a :: 0 <= a < |routes| ==> Chunk(AllNodes(routes), IdsOf(Flatten(routes)), a) == IdsOf(routes[a])
  {
    forall a | 0 <= a < |routes|
      ensures Chunk(AllNodes(routes), IdsOf(Flatten(routes)), a) == IdsOf(routes[a])
    {
      GreedyChunk(routes, a);
    }
    hide Chunk, Flatten;
  }
}
