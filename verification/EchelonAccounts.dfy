/** The accounts of the supply chain node by node: where every unit of a shelf comes from and goes to, and
    what the summary of a tick adds up. */
module EchelonAccounts {
  import opened Collections
  import opened Echelon
  import opened EchelonTheorems

  // ---------- production ----------

  /** What a node makes of a product in a tick. */
  function MadeAt(topology: Topology, nodes: seq<SupplyNode>, id: int, p: int): int {
    if nodes == [] then 0
    else
      var n := nodes[|nodes| - 1];
      MadeAt(topology, nodes[..|nodes| - 1], id, p)
      + if n.id == id && n.role == Supplier && p in topology.products then n.productionRate else 0
  }

  lemma {:induction false} ProduceAtExactly(stock: Stock, node: SupplyNode, products: seq<int>, k: nat, id: int, p: int)
    requires Distinct(products) && k <= |products|
    ensures Get(ProduceAt(stock, node, products, k), id, p)
         == Get(stock, id, p) + if id == node.id && p in products[..k] then node.productionRate else 0
  {
    if k > 0 {
      ProduceAtExactly(stock, node, products, k - 1, id, p);
      assert products[..k] == products[..k - 1] + [products[k - 1]];
      if products[k - 1] == p { assert p !in products[..k - 1]; }
    }
  }

  lemma {:induction false} ProduceExactly(topology: Topology, stock: Stock, i: nat, id: int, p: int)
    requires Distinct(topology.products) && i <= |topology.nodes|
    ensures Get(Produce(topology, stock, i), id, p) == Get(stock, id, p) + MadeAt(topology, topology.nodes[..i], id, p)
  {
    if i > 0 {
      var nodes, products := topology.nodes, topology.products;
      ProduceExactly(topology, stock, i - 1, id, p);
      assert nodes[..i][..i - 1] == nodes[..i - 1] && products[..|products|] == products;
      ProduceAtExactly(Produce(topology, stock, i - 1), nodes[i - 1], products, |products|, id, p);
    }
  }

  // ---------- demand ----------

  /** What the requests of a tick ask of one shelf. */
  function AskedAt(topology: Topology, demand: seq<Demand>, id: int, p: int): int {
    if demand == [] then 0
    else
      var d := demand[|demand| - 1];
      AskedAt(topology, demand[..|demand| - 1], id, p)
      + if d.city == id && d.product == p && Counts(topology, d) then d.requested else 0
  }

  /** Requests take from each shelf what is asked of it, as far as that is there. */
  lemma {:induction false} ServeExactly(topology: Topology, stock: Stock, demand: seq<Demand>, id: int, p: int)
    requires NoDebt(stock)
    ensures AskedAt(topology, demand, id, p) >= 0
    ensures Get(Serve(topology, stock, demand), id, p)
         == Max(0, Get(stock, id, p) - AskedAt(topology, demand, id, p))
  {
    if demand != [] {
      var front, d := demand[..|demand| - 1], demand[|demand| - 1];
      ServeExactly(topology, stock, front, id, p);
      ServeAt(topology, stock, front, id, p);
      hide Get, NoDebt;
      RequestTakes(topology, Serve(topology, stock, front), d, id, p);
    }
  }

  lemma RequestTakes(topology: Topology, before: Stock, d: Demand, id: int, p: int)
    requires NoDebt(before)
    ensures Get(before, id, p) >= 0
    ensures Counts(topology, d) ==>
      d.requested > 0
      && Get(Add(before, d.city, d.product, -ServedNow(topology, before, d)), id, p)
         == if d.city == id && d.product == p then Max(0, Get(before, id, p) - d.requested) else Get(before, id, p)
  {}

  // ---------- orders ----------

  /** What the shipments of a list took from a node. */
  function SentFrom(topology: Topology, inFlight: seq<Shipment>, id: int, p: int): int {
    if inFlight == [] then 0
    else
      var s, index := inFlight[|inFlight| - 1], UpstreamIndex(topology.edges);
      SentFrom(topology, inFlight[..|inFlight| - 1], id, p)
      + if s.product == p && s.destination in index && index[s.destination].0 == id then s.quantity else 0
  }

  lemma ShipTakes(
      topology: Topology, f: Flow, onOrder: int, node: SupplyNode, upstream: int, leadTime: int, product: int,
      tick: int, id: int, p: int)
    requires node.id in UpstreamIndex(topology.edges) && UpstreamIndex(topology.edges)[node.id].0 == upstream
    ensures var g := Ship(f, onOrder, node, upstream, leadTime, product, tick);
      && Get(g.stock, id, p) + SentFrom(topology, g.inFlight, id, p)
         == Get(f.stock, id, p) + SentFrom(topology, f.inFlight, id, p)
      && g.placed - |g.inFlight| == f.placed - |f.inFlight|
  {
    hide Shippable;
    var shipped := Shippable(f.stock, onOrder, node, upstream, product);
    var sent := Shipment(product, shipped, node.id, tick + leadTime);
    assert (f.inFlight + [sent])[..|f.inFlight|] == f.inFlight;
  }

  lemma {:induction false} ReplenishAtTakes(
      topology: Topology, f: Flow, outstanding: seq<Shipment>, node: SupplyNode, upstream: int, leadTime: int,
      tick: int, k: nat, id: int, p: int)
    requires k <= |topology.products|
    requires node.id in UpstreamIndex(topology.edges) && UpstreamIndex(topology.edges)[node.id].0 == upstream
    ensures var g := ReplenishAt(topology, f, outstanding, node, upstream, leadTime, tick, k);
      && Get(g.stock, id, p) + SentFrom(topology, g.inFlight, id, p)
         == Get(f.stock, id, p) + SentFrom(topology, f.inFlight, id, p)
      && g.placed - |g.inFlight| == f.placed - |f.inFlight|
  {
    hide Ship, Get, SentFrom, OnOrder, UpstreamIndex;
    if k > 0 {
      ReplenishAtTakes(topology, f, outstanding, node, upstream, leadTime, tick, k - 1, id, p);
      var g, product := ReplenishAt(topology, f, outstanding, node, upstream, leadTime, tick, k - 1),
        topology.products[k - 1];
      ShipTakes(topology, g, OnOrder(outstanding, node.id, product), node, upstream, leadTime, product, tick, id, p);
    }
  }

  lemma {:induction false} ReplenishTakes(
      topology: Topology, f: Flow, outstanding: seq<Shipment>, tick: int, i: nat, id: int, p: int)
    requires i <= |topology.nodes|
    ensures var g := Replenish(topology, f, outstanding, tick, i);
      && Get(g.stock, id, p) + SentFrom(topology, g.inFlight, id, p)
         == Get(f.stock, id, p) + SentFrom(topology, f.inFlight, id, p)
      && g.placed - |g.inFlight| == f.placed - |f.inFlight|
  {
    hide ReplenishAt, Get, SentFrom, UpstreamIndex;
    if i > 0 {
      ReplenishTakes(topology, f, outstanding, tick, i - 1, id, p);
      var g, node := Replenish(topology, f, outstanding, tick, i - 1), topology.nodes[i - 1];
      var supplier := SupplierOf(topology, node);
      if supplier.Some? {
        ReplenishAtTakes(topology, g, outstanding, node, supplier.value.0, supplier.value.1, tick,
                         |topology.products|, id, p);
      }
    }
  }

  /** Every shelf is accounted for: a tick adds what the node makes and what is delivered to it, takes what
      its customers ask as far as that is there, and takes what is newly sent from it. Each order
      placed is one shipment on its way. */
  lemma ShelfAccounts(topology: Topology, s: NetState, demand: seq<Demand>, id: int, p: int)
    requires Regular(topology) && NoDebt(s.stock) && Travelling(topology, s.inFlight)
    ensures var (t, summary) := StepSpec(topology, s, demand);
      var later := Later(s.inFlight, s.tick);
      var stocked := Get(s.stock, id, p) + MadeAt(topology, topology.nodes, id, p)
                     + OnOrder(Due(s.inFlight, s.tick), id, p);
      && Get(t.stock, id, p)
         == Max(0, stocked - AskedAt(topology, demand, id, p))
          - (SentFrom(topology, t.inFlight, id, p) - SentFrom(topology, later, id, p))
      && summary.ordersPlaced == |t.inFlight| - |later| && summary.inFlight == |t.inFlight|
  {
    hide Produce, Deliver, Serve, Replenish, Due, Later, Get, SentFrom, MadeAt, AskedAt, OnOrder, NoDebt;
    var nodes, remaining := topology.nodes, Later(s.inFlight, s.tick);
    assert nodes[..|nodes|] == nodes;
    ProduceExactly(topology, s.stock, |nodes|, id, p);
    ProduceNoDebt(topology, s.stock, |nodes|);
    ArrivalsNoDebt(topology, s);
    DueAddressed(topology, s.inFlight, s.tick);
    DeliverAt(topology, AfterProduction(topology, s), Due(s.inFlight, s.tick), id, p);
    ServeExactly(topology, AfterArrivals(topology, s), demand, id, p);
    ReplenishTakes(topology, Flow(AfterDemand(topology, s, demand), remaining, 0), remaining, s.tick, |nodes|, id, p);
  }

  // ---------- the summary ----------

  function RequestedAll(topology: Topology, demand: seq<Demand>, products: seq<int>): int {
    if products == [] then 0
    else
      RequestedAll(topology, demand, products[..|products| - 1])
      + RequestedOf(topology, demand, products[|products| - 1])
  }

  function ServedAll(topology: Topology, stock: Stock, demand: seq<Demand>, products: seq<int>): int {
    if products == [] then 0
    else
      ServedAll(topology, stock, demand, products[..|products| - 1])
      + ServedOf(topology, stock, demand, products[|products| - 1])
  }

  /** One more request adds to the account of its own product. */
  lemma {:induction false} OneMoreRequest(topology: Topology, stock: Stock, demand: seq<Demand>, products: seq<int>)
    requires demand != [] && Distinct(products)
    ensures var front, d := demand[..|demand| - 1], demand[|demand| - 1];
      && RequestedAll(topology, demand, products)
         == RequestedAll(topology, front, products)
          + (if d.product in products && Counts(topology, d) then d.requested else 0)
      && ServedAll(topology, stock, demand, products)
         == ServedAll(topology, stock, front, products)
          + (if d.product in products then ServedNow(topology, Serve(topology, stock, front), d) else 0)
    decreases |products|
  {
    hide Counts, ServedNow, Serve;
    if products != [] {
      var rest, p := products[..|products| - 1], products[|products| - 1];
      OneMoreRequest(topology, stock, demand, rest);
      assert products == rest + [p] && p !in rest;
    }
  }

  /** Every request that counts is for a product of the network. */
  ghost predicate ForProducts(topology: Topology, demand: seq<Demand>) {
    forall d :: d in demand && Counts(topology, d) ==> d.product in topology.products
  }

  lemma {:induction false} NothingAsked(topology: Topology, stock: Stock, products: seq<int>)
    ensures RequestedAll(topology, [], products) == 0 && ServedAll(topology, stock, [], products) == 0
  {
    if products != [] {
      NothingAsked(topology, stock, products[..|products| - 1]);
    }
  }

  /** The summary's totals are those of the products: what the demand histories record as asked for, and what
      the conservation law counts as served. */
  lemma {:induction false} TotalsAreByProduct(topology: Topology, stock: Stock, demand: seq<Demand>)
    requires Distinct(topology.products) && ForProducts(topology, demand)
    ensures RequestedTotal(topology, demand) == RequestedAll(topology, demand, topology.products)
    ensures ServedTotal(topology, stock, demand) == ServedAll(topology, stock, demand, topology.products)
  {
    hide RequestedAll, ServedAll, Serve, Counts;
    if demand == [] {
      NothingAsked(topology, stock, topology.products);
    } else {
      var front, d := demand[..|demand| - 1], demand[|demand| - 1];
      assert d in demand;
      TotalsAreByProduct(topology, stock, front);
      OneMoreRequest(topology, stock, demand, topology.products);
    }
  }

  // ---------- built networks ----------

  /** Python's round(): a nearest integer, and of two the even one. */
  lemma RoundNearest(x: real)
    ensures var r := Round(x);
      -0.5 <= r as real - x <= 0.5 && (r as real - x == 0.5 || r as real - x == -0.5 ==> r % 2 == 0)
  {}

  ghost predicate Ascending(s: seq<int>) {
    forall i, j :: 0 <= i < j < |s| ==> s[i] <= s[j]
  }

  lemma AscendingAfter(x: int, s: seq<int>)
    requires Ascending(s) && forall y :: y in s ==> x <= y
    ensures Ascending([x] + s)
  {
    var r := [x] + s;
    forall i, j | 0 <= i < j < |r| ensures r[i] <= r[j] {
      assert r[j] == s[j - 1] && s[j - 1] in s;
    }
  }

  lemma HeadLeast(s: seq<int>)
    requires s != [] && Ascending(s)
    ensures Ascending(s[1..]) && forall y :: y in s ==> s[0] <= y
    ensures forall y :: y in s[1..] ==> s[0] <= y
  {}

  lemma InsertMembers(x: int, s: seq<int>)
    ensures forall y :: y in Insert(x, s) ==> y == x || y in s
  {
    forall y | y in Insert(x, s) ensures y == x || y in s {
      assert y in multiset(Insert(x, s));
    }
  }

  lemma {:induction false} InsertAscending(x: int, s: seq<int>)
    requires Ascending(s)
    ensures Ascending(Insert(x, s))
  {
    hide Ascending;
    if s == [] {
      NothingDescends();
      AscendingAfter(x, []);
      assert [x] + [] == [x];
    } else {
      HeadLeast(s);
      if x <= s[0] {
        AscendingAfter(x, s);
      } else {
        InsertAscending(x, s[1..]);
        InsertMembers(x, s[1..]);
        AscendingAfter(s[0], Insert(x, s[1..]));
      }
    }
  }

  lemma NothingDescends()
    ensures Ascending([])
  {}

  lemma {:induction false} SortedAscending(s: seq<int>)
    ensures Ascending(Sorted(s))
  {
    if s != [] {
      SortedAscending(s[1..]);
      InsertAscending(s[0], Sorted(s[1..]));
    }
  }

  /** Where the node at position k is supplied from: distributors in turn for the cities, suppliers in turn for
      the distributors. */
  function UpstreamOfTier(k: nat, suppliers: nat, distributors: nat): nat
    requires suppliers >= 1 && distributors >= 1 && k >= suppliers
  {
    if k >= suppliers + distributors then suppliers + (k - suppliers - distributors) % distributors
    else (k - suppliers) % suppliers
  }

  lemma TierTurn(k: nat, suppliers: nat, distributors: nat)
    requires suppliers >= 1 && distributors >= 1 && k >= suppliers
    ensures UpstreamOfTier(k, suppliers, distributors)
         == (if k >= suppliers + distributors then suppliers + Turn(k - suppliers - distributors, distributors)
             else Turn(k - suppliers, suppliers))
    ensures UpstreamOfTier(k, suppliers, distributors) < suppliers + distributors
  {}

  lemma TierSupplied(ids: seq<int>, suppliers: nat, distributors: nat, products: seq<int>, leadTime: int, k: nat)
    requires Distinct(ids) && 1 <= suppliers && 1 <= distributors && suppliers + distributors < |ids|
    requires suppliers <= k < |ids|
    ensures var topology := Tiers(ids, suppliers, distributors, products, leadTime);
      var up := UpstreamOfTier(k, suppliers, distributors);
      up < |ids| && SupplierOf(topology, topology.nodes[k]) == Some((ids[up], leadTime))
  {
    hide Wiring, Turn, UpstreamOfTier, UpstreamIndex;
    var topology := Tiers(ids, suppliers, distributors, products, leadTime);
    var cities := |ids| - suppliers - distributors;
    WiringDistinct(ids, suppliers, distributors, leadTime);
    var i := if k >= suppliers + distributors then k - suppliers - distributors else k - suppliers + cities;
    EdgeAt(ids, suppliers, distributors, leadTime, i);
    LastEdgeWins(topology.edges, ids[k], i);
    TierTurn(k, suppliers, distributors);
    var up := UpstreamOfTier(k, suppliers, distributors);
    assert topology.nodes[up] in topology.nodes && topology.nodes[up].id == ids[up];
    LookupHas(topology.nodes, ids[up]);
  }

  lemma {:induction false} StockedExactly(stock: Stock, id: int, products: seq<int>, amount: int, i: int, p: int)
    ensures Get(StockedAt(stock, id, products, amount), i, p)
         == if i == id && p in products then amount else Get(stock, i, p)
  {
    if products != [] {
      var front, last := products[..|products| - 1], products[|products| - 1];
      StockedExactly(stock, id, front, amount, i, p);
      assert products == front + [last];
    }
  }

  lemma {:induction false} InitialExactly(nodes: seq<SupplyNode>, products: seq<int>, amount: int, id: int, p: int)
    ensures Get(InitialStock(nodes, products, amount), id, p)
         == if Has(nodes, id) && p in products then amount else 0
  {
    hide StockedAt;
    if nodes != [] {
      var front, last := nodes[..|nodes| - 1], nodes[|nodes| - 1];
      InitialExactly(front, products, amount, id, p);
      StockedExactly(InitialStock(front, products, amount), last.id, products, amount, id, p);
      assert nodes == front + [last];
      assert Has(nodes, id) <==> Has(front, id) || last.id == id;
    }
  }

  /** The parts of a build: how many supply and how many distribute, at least one each. */
  function Part(n: nat, fraction: real): (r: nat)
    ensures r >= 1
  {
    Max(1, Round(n as real * fraction))
  }

  /** A network is built exactly from proper fractions that leave room for a city. Its nodes are the ids in
      ascending order, the first of them suppliers, the next distributors, the rest cities, each supplied in
      turn from the tier above, and each stocked alike. */
  lemma BuiltExactly(
      nodeIds: seq<int>, supplierFraction: real, distributorFraction: real, products: seq<int>, leadTime: int,
      amount: int)
    requires Distinct(nodeIds)
    ensures var built := Build(nodeIds, supplierFraction, distributorFraction, products, leadTime);
      var suppliers, distributors := Part(|nodeIds|, supplierFraction), Part(|nodeIds|, distributorFraction);
      && (built.Some? <==>
            && nodeIds != [] && 0.0 < supplierFraction < 1.0 && 0.0 < distributorFraction < 1.0
            && supplierFraction + distributorFraction < 1.0 && suppliers + distributors < |nodeIds|)
      && (built.Some? ==>
            var nodes := built.value.nodes;
            && |nodes| == |nodeIds| && built.value.products == products
            && (forall i, j :: 0 <= i < j < |nodes| ==> nodes[i].id < nodes[j].id)
            && (forall id :: id in nodeIds <==> Has(nodes, id))
            && (forall k :: 0 <= k < |nodes| ==>
                  nodes[k].role == if k < suppliers then Supplier else if k < suppliers + distributors then Distributor
                                   else City)
            && (forall k: nat :: suppliers <= k < |nodes| ==>
                  var up := UpstreamOfTier(k, suppliers, distributors);
                  up < |nodes| && SupplierOf(built.value, nodes[k]) == Some((nodes[up].id, leadTime)))
            && (forall id, p :: id in nodeIds && p in products ==>
                  Get(InitialStock(nodes, products, amount), id, p) == amount))
  {
    hide Sorted, Wiring, Round, PutNodes, InitialStock, SupplierOf, UpstreamOfTier, Get;
    var built := Build(nodeIds, supplierFraction, distributorFraction, products, leadTime);
    if built.Some? {
      var suppliers, distributors := Part(|nodeIds|, supplierFraction), Part(|nodeIds|, distributorFraction);
      var ids := Sorted(nodeIds);
      SortedDistinct(nodeIds);
      SortedAscending(nodeIds);
      AssignedDistinct(ids, suppliers, distributors);
      assert built.value == Tiers(ids, suppliers, distributors, products, leadTime);
      var nodes := built.value.nodes;
      SameIds(nodeIds, ids, nodes);
      forall k: nat | suppliers <= k < |nodes|
        ensures var up := UpstreamOfTier(k, suppliers, distributors);
          up < |nodes| && SupplierOf(built.value, nodes[k]) == Some((nodes[up].id, leadTime))
      {
        TierSupplied(ids, suppliers, distributors, products, leadTime, k);
      }
      forall id, p | id in nodeIds && p in products
        ensures Get(InitialStock(nodes, products, amount), id, p) == amount
      {
        InitialExactly(nodes, products, amount, id, p);
      }
    }
  }

  lemma SameIds(nodeIds: seq<int>, ids: seq<int>, nodes: seq<SupplyNode>)
    requires multiset(ids) == multiset(nodeIds) && |nodes| == |ids|
    requires forall k :: 0 <= k < |nodes| ==> nodes[k].id == ids[k]
    ensures forall id :: id in nodeIds <==> Has(nodes, id)
  {
    forall id ensures id in nodeIds <==> Has(nodes, id) {
      assert id in nodeIds <==> id in multiset(nodeIds);
      assert id in ids <==> id in multiset(ids);
      if id in ids {
        var k :| 0 <= k < |ids| && ids[k] == id;
        assert nodes[k] in nodes;
      }
      if Has(nodes, id) {
        var n :| n in nodes && n.id == id;
        var k :| 0 <= k < |nodes| && nodes[k] == n;
        assert ids[k] == id;
      }
    }
  }
}
