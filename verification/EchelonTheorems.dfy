/** Conservation, stock bounds and lead times of the supply chain, for one tick and for whole runs. */
module EchelonTheorems {
  import opened Collections
  import opened Echelon

  ghost predicate DistinctNodes(nodes: seq<SupplyNode>) {
    forall i, j :: 0 <= i < j < |nodes| ==> nodes[i].id != nodes[j].id
  }

  ghost predicate Regular(topology: Topology) {
    && DistinctNodes(topology.nodes) && Distinct(topology.products)
    && (forall n :: n in topology.nodes ==> n.productionRate >= 0)
  }

  // ---------- quantities ----------

  /** The stock of one product over all nodes. */
  function TotalStock(nodes: seq<SupplyNode>, stock: Stock, p: int): int {
    if nodes == [] then 0
    else TotalStock(nodes[..|nodes| - 1], stock, p) + Get(stock, nodes[|nodes| - 1].id, p)
  }

  function InFlightTotal(inFlight: seq<Shipment>, p: int): int {
    if inFlight == [] then 0
    else
      var s := inFlight[|inFlight| - 1];
      InFlightTotal(inFlight[..|inFlight| - 1], p) + if s.product == p then s.quantity else 0
  }

  /** Stock and shipments together. */
  function Holdings(topology: Topology, stock: Stock, inFlight: seq<Shipment>, p: int): int {
    TotalStock(topology.nodes, stock, p) + InFlightTotal(inFlight, p)
  }

  function SupplierRates(nodes: seq<SupplyNode>): int {
    if nodes == [] then 0
    else
      SupplierRates(nodes[..|nodes| - 1])
      + if nodes[|nodes| - 1].role == Supplier then nodes[|nodes| - 1].productionRate else 0
  }

  function Produced(topology: Topology, p: int): int {
    if p in topology.products then SupplierRates(topology.nodes) else 0
  }

  function ServedOf(topology: Topology, stock: Stock, demand: seq<Demand>, p: int): int {
    if demand == [] then 0
    else
      var front, d := demand[..|demand| - 1], demand[|demand| - 1];
      ServedOf(topology, stock, front, p)
        + if d.product == p then ServedNow(topology, Serve(topology, stock, front), d) else 0
  }

  ghost predicate Has(nodes: seq<SupplyNode>, id: int) {
    exists n :: n in nodes && n.id == id
  }

  lemma LookupHas(nodes: seq<SupplyNode>, id: int)
    ensures Lookup(nodes, id).Some? <==> Has(nodes, id)
  {
    var found := Lookup(nodes, id);
    if found.Some? {
      assert found.value in nodes;
    }
  }

  lemma {:induction false} TotalAdd(nodes: seq<SupplyNode>, stock: Stock, id: int, product: int, delta: int, p: int)
    requires DistinctNodes(nodes)
    ensures TotalStock(nodes, Add(stock, id, product, delta), p)
         == TotalStock(nodes, stock, p) + if Has(nodes, id) && p == product then delta else 0
  {
    if nodes != [] {
      var front, last := nodes[..|nodes| - 1], nodes[|nodes| - 1];
      TotalAdd(front, stock, id, product, delta, p);
      assert last in nodes;
      if last.id == id {
        assert !Has(front, id);
      } else {
        assert Has(nodes, id) <==> Has(front, id);
      }
    }
  }

  // ---------- conservation, phase by phase ----------

  lemma {:induction false} ProduceAtTotal(topology: Topology, stock: Stock, node: SupplyNode, k: nat, p: int)
    requires Regular(topology) && node in topology.nodes && k <= |topology.products|
    ensures TotalStock(topology.nodes, ProduceAt(stock, node, topology.products, k), p)
         == TotalStock(topology.nodes, stock, p) + if p in topology.products[..k] then node.productionRate else 0
  {
    if k > 0 {
      ProduceAtTotal(topology, stock, node, k - 1, p);
      var before := ProduceAt(stock, node, topology.products, k - 1);
      assert Has(topology.nodes, node.id);
      TotalAdd(topology.nodes, before, node.id, topology.products[k - 1], node.productionRate, p);
      assert topology.products[..k] == topology.products[..k - 1] + [topology.products[k - 1]];
      if topology.products[k - 1] == p {
        assert p !in topology.products[..k - 1];
      }
    }
  }

  lemma {:induction false} ProduceTotal(topology: Topology, stock: Stock, i: nat, p: int)
    requires Regular(topology) && i <= |topology.nodes|
    ensures TotalStock(topology.nodes, Produce(topology, stock, i), p)
         == TotalStock(topology.nodes, stock, p)
           + if p in topology.products then SupplierRates(topology.nodes[..i]) else 0
  {
    if i > 0 {
      ProduceTotal(topology, stock, i - 1, p);
      assert topology.nodes[..i][..i - 1] == topology.nodes[..i - 1];
      var products := topology.products;
      assert products[..|products|] == products;
      ProduceAtTotal(topology, Produce(topology, stock, i - 1), topology.nodes[i - 1], |products|, p);
    }
  }

  /** Every shipment is addressed to a node of the network. */
  ghost predicate Addressed(topology: Topology, inFlight: seq<Shipment>) {
    forall k :: 0 <= k < |inFlight| ==> Has(topology.nodes, inFlight[k].destination)
  }

  lemma {:induction false} DeliverTotal(topology: Topology, stock: Stock, arrivals: seq<Shipment>, p: int)
    requires Regular(topology) && Addressed(topology, arrivals)
    ensures TotalStock(topology.nodes, Deliver(topology, stock, arrivals), p)
         == TotalStock(topology.nodes, stock, p) + InFlightTotal(arrivals, p)
  {
    if arrivals != [] {
      var front, s := arrivals[..|arrivals| - 1], arrivals[|arrivals| - 1];
      DeliverTotal(topology, stock, front, p);
      LookupHas(topology.nodes, s.destination);
      TotalAdd(topology.nodes, Deliver(topology, stock, front), s.destination, s.product, s.quantity, p);
    }
  }

  /** The due and the later shipments are the shipments, in two parts. */
  lemma {:induction false} SplitMembers(inFlight: seq<Shipment>, tick: int)
    ensures forall s :: s in Due(inFlight, tick) <==> s in inFlight && s.arrivesAt <= tick
    ensures forall s :: s in Later(inFlight, tick) <==> s in inFlight && s.arrivesAt > tick
  {
    if inFlight != [] {
      var front, last := inFlight[..|inFlight| - 1], inFlight[|inFlight| - 1];
      SplitMembers(front, tick);
      assert inFlight == front + [last];
    }
  }

  lemma {:induction false} SplitTotal(inFlight: seq<Shipment>, tick: int, p: int)
    ensures InFlightTotal(Due(inFlight, tick), p) + InFlightTotal(Later(inFlight, tick), p)
      == InFlightTotal(inFlight, p)
  {
    if inFlight != [] {
      var front, last := inFlight[..|inFlight| - 1], inFlight[|inFlight| - 1];
      SplitTotal(front, tick, p);
      var due, later := Due(front, tick), Later(front, tick);
      assert (due + [last])[..|due|] == due && (later + [last])[..|later|] == later;
      assert due + [] == due && later + [] == later;
    }
  }

  lemma {:induction false} SplitOnOrder(inFlight: seq<Shipment>, tick: int, id: int, p: int)
    ensures OnOrder(Due(inFlight, tick), id, p) + OnOrder(Later(inFlight, tick), id, p) == OnOrder(inFlight, id, p)
  {
    if inFlight != [] {
      var front, last := inFlight[..|inFlight| - 1], inFlight[|inFlight| - 1];
      SplitOnOrder(front, tick, id, p);
      var due, later := Due(front, tick), Later(front, tick);
      assert due + [] == due && later + [] == later;
      OnOrderAppend(if last.arrivesAt <= tick then due else later, last, id, p);
    }
  }

  lemma {:induction false} ServeTotal(topology: Topology, stock: Stock, demand: seq<Demand>, p: int)
    requires Regular(topology)
    ensures TotalStock(topology.nodes, Serve(topology, stock, demand), p)
         == TotalStock(topology.nodes, stock, p) - ServedOf(topology, stock, demand, p)
  {
    if demand != [] {
      var front, d := demand[..|demand| - 1], demand[|demand| - 1];
      ServeTotal(topology, stock, front, p);
      LookupHas(topology.nodes, d.city);
      var before := Serve(topology, stock, front);
      TotalAdd(topology.nodes, before, d.city, d.product, -ServedNow(topology, before, d), p);
    }
  }

  /** A shipment takes from the upstream node what it puts in flight. */
  lemma ShipKeepsHoldings(
      topology: Topology, f: Flow, onOrder: int, node: SupplyNode, upstream: int, leadTime: int, product: int,
      tick: int, p: int)
    requires Regular(topology) && Has(topology.nodes, upstream)
    ensures var g := Ship(f, onOrder, node, upstream, leadTime, product, tick);
      Holdings(topology, g.stock, g.inFlight, p) == Holdings(topology, f.stock, f.inFlight, p)
  {
    var shipped := Shippable(f.stock, onOrder, node, upstream, product);
    TotalAdd(topology.nodes, f.stock, upstream, product, -shipped, p);
    var sent := Shipment(product, shipped, node.id, tick + leadTime);
    assert (f.inFlight + [sent])[..|f.inFlight|] == f.inFlight;
  }

  lemma {:induction false} ReplenishAtKeeps(
      topology: Topology, f: Flow, outstanding: seq<Shipment>, node: SupplyNode, upstream: int, leadTime: int,
      tick: int, k: nat, p: int)
    requires Regular(topology) && Has(topology.nodes, upstream) && k <= |topology.products|
    ensures var g := ReplenishAt(topology, f, outstanding, node, upstream, leadTime, tick, k);
      Holdings(topology, g.stock, g.inFlight, p) == Holdings(topology, f.stock, f.inFlight, p)
  {
    hide Holdings, Ship;
    if k > 0 {
      ReplenishAtKeeps(topology, f, outstanding, node, upstream, leadTime, tick, k - 1, p);
      var before := ReplenishAt(topology, f, outstanding, node, upstream, leadTime, tick, k - 1);
      var product := topology.products[k - 1];
      ShipKeepsHoldings(topology, before, OnOrder(outstanding, node.id, product), node, upstream, leadTime, product,
        tick, p);
    }
  }

  lemma {:induction false} ReplenishKeeps(
      topology: Topology, f: Flow, outstanding: seq<Shipment>, tick: int, i: nat, p: int)
    requires Regular(topology) && i <= |topology.nodes|
    ensures var g := Replenish(topology, f, outstanding, tick, i);
      Holdings(topology, g.stock, g.inFlight, p) == Holdings(topology, f.stock, f.inFlight, p)
  {
    if i > 0 {
      ReplenishKeeps(topology, f, outstanding, tick, i - 1, p);
      var before, node := Replenish(topology, f, outstanding, tick, i - 1), topology.nodes[i - 1];
      var supplier := SupplierOf(topology, node);
      if supplier.Some? {
        LookupHas(topology.nodes, supplier.value.0);
        ReplenishAtKeeps(topology, before, outstanding, node, supplier.value.0, supplier.value.1, tick,
          |topology.products|, p);
      }
    }
  }

  /** One tick changes what the network holds of a product by exactly what its suppliers produced
      minus what its cities served. */
  lemma StepConserves(topology: Topology, s: NetState, demand: seq<Demand>, p: int)
    requires Regular(topology) && Addressed(topology, s.inFlight)
    ensures var t := StepSpec(topology, s, demand).0;
      Holdings(topology, t.stock, t.inFlight, p)
      == Holdings(topology, s.stock, s.inFlight, p) + Produced(topology, p)
         - ServedOf(topology, AfterArrivals(topology, s), demand, p)
  {
    hide Produce, Deliver, Serve, Replenish, Due, Later, TotalStock, InFlightTotal, ServedOf, SupplierRates;
    var nodes := topology.nodes;
    assert nodes[..|nodes|] == nodes;
    ProduceTotal(topology, s.stock, |nodes|, p);
    SplitTotal(s.inFlight, s.tick, p);
    DueAddressed(topology, s.inFlight, s.tick);
    DeliverTotal(topology, AfterProduction(topology, s), Due(s.inFlight, s.tick), p);
    ServeTotal(topology, AfterArrivals(topology, s), demand, p);
    var remaining := Later(s.inFlight, s.tick);
    ReplenishKeeps(topology, Flow(AfterDemand(topology, s, demand), remaining, 0), remaining, s.tick, |nodes|, p);
  }

  lemma DueAddressed(topology: Topology, inFlight: seq<Shipment>, tick: int)
    requires Addressed(topology, inFlight)
    ensures Addressed(topology, Due(inFlight, tick)) && Addressed(topology, Later(inFlight, tick))
  {
    SplitMembers(inFlight, tick);
    var due, later := Due(inFlight, tick), Later(inFlight, tick);
    hide Due, Later, Has;
    forall k | 0 <= k < |due| ensures Has(topology.nodes, due[k].destination) {
      assert due[k] in due;
    }
    forall k | 0 <= k < |later| ensures Has(topology.nodes, later[k].destination) {
      assert later[k] in later;
    }
  }

  // ---------- bounds ----------

  ghost predicate NoDebt(stock: Stock) {
    forall id, p :: Get(stock, id, p) >= 0
  }

  /** Every shipment carries something, to a node of the network. */
  ghost predicate Travelling(topology: Topology, inFlight: seq<Shipment>) {
    forall k :: 0 <= k < |inFlight| ==> inFlight[k].quantity > 0 && Has(topology.nodes, inFlight[k].destination)
  }

  lemma {:induction false} ProduceAtNoDebt(stock: Stock, node: SupplyNode, products: seq<int>, k: nat)
    requires NoDebt(stock) && node.productionRate >= 0 && k <= |products|
    ensures NoDebt(ProduceAt(stock, node, products, k))
    ensures forall id, p :: id != node.id ==> Get(ProduceAt(stock, node, products, k), id, p) == Get(stock, id, p)
  {
    if k > 0 {
      ProduceAtNoDebt(stock, node, products, k - 1);
    }
  }

  /** Production leaves the stock of every node that is not a supplier alone. */
  lemma {:induction false} ProduceNoDebt(topology: Topology, stock: Stock, i: nat)
    requires Regular(topology) && NoDebt(stock) && i <= |topology.nodes|
    ensures NoDebt(Produce(topology, stock, i))
    ensures forall n, p :: n in topology.nodes && n.role != Supplier ==>
      Get(Produce(topology, stock, i), n.id, p) == Get(stock, n.id, p)
  {
    if i > 0 {
      ProduceNoDebt(topology, stock, i - 1);
      var before, node := Produce(topology, stock, i - 1), topology.nodes[i - 1];
      ProduceAtNoDebt(before, node, topology.products, |topology.products|);
      forall n, p | n in topology.nodes && n.role != Supplier
        ensures Get(Produce(topology, stock, i), n.id, p) == Get(stock, n.id, p)
      {
        if n.id == node.id {
          SameNode(topology.nodes, n, node);
        }
      }
    }
  }

  lemma SameNode(nodes: seq<SupplyNode>, m: SupplyNode, n: SupplyNode)
    requires DistinctNodes(nodes) && m in nodes && n in nodes && m.id == n.id
    ensures m == n
  {}

  lemma {:induction false} DeliverAt(topology: Topology, stock: Stock, arrivals: seq<Shipment>, id: int, p: int)
    requires Addressed(topology, arrivals)
    ensures Get(Deliver(topology, stock, arrivals), id, p) == Get(stock, id, p) + OnOrder(arrivals, id, p)
  {
    if arrivals != [] {
      DeliverAt(topology, stock, arrivals[..|arrivals| - 1], id, p);
      LookupHas(topology.nodes, arrivals[|arrivals| - 1].destination);
    }
  }

  lemma {:induction false} OnOrderPositive(inFlight: seq<Shipment>, id: int, p: int)
    requires forall k :: 0 <= k < |inFlight| ==> inFlight[k].quantity > 0
    ensures OnOrder(inFlight, id, p) >= 0
  {
    if inFlight != [] {
      OnOrderPositive(inFlight[..|inFlight| - 1], id, p);
    }
  }

  /** Demand only takes, and never more than there is. */
  lemma {:induction false} ServeAt(topology: Topology, stock: Stock, demand: seq<Demand>, id: int, p: int)
    requires NoDebt(stock)
    ensures NoDebt(Serve(topology, stock, demand))
    ensures Get(Serve(topology, stock, demand), id, p) <= Get(stock, id, p)
  {
    if demand != [] {
      ServeAt(topology, stock, demand[..|demand| - 1], id, p);
    }
  }

  /** The last request is met in full, or leaves the shelf of its city empty. */
  lemma ServedOrEmpty(topology: Topology, stock: Stock, demand: seq<Demand>)
    requires NoDebt(stock) && demand != [] && Counts(topology, demand[|demand| - 1])
    ensures var front, d := demand[..|demand| - 1], demand[|demand| - 1];
      var served := ServedTotal(topology, stock, demand) - ServedTotal(topology, stock, front);
      && 0 <= served <= d.requested
      && (served == d.requested || Get(Serve(topology, stock, demand), d.city, d.product) == 0)
  {
    ServeAt(topology, stock, demand[..|demand| - 1], demand[|demand| - 1].city, demand[|demand| - 1].product);
  }

  // ---------- the order-up-to bound ----------

  /** What a node has and expects of a product. */
  function Position(stock: Stock, inFlight: seq<Shipment>, id: int, p: int): int {
    Get(stock, id, p) + OnOrder(inFlight, id, p)
  }

  /** No debt, and no node that orders holds and expects more than its target or what it had before. */
  ghost predicate Within(topology: Topology, before: Flow, f: Flow) {
    && NoDebt(f.stock)
    && forall n, p :: n in topology.nodes && n.role != Supplier ==>
         Position(f.stock, f.inFlight, n.id, p) <= Max(n.orderUpTo, Position(before.stock, before.inFlight, n.id, p))
  }

  /** The count of outstanding quantity is still right for this node and product. */
  ghost predicate Current(f: Flow, outstanding: seq<Shipment>, node: SupplyNode, p: int) {
    OnOrder(f.inFlight, node.id, p) == OnOrder(outstanding, node.id, p)
  }

  lemma OnOrderAppend(inFlight: seq<Shipment>, s: Shipment, id: int, p: int)
    ensures OnOrder(inFlight + [s], id, p)
         == OnOrder(inFlight, id, p) + if s.destination == id && s.product == p then s.quantity else 0
  {
    assert (inFlight + [s])[..|inFlight|] == inFlight;
  }

  /** One order keeps the bound, and spoils the count for no other node and product. */
  lemma ShipWithin(
      topology: Topology, before: Flow, f: Flow, outstanding: seq<Shipment>, node: SupplyNode, upstream: int,
      leadTime: int,
      product: int, tick: int)
    requires Regular(topology) && Within(topology, before, f) && node in topology.nodes && node.role != Supplier
    requires Current(f, outstanding, node, product)
    ensures var g := Ship(f, OnOrder(outstanding, node.id, product), node, upstream, leadTime, product, tick);
      && Within(topology, before, g)
      && forall id, p :: (id, p) != (node.id, product) ==> OnOrder(g.inFlight, id, p) == OnOrder(f.inFlight, id, p)
  {
    hide OnOrder, Regular;
    var onOrder := OnOrder(outstanding, node.id, product);
    var g := Ship(f, onOrder, node, upstream, leadTime, product, tick);
    var shipped := Shippable(f.stock, onOrder, node, upstream, product);
    if shipped > 0 {
      var sent := Shipment(product, shipped, node.id, tick + leadTime);
      forall id, p ensures OnOrder(g.inFlight, id, p) == OnOrder(f.inFlight, id, p)
        + if (id, p) == (node.id, product) then shipped else 0 {
        OnOrderAppend(f.inFlight, sent, id, p);
      }
      forall n, p | n in topology.nodes && n.role != Supplier
        ensures Position(g.stock, g.inFlight, n.id, p)
          <= Max(n.orderUpTo, Position(before.stock, before.inFlight, n.id, p))
      {
        assert Position(f.stock, f.inFlight, n.id, p)
          <= Max(n.orderUpTo, Position(before.stock, before.inFlight, n.id, p));
        if n.id == node.id {
          assert n == node by { RegularSameNode(topology, n, node); }
        }
      }
    }
  }

  lemma RegularSameNode(topology: Topology, m: SupplyNode, n: SupplyNode)
    requires Regular(topology) && m in topology.nodes && n in topology.nodes && m.id == n.id
    ensures m == n
  {}

  /** A node at or above its reorder point orders nothing; one below it is filled exactly to its target,
      or empties the node upstream. */
  lemma OrderFillsOrEmpties(
      f: Flow, outstanding: seq<Shipment>, node: SupplyNode, upstream: int, leadTime: int, product: int, tick: int)
    requires NoDebt(f.stock) && Current(f, outstanding, node, product) && upstream != node.id
    ensures var g := Ship(f, OnOrder(outstanding, node.id, product), node, upstream, leadTime, product, tick);
      var before := Position(f.stock, f.inFlight, node.id, product);
      if before >= node.reorderPoint then g == f
      else
        Position(g.stock, g.inFlight, node.id, product) == Max(node.orderUpTo, before)
        || Get(g.stock, upstream, product) == 0
  {
    var shipped := Shippable(f.stock, OnOrder(outstanding, node.id, product), node, upstream, product);
    OnOrderAppend(f.inFlight, Shipment(product, shipped, node.id, tick + leadTime), node.id, product);
  }

  lemma {:induction false} ReplenishAtWithin(
      topology: Topology, before: Flow, f: Flow, outstanding: seq<Shipment>, node: SupplyNode, upstream: int,
      leadTime: int, tick: int, k: nat)
    requires Regular(topology) && Within(topology, before, f) && node in topology.nodes && node.role != Supplier
    requires k <= |topology.products| && forall p :: p in topology.products ==> Current(f, outstanding, node, p)
    ensures var g := ReplenishAt(topology, f, outstanding, node, upstream, leadTime, tick, k);
      && Within(topology, before, g)
      && (forall id, p :: id != node.id ==> OnOrder(g.inFlight, id, p) == OnOrder(f.inFlight, id, p))
      && forall j :: k <= j < |topology.products| ==> Current(g, outstanding, node, topology.products[j])
  {
    if k > 0 {
      ReplenishAtWithin(topology, before, f, outstanding, node, upstream, leadTime, tick, k - 1);
      var g := ReplenishAt(topology, f, outstanding, node, upstream, leadTime, tick, k - 1);
      ShipWithin(topology, before, g, outstanding, node, upstream, leadTime, topology.products[k - 1], tick);
    }
  }

  lemma {:induction false} ReplenishWithin(topology: Topology, f: Flow, tick: int, i: nat)
    requires Regular(topology) && NoDebt(f.stock) && i <= |topology.nodes|
    ensures var g := Replenish(topology, f, f.inFlight, tick, i);
      && Within(topology, f, g)
      && forall j, p :: i <= j < |topology.nodes| ==> Current(g, f.inFlight, topology.nodes[j], p)
  {
    if i > 0 {
      ReplenishWithin(topology, f, tick, i - 1);
      var g, node := Replenish(topology, f, f.inFlight, tick, i - 1), topology.nodes[i - 1];
      var supplier := SupplierOf(topology, node);
      if supplier.Some? {
        ReplenishAtWithin(topology, f, g, f.inFlight, node, supplier.value.0, supplier.value.1, tick,
          |topology.products|);
        var after := Replenish(topology, f, f.inFlight, tick, i);
        forall j, p | i <= j < |topology.nodes| ensures Current(after, f.inFlight, topology.nodes[j], p) {
          assert topology.nodes[j].id != node.id;
          assert Current(g, f.inFlight, topology.nodes[j], p);
        }
      }
    }
  }

  /** One tick leaves no stock negative, and no ordering node above its target unless it started there. */
  lemma StepWithin(topology: Topology, s: NetState, demand: seq<Demand>)
    requires Regular(topology) && NoDebt(s.stock) && Travelling(topology, s.inFlight)
    ensures var t := StepSpec(topology, s, demand).0;
      && NoDebt(t.stock)
      && forall n, p :: n in topology.nodes && n.role != Supplier ==>
           Position(t.stock, t.inFlight, n.id, p) <= Max(n.orderUpTo, Position(s.stock, s.inFlight, n.id, p))
  {
    var remaining := Later(s.inFlight, s.tick);
    var f := Flow(AfterDemand(topology, s, demand), remaining, 0);
    BeforeOrders(topology, s, demand);
    hide AfterDemand, Replenish, Later;
    ReplenishWithin(topology, f, s.tick, |topology.nodes|);
    var t := StepSpec(topology, s, demand).0;
    forall n, p | n in topology.nodes && n.role != Supplier
      ensures Position(t.stock, t.inFlight, n.id, p) <= Max(n.orderUpTo, Position(s.stock, s.inFlight, n.id, p))
    {
      assert Position(f.stock, f.inFlight, n.id, p) <= Position(s.stock, s.inFlight, n.id, p);
    }
  }

  /** Arrivals move quantity from the way to the shelf, demand takes it from the shelf. */
  lemma BeforeOrders(topology: Topology, s: NetState, demand: seq<Demand>)
    requires Regular(topology) && NoDebt(s.stock) && Travelling(topology, s.inFlight)
    ensures var stock := AfterDemand(topology, s, demand);
      && NoDebt(stock)
      && forall n, p :: n in topology.nodes && n.role != Supplier ==>
           Position(stock, Later(s.inFlight, s.tick), n.id, p) <= Position(s.stock, s.inFlight, n.id, p)
  {
    ProduceNoDebt(topology, s.stock, |topology.nodes|);
    ArrivalsNoDebt(topology, s);
    hide Produce, Deliver, Serve, Due, Later;
    ServeAt(topology, AfterArrivals(topology, s), demand, 0, 0);
    forall n, p | n in topology.nodes && n.role != Supplier
      ensures Position(AfterDemand(topology, s, demand), Later(s.inFlight, s.tick), n.id, p)
        <= Position(s.stock, s.inFlight, n.id, p)
    {
      ServeAt(topology, AfterArrivals(topology, s), demand, n.id, p);
      DueAddressed(topology, s.inFlight, s.tick);
      DeliverAt(topology, AfterProduction(topology, s), Due(s.inFlight, s.tick), n.id, p);
      SplitOnOrder(s.inFlight, s.tick, n.id, p);
    }
  }

  lemma ArrivalsNoDebt(topology: Topology, s: NetState)
    requires NoDebt(AfterProduction(topology, s)) && Travelling(topology, s.inFlight)
    ensures NoDebt(AfterArrivals(topology, s))
  {
    hide Produce;
    SplitMembers(s.inFlight, s.tick);
    DueAddressed(topology, s.inFlight, s.tick);
    var due := Due(s.inFlight, s.tick);
    forall k | 0 <= k < |due| ensures due[k].quantity > 0 {
      assert due[k] in due;
    }
    hide Due, Deliver;
    forall id, p ensures Get(AfterArrivals(topology, s), id, p) >= 0 {
      DeliverAt(topology, AfterProduction(topology, s), due, id, p);
      OnOrderPositive(due, id, p);
    }
  }

  // ---------- lead times ----------

  ghost predicate PositiveLeadTimes(topology: Topology) {
    forall e :: e in topology.edges ==> e.leadTime >= 1
  }

  lemma {:induction false} IndexFromEdges(edges: seq<Edge>, id: int)
    requires id in UpstreamIndex(edges)
    ensures Edge(UpstreamIndex(edges)[id].0, id, UpstreamIndex(edges)[id].1) in edges
  {
    var front, e := edges[..|edges| - 1], edges[|edges| - 1];
    assert edges == front + [e];
    if e.downstream != id {
      assert UpstreamIndex(edges)[id] == UpstreamIndex(front)[id];
      IndexFromEdges(front, id);
    } else {
      assert UpstreamIndex(edges)[id] == (e.upstream, e.leadTime);
      assert e == Edge(e.upstream, id, e.leadTime);
    }
  }

  lemma {:induction false} NoEdgeAbove(edges: seq<Edge>, id: int)
    ensures id in UpstreamIndex(edges) <==> exists e :: e in edges && e.downstream == id
  {
    if edges != [] {
      var front, e := edges[..|edges| - 1], edges[|edges| - 1];
      assert edges == front + [e];
      NoEdgeAbove(front, id);
    }
  }

  /** The edge at position k is above the node, and none later is. */
  ghost predicate LastAbove(edges: seq<Edge>, id: int, k: nat) {
    k < |edges| && edges[k].downstream == id && forall j :: k < j < |edges| ==> edges[j].downstream != id
  }

  /** The edge at position k is above the node, and none earlier is. */
  ghost predicate FirstAbove(edges: seq<Edge>, id: int, k: nat) {
    k < |edges| && edges[k].downstream == id && forall j :: 0 <= j < k ==> edges[j].downstream != id
  }

  lemma {:induction false} LastEdgeWins(edges: seq<Edge>, id: int, k: nat)
    requires LastAbove(edges, id, k)
    ensures id in UpstreamIndex(edges) && UpstreamIndex(edges)[id] == (edges[k].upstream, edges[k].leadTime)
  {
    var last := |edges| - 1;
    if k < last {
      LastEdgeWins(edges[..last], id, k);
      assert edges[last].downstream != id;
    }
  }

  /** A node has an upstream neighbour when an edge is above it, and it is that of the last such edge;
      it is that of the first exactly when these two edges carry the same neighbour and lead time. */
  lemma UpstreamOf(edges: seq<Edge>, id: int, first: nat, last: nat)
    requires FirstAbove(edges, id, first) && LastAbove(edges, id, last)
    ensures id in UpstreamIndex(edges) && UpstreamIndex(edges)[id] == (edges[last].upstream, edges[last].leadTime)
    ensures UpstreamIndex(edges)[id] == (edges[first].upstream, edges[first].leadTime) <==> edges[first] == edges[last]
  {
    LastEdgeWins(edges, id, last);
  }

  /** Two suppliers above one node: the second is returned. With a third edge like the first, the
      first is returned although the edges do not all agree. */
  lemma SecondEdgeWins()
    ensures UpstreamIndex([Edge(1, 3, 2), Edge(2, 3, 4)])[3] == (2, 4)
    ensures UpstreamIndex([Edge(1, 3, 2), Edge(2, 3, 4), Edge(1, 3, 2)])[3] == (1, 2)
  {
    UpstreamOf([Edge(1, 3, 2), Edge(2, 3, 4)], 3, 0, 1);
    UpstreamOf([Edge(1, 3, 2), Edge(2, 3, 4), Edge(1, 3, 2)], 3, 0, 2);
  }

  /** A shipment sent in this tick to a node of the network, due after the lead time of the edge that
      supplies it. */
  ghost predicate SentNow(topology: Topology, s: Shipment, tick: int) {
    var index := UpstreamIndex(topology.edges);
    && s.quantity > 0 && Has(topology.nodes, s.destination)
    && s.destination in index && s.arrivesAt == tick + index[s.destination].1
  }

  lemma {:induction false} ReplenishAtSends(
      topology: Topology, f: Flow, outstanding: seq<Shipment>, node: SupplyNode, upstream: int, leadTime: int,
      tick: int, k: nat)
    requires k <= |topology.products| && node in topology.nodes
    requires node.id in UpstreamIndex(topology.edges) && UpstreamIndex(topology.edges)[node.id] == (upstream, leadTime)
    ensures var g := ReplenishAt(topology, f, outstanding, node, upstream, leadTime, tick, k);
      f.inFlight <= g.inFlight
        && forall j :: |f.inFlight| <= j < |g.inFlight| ==> SentNow(topology, g.inFlight[j], tick)
  {
    if k > 0 {
      ReplenishAtSends(topology, f, outstanding, node, upstream, leadTime, tick, k - 1);
    }
  }

  lemma {:induction false} ReplenishSends(topology: Topology, f: Flow, outstanding: seq<Shipment>, tick: int, i: nat)
    requires i <= |topology.nodes|
    ensures var g := Replenish(topology, f, outstanding, tick, i);
      f.inFlight <= g.inFlight
        && forall j :: |f.inFlight| <= j < |g.inFlight| ==> SentNow(topology, g.inFlight[j], tick)
  {
    if i > 0 {
      ReplenishSends(topology, f, outstanding, tick, i - 1);
      var g, node := Replenish(topology, f, outstanding, tick, i - 1), topology.nodes[i - 1];
      var supplier := SupplierOf(topology, node);
      if supplier.Some? {
        ReplenishAtSends(topology, g, outstanding, node, supplier.value.0, supplier.value.1, tick, |topology.products|);
      }
    }
  }

  /** A tick takes in what is due, keeps the others in order, and sends the rest, each due one lead
      time later. */
  lemma TickShipments(topology: Topology, s: NetState, demand: seq<Demand>)
    ensures var t := StepSpec(topology, s, demand).0;
      && Later(s.inFlight, s.tick) <= t.inFlight
      && (forall j :: |Later(s.inFlight, s.tick)| <= j < |t.inFlight| ==> SentNow(topology, t.inFlight[j], s.tick))
  {
    hide Due, Later, Replenish, AfterDemand, Has;
    var remaining := Later(s.inFlight, s.tick);
    var f := Flow(AfterDemand(topology, s, demand), remaining, 0);
    ReplenishSends(topology, f, remaining, s.tick, |topology.nodes|);
  }

  /** A shipment after a tick was in flight before, and not yet due, or was sent in that tick. */
  lemma InFlightAfter(topology: Topology, s: NetState, demand: seq<Demand>, x: Shipment)
    ensures x in s.inFlight && x.arrivesAt > s.tick ==> x in StepSpec(topology, s, demand).0.inFlight
    ensures x in StepSpec(topology, s, demand).0.inFlight ==>
      (x in s.inFlight && x.arrivesAt > s.tick) || SentNow(topology, x, s.tick)
  {
    hide StepSpec, Later, SentNow;
    TickShipments(topology, s, demand);
    SplitMembers(s.inFlight, s.tick);
    var later, t := Later(s.inFlight, s.tick), StepSpec(topology, s, demand).0;
    if x in later {
      var i :| 0 <= i < |later| && later[i] == x;
      assert t.inFlight[i] == x;
    }
    if x in t.inFlight {
      var j :| 0 <= j < |t.inFlight| && t.inFlight[j] == x;
      if j < |later| { assert later[j] == x; }
    }
  }

  lemma TickTravels(topology: Topology, s: NetState, demand: seq<Demand>)
    requires Travelling(topology, s.inFlight)
    ensures Travelling(topology, StepSpec(topology, s, demand).0.inFlight)
  {
    hide StepSpec, Has;
    var t := StepSpec(topology, s, demand).0;
    forall j | 0 <= j < |t.inFlight|
      ensures t.inFlight[j].quantity > 0 && Has(topology.nodes, t.inFlight[j].destination)
    {
      InFlightAfter(topology, s, demand, t.inFlight[j]);
    }
  }

  /** No shipment should have arrived before the tick. */
  ghost predicate NoneOverdue(inFlight: seq<Shipment>, tick: int) {
    forall k :: 0 <= k < |inFlight| ==> inFlight[k].arrivesAt >= tick
  }

  /** With lead times of at least one, a tick takes in exactly the shipments due in that very tick, and
      leaves none overdue for the next. */
  lemma ArrivalsOnTime(topology: Topology, s: NetState, demand: seq<Demand>)
    requires PositiveLeadTimes(topology) && NoneOverdue(s.inFlight, s.tick)
    ensures var t := StepSpec(topology, s, demand).0;
      && (forall x :: x in Due(s.inFlight, s.tick) <==> x in s.inFlight && x.arrivesAt == s.tick)
      && NoneOverdue(t.inFlight, t.tick)
  {
    hide StepSpec, Due, Has;
    SplitMembers(s.inFlight, s.tick);
    TickAdvances(topology, s, demand);
    var t := StepSpec(topology, s, demand).0;
    forall j | 0 <= j < |t.inFlight| ensures t.inFlight[j].arrivesAt >= t.tick {
      InFlightAfter(topology, s, demand, t.inFlight[j]);
      if SentNow(topology, t.inFlight[j], s.tick) {
        IndexFromEdges(topology.edges, t.inFlight[j].destination);
      }
    }
  }

  lemma TickAdvances(topology: Topology, s: NetState, demand: seq<Demand>)
    ensures StepSpec(topology, s, demand).0.tick == s.tick + 1
  {}

  // ---------- runs ----------

  function Run(topology: Topology, s: NetState, ticks: seq<seq<Demand>>): NetState {
    if ticks == [] then s
    else StepSpec(topology, Run(topology, s, ticks[..|ticks| - 1]), ticks[|ticks| - 1]).0
  }

  /** What the cities served of a product over a run. */
  function ServedBy(topology: Topology, s: NetState, ticks: seq<seq<Demand>>, p: int): int {
    if ticks == [] then 0
    else
      var front := ticks[..|ticks| - 1];
      ServedBy(topology, s, front, p)
      + ServedOf(topology, AfterArrivals(topology, Run(topology, s, front)), ticks[|ticks| - 1], p)
  }

  function ProducedBy(topology: Topology, n: nat, p: int): int {
    if n == 0 then 0 else ProducedBy(topology, n - 1, p) + Produced(topology, p)
  }

  /** Over any run, whatever the lead times: holdings change by production minus service, stock is never
      negative, and no ordering node holds and expects more than its target or its start. */
  lemma {:induction false} RunSound(topology: Topology, s: NetState, ticks: seq<seq<Demand>>)
    requires Regular(topology) && NoDebt(s.stock) && Travelling(topology, s.inFlight)
    ensures var t := Run(topology, s, ticks);
      && NoDebt(t.stock) && Travelling(topology, t.inFlight)
      && (forall n, p :: n in topology.nodes && n.role != Supplier ==>
            Position(t.stock, t.inFlight, n.id, p) <= Max(n.orderUpTo, Position(s.stock, s.inFlight, n.id, p)))
      && (forall p :: Holdings(topology, t.stock, t.inFlight, p)
            == Holdings(topology, s.stock, s.inFlight, p) + ProducedBy(topology, |ticks|, p)
               - ServedBy(topology, s, ticks, p))
  {
    hide StepSpec, Holdings, Position, Produced, ServedOf, Travelling, NoDebt;
    if ticks != [] {
      var last := |ticks| - 1;
      RunSound(topology, s, ticks[..last]);
      var before := Run(topology, s, ticks[..last]);
      StepWithin(topology, before, ticks[last]);
      TickTravels(topology, before, ticks[last]);
      TravellingAddressed(topology, before.inFlight);
      forall p
        ensures Holdings(topology, Run(topology, s, ticks).stock, Run(topology, s, ticks).inFlight, p)
             == Holdings(topology, s.stock, s.inFlight, p) + ProducedBy(topology, |ticks|, p)
                - ServedBy(topology, s, ticks, p)
      {
        StepConserves(topology, before, ticks[last], p);
      }
    }
  }

  lemma TravellingAddressed(topology: Topology, inFlight: seq<Shipment>)
    requires Travelling(topology, inFlight)
    ensures Addressed(topology, inFlight)
  {}

  /** The clock of a run. */
  lemma {:induction false} RunTick(topology: Topology, s: NetState, ticks: seq<seq<Demand>>)
    ensures Run(topology, s, ticks).tick == s.tick + |ticks|
  {
    hide StepSpec;
    if ticks != [] {
      RunTick(topology, s, ticks[..|ticks| - 1]);
      TickAdvances(topology, Run(topology, s, ticks[..|ticks| - 1]), ticks[|ticks| - 1]);
    }
  }

  /** With lead times of at least one nothing is ever overdue. */
  lemma {:induction false} RunOnTime(topology: Topology, s: NetState, ticks: seq<seq<Demand>>)
    requires PositiveLeadTimes(topology) && NoneOverdue(s.inFlight, s.tick)
    ensures NoneOverdue(Run(topology, s, ticks).inFlight, s.tick + |ticks|)
  {
    hide StepSpec, NoneOverdue;
    RunTick(topology, s, ticks);
    if ticks != [] {
      var last := |ticks| - 1;
      RunTick(topology, s, ticks[..last]);
      RunOnTime(topology, s, ticks[..last]);
      ArrivalsOnTime(topology, Run(topology, s, ticks[..last]), ticks[last]);
    }
  }

  /** The shipment was sent in tick k of the run. */
  ghost predicate Sent(topology: Topology, s: NetState, ticks: seq<seq<Demand>>, k: nat, x: Shipment)
    requires k < |ticks|
  {
    var before, t := Run(topology, s, ticks[..k]), Run(topology, s, ticks[..k + 1]);
    x in t.inFlight[Min(|Later(before.inFlight, before.tick)|, |t.inFlight|)..]
  }

  lemma RunStep(topology: Topology, s: NetState, ticks: seq<seq<Demand>>, k: nat)
    requires k < |ticks|
    ensures var before := Run(topology, s, ticks[..k]);
      Run(topology, s, ticks[..k + 1]) == StepSpec(topology, before, ticks[k]).0 && before.tick == s.tick + k
  {
    hide StepSpec;
    assert ticks[..k + 1][..k] == ticks[..k];
    RunTick(topology, s, ticks[..k]);
  }

  lemma SentMeaning(topology: Topology, s: NetState, ticks: seq<seq<Demand>>, k: nat, x: Shipment)
    requires k < |ticks| && Sent(topology, s, ticks, k, x)
    ensures x in Run(topology, s, ticks[..k + 1]).inFlight && SentNow(topology, x, s.tick + k)
  {
    hide Run, StepSpec, SentNow, Later;
    var before, t := Run(topology, s, ticks[..k]), Run(topology, s, ticks[..k + 1]);
    RunStep(topology, s, ticks, k);
    TickShipments(topology, before, ticks[k]);
    var n := |Later(before.inFlight, before.tick)|;
    var j :| 0 <= j < |t.inFlight[n..]| && t.inFlight[n..][j] == x;
    assert t.inFlight[n + j] == x;
  }

  lemma {:induction false} InFlightUntilDue(
      topology: Topology, s: NetState, ticks: seq<seq<Demand>>, k: nat, m: nat, x: Shipment)
    requires k < m <= |ticks|
    requires x in Run(topology, s, ticks[..k + 1]).inFlight && (m > k + 1 ==> s.tick + m <= x.arrivesAt)
    ensures x in Run(topology, s, ticks[..m]).inFlight
    decreases m
  {
    hide Run, StepSpec;
    if m > k + 1 {
      InFlightUntilDue(topology, s, ticks, k, m - 1, x);
      RunStep(topology, s, ticks, m - 1);
      InFlightAfter(topology, Run(topology, s, ticks[..m - 1]), ticks[m - 1], x);
    }
  }

  /** Whatever is sent in tick k of a run is due in one tick alone: the lead time of its edge later, or in
      the next tick when that is less than one. So a shipment arrives exactly its lead time after it was
      sent if and only if that is at least one. */
  lemma ArrivesAfterLeadTime(
      topology: Topology, s: NetState, ticks: seq<seq<Demand>>, k: nat, m: nat, x: Shipment)
    requires k < m <= |ticks| && Sent(topology, s, ticks, k, x)
    ensures var index := UpstreamIndex(topology.edges);
      x.destination in index
      && (x in Due(Run(topology, s, ticks[..m]).inFlight, s.tick + m) <==> m == k + Max(1, index[x.destination].1))
  {
    hide Run, StepSpec, Sent, UpstreamIndex, Due, Later, Has;
    SentMeaning(topology, s, ticks, k, x);
    var t := Run(topology, s, ticks[..m]);
    RunStep(topology, s, ticks, m - 1);
    SplitMembers(t.inFlight, s.tick + m);
    InFlightAfter(topology, Run(topology, s, ticks[..m - 1]), ticks[m - 1], x);
    if m == k + Max(1, UpstreamIndex(topology.edges)[x.destination].1) {
      InFlightUntilDue(topology, s, ticks, k, m, x);
    }
  }

  /** Every request of a run is met in full, or leaves the shelf of its city empty. */
  lemma RunServes(topology: Topology, s: NetState, ticks: seq<seq<Demand>>, k: nat, i: nat)
    requires Regular(topology) && NoDebt(s.stock) && Travelling(topology, s.inFlight)
    requires k < |ticks| && i < |ticks[k]| && Counts(topology, ticks[k][i])
    ensures var stock, d := AfterArrivals(topology, Run(topology, s, ticks[..k])), ticks[k][i];
      var served := ServedTotal(topology, stock, ticks[k][..i + 1]) - ServedTotal(topology, stock, ticks[k][..i]);
      && 0 <= served <= d.requested
      && (served == d.requested || Get(Serve(topology, stock, ticks[k][..i + 1]), d.city, d.product) == 0)
  {
    hide Run, StepSpec, AfterArrivals, Serve, ServedTotal, Counts, Holdings, Position;
    RunSound(topology, s, ticks[..k]);
    var before := Run(topology, s, ticks[..k]);
    ProduceNoDebt(topology, before.stock, |topology.nodes|);
    ArrivalsNoDebt(topology, before);
    var demand := ticks[k][..i + 1];
    assert demand[..i] == ticks[k][..i] && demand[i] == ticks[k][i];
    ServedOrEmpty(topology, AfterArrivals(topology, before), demand);
  }

  // ---------- histories ----------

  /** What the cities of the network are asked for of a product in one tick. */
  function RequestedOf(topology: Topology, demand: seq<Demand>, p: int): int {
    if demand == [] then 0
    else
      var d := demand[|demand| - 1];
      RequestedOf(topology, demand[..|demand| - 1], p)
      + if d.product == p && Counts(topology, d) then d.requested else 0
  }

  ghost predicate Wanted(topology: Topology, demand: seq<Demand>, p: int) {
    p in topology.products || exists d :: d in demand && d.product == p && Counts(topology, d)
  }

  lemma {:induction false} TotalsMeaning(topology: Topology, demand: seq<Demand>, p: int)
    ensures p in DemandTotals(topology, demand) <==> Wanted(topology, demand, p)
    ensures p in DemandTotals(topology, demand) ==>
      DemandTotals(topology, demand)[p] == RequestedOf(topology, demand, p)
    ensures p !in DemandTotals(topology, demand) ==> RequestedOf(topology, demand, p) == 0
  {
    hide Counts;
    if demand != [] {
      var front, d := demand[..|demand| - 1], demand[|demand| - 1];
      TotalsMeaning(topology, front, p);
      assert demand == front + [d];
      assert Wanted(topology, demand, p) <==> Wanted(topology, front, p) || (d.product == p && Counts(topology, d));
    }
  }

  lemma ShipOnOrder(
      f: Flow, onOrder: int, node: SupplyNode, upstream: int, leadTime: int, product: int, tick: int, id: int, p: int)
    ensures OnOrder(Ship(f, onOrder, node, upstream, leadTime, product, tick).inFlight, id, p)
         == OnOrder(f.inFlight, id, p)
            + if id == node.id && p == product then Max(0, Shippable(f.stock, onOrder, node, upstream, product)) else 0
  {
    hide Shippable;
    var shipped := Shippable(f.stock, onOrder, node, upstream, product);
    OnOrderAppend(f.inFlight, Shipment(product, shipped, node.id, tick + leadTime), id, p);
  }

  /** A node's history of a product grows by what is newly on its way to the node, once a product. */
  lemma {:induction false} OrdersAtMeaning(
      topology: Topology, f: Flow, outstanding: seq<Shipment>, node: SupplyNode, upstream: int, leadTime: int,
      tick: int,
      k: nat, history: map<(int, int), seq<int>>, id: int, p: int)
    requires Distinct(topology.products) && k <= |topology.products|
    ensures var g := ReplenishAt(topology, f, outstanding, node, upstream, leadTime, tick, k);
      var r := OrdersAt(topology, f, outstanding, node, upstream, leadTime, tick, k, history);
      var sent := OnOrder(g.inFlight, id, p) - OnOrder(f.inFlight, id, p);
      if id == node.id && p in topology.products[..k]
      then SeriesOf(r, (id, p)) == Extended(SeriesOf(history, (id, p)), sent)
      else SeriesOf(r, (id, p)) == SeriesOf(history, (id, p)) && sent == 0
  {
    hide Shippable, Extended, OnOrder, Ship;
    if k > 0 {
      OrdersAtMeaning(topology, f, outstanding, node, upstream, leadTime, tick, k - 1, history, id, p);
      var g, product := ReplenishAt(topology, f, outstanding, node, upstream, leadTime, tick, k - 1),
        topology.products[k - 1];
      ShipOnOrder(g, OnOrder(outstanding, node.id, product), node, upstream, leadTime, product, tick, id, p);
      assert topology.products[..k] == topology.products[..k - 1] + [product];
      assert product !in topology.products[..k - 1];
    }
  }

  /** One of the first i nodes has this id and orders this product. */
  ghost predicate Ordering(topology: Topology, i: nat, id: int, p: int)
    requires i <= |topology.nodes|
  {
    p in topology.products
    && exists j :: 0 <= j < i && topology.nodes[j].id == id && SupplierOf(topology, topology.nodes[j]).Some?
  }

  lemma {:induction false} OrdersMeaning(
      topology: Topology, f: Flow, outstanding: seq<Shipment>, tick: int, i: nat, history: map<(int, int), seq<int>>,
      id: int, p: int)
    requires DistinctNodes(topology.nodes) && Distinct(topology.products) && i <= |topology.nodes|
    ensures var g, r := Replenish(topology, f, outstanding, tick, i),
      Orders(topology, f, outstanding, tick, i, history);
      var sent := OnOrder(g.inFlight, id, p) - OnOrder(f.inFlight, id, p);
      if Ordering(topology, i, id, p) then SeriesOf(r, (id, p)) == Extended(SeriesOf(history, (id, p)), sent)
      else SeriesOf(r, (id, p)) == SeriesOf(history, (id, p)) && sent == 0
  {
    hide SupplierOf, OrdersAt, ReplenishAt, Extended, OnOrder, SeriesOf;
    if i > 0 {
      OrdersMeaning(topology, f, outstanding, tick, i - 1, history, id, p);
      var before, node := Orders(topology, f, outstanding, tick, i - 1, history), topology.nodes[i - 1];
      var g, supplier, n :=
        Replenish(topology, f, outstanding, tick, i - 1), SupplierOf(topology, node), |topology.products|;
      if supplier.Some? {
        OrdersAtMeaning(topology, g, outstanding, node, supplier.value.0, supplier.value.1, tick, n, before, id, p);
        assert topology.products[..n] == topology.products;
      }
      OneMoreNode(topology, i, id, p);
    }
  }

  lemma OneMoreNode(topology: Topology, i: nat, id: int, p: int)
    requires DistinctNodes(topology.nodes) && 0 < i <= |topology.nodes|
    ensures var node := topology.nodes[i - 1];
      var now := p in topology.products && node.id == id && SupplierOf(topology, node).Some?;
      && (Ordering(topology, i, id, p) <==> Ordering(topology, i - 1, id, p) || now)
      && !(Ordering(topology, i - 1, id, p) && node.id == id)
  {
    hide SupplierOf;
    if Ordering(topology, i - 1, id, p) {
      var j :| 0 <= j < i - 1 && topology.nodes[j].id == id && SupplierOf(topology, topology.nodes[j]).Some?;
      assert topology.nodes[j].id != topology.nodes[i - 1].id;
    }
  }

  /** A tick extends the history of every ordering node and product by exactly what it newly sends there,
      and that of every product by what the cities were asked for, and leaves the others alone. */
  lemma HistoriesAccount(topology: Topology, s: NetState, demand: seq<Demand>, h: Histories, id: int, p: int)
    requires Regular(topology)
    ensures var t, r := StepSpec(topology, s, demand).0, HistoriesSpec(topology, s, demand, h);
      var sent := OnOrder(t.inFlight, id, p) - OnOrder(Later(s.inFlight, s.tick), id, p);
      && (if Ordering(topology, |topology.nodes|, id, p)
          then SeriesOf(r.orders, (id, p)) == Extended(SeriesOf(h.orders, (id, p)), sent)
          else SeriesOf(r.orders, (id, p)) == SeriesOf(h.orders, (id, p)) && sent == 0)
      && SeriesOf(r.demand, p)
         == if Wanted(topology, demand, p) then Extended(SeriesOf(h.demand, p), RequestedOf(topology, demand, p))
            else SeriesOf(h.demand, p)
  {
    hide Ordering, Wanted, Extended, OnOrder, Later, Replenish, Orders, AfterDemand, DemandTotals, RequestedOf;
    var remaining := Later(s.inFlight, s.tick);
    var f := Flow(AfterDemand(topology, s, demand), remaining, 0);
    OrdersMeaning(topology, f, remaining, s.tick, |topology.nodes|, h.orders, id, p);
    TotalsMeaning(topology, demand, p);
  }

  // ---------- built networks ----------

  lemma {:induction false} PutNew(nodes: seq<SupplyNode>, n: SupplyNode)
    requires !Has(nodes, n.id)
    ensures PutNode(nodes, n) == nodes + [n]
  {
    if nodes != [] {
      assert nodes[0] in nodes;
      assert forall m :: m in nodes[1..] ==> m in nodes;
      PutNew(nodes[1..], n);
    }
  }

  lemma {:induction false} PutDistinct(nodes: seq<SupplyNode>)
    requires DistinctNodes(nodes)
    ensures PutNodes(nodes) == nodes
  {
    if nodes != [] {
      var front, last := nodes[..|nodes| - 1], nodes[|nodes| - 1];
      PutDistinct(front);
      PutNew(front, last);
      assert nodes == front + [last];
    }
  }

  lemma SortedDistinct(ids: seq<int>)
    requires Distinct(ids)
    ensures Distinct(Sorted(ids))
  {
    var r := Sorted(ids);
    forall i, j | 0 <= i < j < |r| ensures r[i] != r[j] {
      if r[i] == r[j] {
        TwicePresent(r, i, j);
        OncePresent(ids, r[i]);
      }
    }
  }

  ghost predicate DistinctDownstream(edges: seq<Edge>) {
    forall i, j :: 0 <= i < j < |edges| ==> edges[i].downstream != edges[j].downstream
  }

  /** The node is supplied, with this lead time, by a node of the given role. */
  ghost predicate SuppliedBy(topology: Topology, node: SupplyNode, role: Role, leadTime: int) {
    var supplier := SupplierOf(topology, node);
    supplier.Some? && supplier.value.1 == leadTime
    && exists up :: up in topology.nodes && up.id == supplier.value.0 && up.role == role
  }

  lemma EdgeSupplies(topology: Topology, i: nat, node: SupplyNode, up: SupplyNode)
    requires DistinctDownstream(topology.edges) && i < |topology.edges|
    requires node in topology.nodes && node.role != Supplier && up in topology.nodes
    requires topology.edges[i].downstream == node.id && topology.edges[i].upstream == up.id
    ensures SuppliedBy(topology, node, up.role, topology.edges[i].leadTime)
  {
    LastEdgeWins(topology.edges, node.id, i);
    LookupHas(topology.nodes, up.id);
    assert Has(topology.nodes, up.id);
  }

  function Tiers(ids: seq<int>, suppliers: nat, distributors: nat, products: seq<int>, leadTime: int): Topology
    requires 1 <= suppliers && 1 <= distributors && suppliers + distributors < |ids|
  {
    Topology(Assigned(ids, suppliers, distributors), Wiring(ids, suppliers, distributors, leadTime), products)
  }

  /** The edges, in order: one for each city, then one for each distributor. */
  lemma EdgeAt(ids: seq<int>, suppliers: nat, distributors: nat, leadTime: int, i: nat)
    requires 1 <= suppliers && 1 <= distributors && suppliers + distributors < |ids| && i < |ids| - suppliers
    ensures |Wiring(ids, suppliers, distributors, leadTime)| == |ids| - suppliers
    ensures var cities := |ids| - suppliers - distributors;
      Wiring(ids, suppliers, distributors, leadTime)[i]
      == if i < cities then Edge(ids[suppliers + Turn(i, distributors)], ids[suppliers + distributors + i], leadTime)
         else Edge(ids[Turn(i - cities, suppliers)], ids[suppliers + i - cities], leadTime)
  {
    hide Turn;
  }

  lemma WiringDistinct(ids: seq<int>, suppliers: nat, distributors: nat, leadTime: int)
    requires 1 <= suppliers && 1 <= distributors && suppliers + distributors < |ids| && Distinct(ids)
    ensures DistinctDownstream(Wiring(ids, suppliers, distributors, leadTime))
    ensures forall e :: e in Wiring(ids, suppliers, distributors, leadTime) ==> e.leadTime == leadTime
  {
    hide Wiring, Turn;
    var edges := Wiring(ids, suppliers, distributors, leadTime);
    EdgeAt(ids, suppliers, distributors, leadTime, 0);
    forall i, j | 0 <= i < j < |edges| ensures edges[i].downstream != edges[j].downstream {
      EdgeAt(ids, suppliers, distributors, leadTime, i);
      EdgeAt(ids, suppliers, distributors, leadTime, j);
    }
    forall i | 0 <= i < |edges| ensures edges[i].leadTime == leadTime {
      EdgeAt(ids, suppliers, distributors, leadTime, i);
    }
  }

  /** Three tiers over distinct sorted ids: every distributor is supplied by a supplier and every city
      by a distributor, all with the one lead time. */
  lemma NodeWired(ids: seq<int>, suppliers: nat, distributors: nat, products: seq<int>, leadTime: int, k: nat)
    requires Distinct(ids) && 1 <= suppliers && 1 <= distributors && suppliers + distributors < |ids|
    requires suppliers <= k < |ids|
    ensures var topology := Tiers(ids, suppliers, distributors, products, leadTime);
      var node := topology.nodes[k];
      SuppliedBy(topology, node, if node.role == City then Distributor else Supplier, leadTime)
  {
    hide SuppliedBy, Wiring, Turn;
    var topology := Tiers(ids, suppliers, distributors, products, leadTime);
    var cities := |ids| - suppliers - distributors;
    WiringDistinct(ids, suppliers, distributors, leadTime);
    var i := if k >= suppliers + distributors then k - suppliers - distributors else k - suppliers + cities;
    EdgeAt(ids, suppliers, distributors, leadTime, i);
    var up := if i < cities then suppliers + Turn(i, distributors) else Turn(i - cities, suppliers);
    EdgeSupplies(topology, i, topology.nodes[k], topology.nodes[up]);
  }

  lemma TiersRegular(ids: seq<int>, suppliers: nat, distributors: nat, products: seq<int>, leadTime: int)
    requires Distinct(ids) && Distinct(products) && 1 <= suppliers && 1 <= distributors
    requires suppliers + distributors < |ids|
    ensures var topology := Tiers(ids, suppliers, distributors, products, leadTime);
      Regular(topology) && (leadTime >= 1 ==> PositiveLeadTimes(topology))
  {
    hide Wiring;
    WiringDistinct(ids, suppliers, distributors, leadTime);
  }

  lemma {:induction false} StockedNoDebt(stock: Stock, id: int, products: seq<int>, amount: int)
    requires NoDebt(stock) && amount >= 0
    ensures NoDebt(StockedAt(stock, id, products, amount))
  {
    if products != [] {
      var front, last := products[..|products| - 1], products[|products| - 1];
      StockedNoDebt(stock, id, front, amount);
      var before := StockedAt(stock, id, front, amount);
      var after := before[(id, last) := amount];
      forall i, p ensures Get(after, i, p) >= 0 {
        assert Get(before, i, p) >= 0;
      }
    }
  }

  lemma {:induction false} InitialNoDebt(nodes: seq<SupplyNode>, products: seq<int>, amount: int)
    requires amount >= 0
    ensures NoDebt(InitialStock(nodes, products, amount))
  {
    if nodes != [] {
      InitialNoDebt(nodes[..|nodes| - 1], products, amount);
      StockedNoDebt(InitialStock(nodes[..|nodes| - 1], products, amount), nodes[|nodes| - 1].id, products, amount);
    }
  }

  /** A built network over distinct ids meets, with nothing in flight and no negative initial stock, every
      assumption of RunSound, and with a lead time of at least one that of RunOnTime; and each of
      its cities is supplied by a distributor and each distributor by a supplier. */
  lemma BuiltNetwork(
      nodeIds: seq<int>, supplierFraction: real, distributorFraction: real, products: seq<int>, leadTime: int,
      amount: int)
    requires Distinct(nodeIds) && Distinct(products)
    requires Build(nodeIds, supplierFraction, distributorFraction, products, leadTime).Some?
    ensures var topology := Build(nodeIds, supplierFraction, distributorFraction, products, leadTime).value;
      && Regular(topology) && |topology.nodes| == |nodeIds| && (leadTime >= 1 ==> PositiveLeadTimes(topology))
      && (amount >= 0 ==> NoDebt(InitialStock(topology.nodes, products, amount)))
      && (forall n :: n in topology.nodes && n.role != Supplier ==>
            SuppliedBy(topology, n, if n.role == City then Distributor else Supplier, leadTime))
  {
    hide SuppliedBy, Share, Sorted, Wiring, Regular, PutNodes, NoDebt, PositiveLeadTimes;
    var suppliers, distributors := Share(|nodeIds|, supplierFraction), Share(|nodeIds|, distributorFraction);
    var ids := Sorted(nodeIds);
    SortedDistinct(nodeIds);
    TiersRegular(ids, suppliers, distributors, products, leadTime);
    var topology := Tiers(ids, suppliers, distributors, products, leadTime);
    assert PutNodes(topology.nodes) == topology.nodes by { AssignedDistinct(ids, suppliers, distributors); }
    if amount >= 0 { InitialNoDebt(topology.nodes, products, amount); }
    forall n | n in topology.nodes && n.role != Supplier
      ensures SuppliedBy(topology, n, if n.role == City then Distributor else Supplier, leadTime)
    {
      var k :| 0 <= k < |topology.nodes| && topology.nodes[k] == n;
      NodeWired(ids, suppliers, distributors, products, leadTime, k);
    }
  }

  lemma AssignedDistinct(ids: seq<int>, suppliers: nat, distributors: nat)
    requires Distinct(ids)
    ensures PutNodes(Assigned(ids, suppliers, distributors)) == Assigned(ids, suppliers, distributors)
  {
    PutDistinct(Assigned(ids, suppliers, distributors));
  }
}
