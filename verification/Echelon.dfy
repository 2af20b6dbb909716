/** The multi-echelon supply chain: one tick of production, arrivals, demand and replenishment. */
module Echelon {
  import opened Collections

  datatype Role = Supplier | Distributor | City

  datatype SupplyNode = SupplyNode(id: int, role: Role, productionRate: int, reorderPoint: int, orderUpTo: int)

  datatype Shipment = Shipment(product: int, quantity: int, destination: int, arrivesAt: int)

  datatype Edge = Edge(upstream: int, downstream: int, leadTime: int)

  /** The demand of one city for one product. */
  datatype Demand = Demand(city: int, product: int, requested: int)

  /** The stock of every node, by node and product; an absent entry is zero. */
  type Stock = map<(int, int), int>

  /** The fixed part of a network, the nodes in the order of their dictionary. */
  datatype Topology = Topology(nodes: seq<SupplyNode>, edges: seq<Edge>, products: seq<int>)

  datatype NetState = NetState(stock: Stock, inFlight: seq<Shipment>, tick: int)

  datatype Summary = Summary(tick: int, demandTotal: int, servedTotal: int, ordersPlaced: nat, inFlight: nat)

  function Get(stock: Stock, id: int, product: int): int {
    if (id, product) in stock then stock[(id, product)] else 0
  }

  function Add(stock: Stock, id: int, product: int, delta: int): (r: Stock)
    ensures forall i, p :: Get(r, i, p) == Get(stock, i, p) + if (i, p) == (id, product) then delta else 0
  {
    stock[(id, product) := Get(stock, id, product) + delta]
  }

  function Lookup(nodes: seq<SupplyNode>, id: int): (r: Option<SupplyNode>)
    ensures r.Some? ==> r.value in nodes && r.value.id == id
    ensures r.None? ==> forall n :: n in nodes ==> n.id != id
  {
    if nodes == [] then None else if nodes[0].id == id then Some(nodes[0]) else Lookup(nodes[1..], id)
  }

  // ---------- production ----------

  /** One supplier after producing its first k products. */
  function ProduceAt(stock: Stock, node: SupplyNode, products: seq<int>, k: nat): Stock
    requires k <= |products|
  {
    if k == 0 then stock else Add(ProduceAt(stock, node, products, k - 1), node.id, products[k - 1],
      node.productionRate)
  }

  function Produce(topology: Topology, stock: Stock, i: nat): Stock
    requires i <= |topology.nodes|
  {
    if i == 0 then stock
    else
      var before, node := Produce(topology, stock, i - 1), topology.nodes[i - 1];
      if node.role == Supplier then ProduceAt(before, node, topology.products, |topology.products|) else before
  }

  // ---------- arrivals ----------

  function Due(inFlight: seq<Shipment>, tick: int): seq<Shipment> {
    if inFlight == [] then []
    else
      Due(inFlight[..|inFlight| - 1], tick)
      + if inFlight[|inFlight| - 1].arrivesAt <= tick then [inFlight[|inFlight| - 1]] else []
  }

  function Later(inFlight: seq<Shipment>, tick: int): seq<Shipment> {
    if inFlight == [] then []
    else
      Later(inFlight[..|inFlight| - 1], tick)
      + if inFlight[|inFlight| - 1].arrivesAt <= tick then [] else [inFlight[|inFlight| - 1]]
  }

  /** Shipments to unknown nodes are dropped. */
  function Deliver(topology: Topology, stock: Stock, arrivals: seq<Shipment>): Stock {
    if arrivals == [] then stock
    else
      var before, s := Deliver(topology, stock, arrivals[..|arrivals| - 1]), arrivals[|arrivals| - 1];
      if Lookup(topology.nodes, s.destination).None? then before
      else Add(before, s.destination, s.product, s.quantity)
  }

  // ---------- demand ----------

  predicate Counts(topology: Topology, d: Demand) {
    var city := Lookup(topology.nodes, d.city);
    city.Some? && city.value.role == City && d.requested > 0
  }

  function ServedNow(topology: Topology, stock: Stock, d: Demand): int {
    if Counts(topology, d) then Min(Get(stock, d.city, d.product), d.requested) else 0
  }

  function Serve(topology: Topology, stock: Stock, demand: seq<Demand>): Stock {
    if demand == [] then stock
    else
      var before, d := Serve(topology, stock, demand[..|demand| - 1]), demand[|demand| - 1];
      if Counts(topology, d) then Add(before, d.city, d.product, -ServedNow(topology, before, d)) else before
  }

  function RequestedTotal(topology: Topology, demand: seq<Demand>): int {
    if demand == [] then 0
    else
      var d := demand[|demand| - 1];
      RequestedTotal(topology, demand[..|demand| - 1]) + if Counts(topology, d) then d.requested else 0
  }

  function ServedTotal(topology: Topology, stock: Stock, demand: seq<Demand>): int {
    if demand == [] then 0
    else
      var front := demand[..|demand| - 1];
      ServedTotal(topology, stock, front) + ServedNow(topology, Serve(topology, stock, front), demand[|demand| - 1])
  }

  // ---------- replenishment ----------

  /** What is on its way to a node. */
  function OnOrder(inFlight: seq<Shipment>, id: int, product: int): int {
    if inFlight == [] then 0
    else
      var s := inFlight[|inFlight| - 1];
      OnOrder(inFlight[..|inFlight| - 1], id, product)
      + if s.destination == id && s.product == product then s.quantity else 0
  }

  /** {d: (u, lt)}: the last edge above a node wins. */
  function UpstreamIndex(edges: seq<Edge>): map<int, (int, int)> {
    if edges == [] then map[]
    else
      var e := edges[|edges| - 1];
      UpstreamIndex(edges[..|edges| - 1])[e.downstream := (e.upstream, e.leadTime)]
  }

  datatype Flow = Flow(stock: Stock, inFlight: seq<Shipment>, placed: nat)

  /** How much a node would be shipped now, given what it counted as on order. */
  function Shippable(stock: Stock, onOrder: int, node: SupplyNode, upstream: int, product: int): int {
    var position := Get(stock, node.id, product) + onOrder;
    if position < node.reorderPoint && node.orderUpTo - position > 0
    then Min(node.orderUpTo - position, Get(stock, upstream, product))
    else 0
  }

  function Ship(f: Flow, onOrder: int, node: SupplyNode, upstream: int, leadTime: int, product: int, tick: int): Flow {
    var shipped := Shippable(f.stock, onOrder, node, upstream, product);
    if shipped <= 0 then f
    else Flow(Add(f.stock, upstream, product, -shipped),
              f.inFlight + [Shipment(product, shipped, node.id, tick + leadTime)], f.placed + 1)
  }

  /** A node after looking at its first k products; outstanding is what was in flight before the tick's orders. */
  function ReplenishAt(
      topology: Topology, f: Flow, outstanding: seq<Shipment>, node: SupplyNode, upstream: int, leadTime: int,
      tick: int, k: nat)
    : Flow
    requires k <= |topology.products|
  {
    if k == 0 then f
    else
      var p := topology.products[k - 1];
      Ship(ReplenishAt(topology, f, outstanding, node, upstream, leadTime, tick, k - 1),
           OnOrder(outstanding, node.id, p), node, upstream, leadTime, p, tick)
  }

  /** The upstream neighbour of a node that orders: not a supplier, and supplied by a known node. */
  function SupplierOf(topology: Topology, node: SupplyNode): Option<(int, int)> {
    var index := UpstreamIndex(topology.edges);
    if node.role == Supplier || node.id !in index || Lookup(topology.nodes, index[node.id].0).None? then None
    else Some(index[node.id])
  }

  function Replenish(topology: Topology, f: Flow, outstanding: seq<Shipment>, tick: int, i: nat): Flow
    requires i <= |topology.nodes|
  {
    if i == 0 then f
    else
      var before, node := Replenish(topology, f, outstanding, tick, i - 1), topology.nodes[i - 1];
      var supplier := SupplierOf(topology, node);
      if supplier.None? then before
      else ReplenishAt(topology, before, outstanding, node, supplier.value.0, supplier.value.1, tick,
        |topology.products|)
  }

  /** The dictionary of outstanding quantities agrees with the shipments it was added up from. */
  ghost predicate Tallies(outstanding: map<(int, int), int>, inFlight: seq<Shipment>) {
    forall id, p :: Get(outstanding, id, p) == OnOrder(inFlight, id, p)
  }

  lemma TallyAt(outstanding: map<(int, int), int>, inFlight: seq<Shipment>, id: int, product: int)
    requires Tallies(outstanding, inFlight)
    ensures Get(outstanding, id, product) == OnOrder(inFlight, id, product)
  {}

  // ---------- one tick ----------

  function AfterProduction(topology: Topology, s: NetState): Stock {
    Produce(topology, s.stock, |topology.nodes|)
  }

  function AfterArrivals(topology: Topology, s: NetState): Stock {
    Deliver(topology, AfterProduction(topology, s), Due(s.inFlight, s.tick))
  }

  function AfterDemand(topology: Topology, s: NetState, demand: seq<Demand>): Stock {
    Serve(topology, AfterArrivals(topology, s), demand)
  }

  function AfterOrders(topology: Topology, s: NetState, demand: seq<Demand>): Flow {
    var remaining := Later(s.inFlight, s.tick);
    Replenish(topology, Flow(AfterDemand(topology, s, demand), remaining, 0), remaining, s.tick, |topology.nodes|)
  }

  function StepSpec(topology: Topology, s: NetState, demand: seq<Demand>): (NetState, Summary) {
    var f := AfterOrders(topology, s, demand);
    (NetState(f.stock, f.inFlight, s.tick + 1),
     Summary(s.tick, RequestedTotal(topology, demand), ServedTotal(topology, AfterArrivals(topology, s), demand),
       f.placed, |f.inFlight|))
  }

  // ---------- histories ----------

  const WINDOW := 200

  /** The demand of each product and the orders of each node and product, tick by tick. */
  datatype Histories = Histories(demand: map<int, seq<int>>, orders: map<(int, int), seq<int>>)

  function SeriesOf<K>(history: map<K, seq<int>>, key: K): seq<int> {
    if key in history then history[key] else []
  }

  /** A series that outgrows four windows keeps its last two. */
  function Extended(series: seq<int>, x: int): seq<int> {
    var longer := series + [x];
    if |longer| > WINDOW * 4 then longer[|longer| - WINDOW * 2..] else longer
  }

  function AddTotal(totals: map<int, int>, product: int, requested: int): map<int, int> {
    totals[product := (if product in totals then totals[product] else 0) + requested]
  }

  /** What is requested of each product in one tick: nothing, for a product of the network nobody wants. */
  function DemandTotals(topology: Topology, demand: seq<Demand>): map<int, int> {
    if demand == [] then map p | p in topology.products :: 0
    else
      var before, d := DemandTotals(topology, demand[..|demand| - 1]), demand[|demand| - 1];
      if Counts(topology, d) then AddTotal(before, d.product, d.requested) else before
  }

  function RecordDemand(history: map<int, seq<int>>, totals: map<int, int>): map<int, seq<int>> {
    map p | p in history.Keys + totals.Keys ::
      if p in totals then Extended(SeriesOf(history, p), totals[p]) else history[p]
  }

  function RecordOrder(history: map<(int, int), seq<int>>, id: int, product: int, shipped: int)
    : map<(int, int), seq<int>>
  {
    history[(id, product) := Extended(SeriesOf(history, (id, product)), Max(0, shipped))]
  }

  /** The history after a node has looked at its first k products. */
  function OrdersAt(
      topology: Topology, f: Flow, outstanding: seq<Shipment>, node: SupplyNode, upstream: int, leadTime: int,
      tick: int,
      k: nat, history: map<(int, int), seq<int>>)
    : map<(int, int), seq<int>>
    requires k <= |topology.products|
  {
    if k == 0 then history
    else
      var g, p := ReplenishAt(topology, f, outstanding, node, upstream, leadTime, tick, k - 1),
        topology.products[k - 1];
      RecordOrder(OrdersAt(topology, f, outstanding, node, upstream, leadTime, tick, k - 1, history), node.id, p,
                  Shippable(g.stock, OnOrder(outstanding, node.id, p), node, upstream, p))
  }

  function Orders(
      topology: Topology, f: Flow, outstanding: seq<Shipment>, tick: int, i: nat, history: map<(int, int), seq<int>>)
    : map<(int, int), seq<int>>
    requires i <= |topology.nodes|
  {
    if i == 0 then history
    else
      var before, node := Orders(topology, f, outstanding, tick, i - 1, history), topology.nodes[i - 1];
      var g, supplier := Replenish(topology, f, outstanding, tick, i - 1), SupplierOf(topology, node);
      if supplier.None? then before
      else OrdersAt(topology, g, outstanding, node, supplier.value.0, supplier.value.1, tick, |topology.products|,
        before)
  }

  function HistoriesSpec(topology: Topology, s: NetState, demand: seq<Demand>, h: Histories): Histories {
    var remaining := Later(s.inFlight, s.tick);
    Histories(RecordDemand(h.demand, DemandTotals(topology, demand)),
              Orders(topology, Flow(AfterDemand(topology, s, demand), remaining, 0), remaining, s.tick,
                     |topology.nodes|, h.orders))
  }

  // ---------- building a network ----------

  const DEFAULT_PRODUCTION_RATE := 10
  const DEFAULT_REORDER_POINT := 20
  const DEFAULT_ORDER_UP_TO := 80

  /** Python's round(): halves go to the even neighbour. */
  function Round(x: real): int {
    var low := x.Floor;
    var rest := x - low as real;
    if rest < 0.5 then low else if rest > 0.5 then low + 1 else if low % 2 == 0 then low else low + 1
  }

  function Insert(x: int, s: seq<int>): (r: seq<int>)
    ensures |r| == |s| + 1 && multiset(r) == multiset(s) + multiset{x}
  {
    if s == [] then [x]
    else if x <= s[0] then [x] + s
    else
      assert s == [s[0]] + s[1..];
      [s[0]] + Insert(x, s[1..])
  }

  function Sorted(s: seq<int>): (r: seq<int>)
    ensures |r| == |s| && multiset(r) == multiset(s)
  {
    if s == [] then []
    else
      assert s == [s[0]] + s[1..];
      Insert(s[0], Sorted(s[1..]))
  }

  /** nodes[id] = node: a new id goes last, a known one keeps its place. */
  function PutNode(nodes: seq<SupplyNode>, n: SupplyNode): seq<SupplyNode> {
    if nodes == [] then [n]
    else if nodes[0].id == n.id then [n] + nodes[1..]
    else [nodes[0]] + PutNode(nodes[1..], n)
  }

  function PutNodes(nodes: seq<SupplyNode>): seq<SupplyNode> {
    if nodes == [] then [] else PutNode(PutNodes(nodes[..|nodes| - 1]), nodes[|nodes| - 1])
  }

  function NewNode(id: int, role: Role): SupplyNode {
    SupplyNode(id, role, DEFAULT_PRODUCTION_RATE, DEFAULT_REORDER_POINT, DEFAULT_ORDER_UP_TO)
  }

  /** The first part of the sorted ids supplies, the next distributes, the rest are cities. */
  function Assigned(ids: seq<int>, suppliers: nat, distributors: nat): (r: seq<SupplyNode>)
    ensures |r| == |ids|
  {
    seq(|ids|, i requires 0 <= i < |ids| =>
      NewNode(ids[i], if i < suppliers then Supplier else if i < suppliers + distributors then Distributor else City))
  }

  function Turn(i: nat, n: nat): (r: nat)
    requires n > 0
    ensures r < n
  {
    i % n
  }

  /** Round-robin edges from the upstream ids to the downstream ids. */
  function FanIn(upstream: seq<int>, downstream: seq<int>, leadTime: int): (r: seq<Edge>)
    requires upstream != []
    ensures |r| == |downstream|
  {
    seq(|downstream|, i requires 0 <= i < |downstream| => Edge(upstream[Turn(i, |upstream|)], downstream[i], leadTime))
  }

  /** max(1, round(n * fraction)) */
  function Share(n: nat, fraction: real): (r: nat)
    ensures r >= 1
  {
    var share := Round(n as real * fraction);
    if share > 1 then share else 1
  }

  /** Cities hang from distributors and distributors from suppliers. */
  function Wiring(ids: seq<int>, suppliers: nat, distributors: nat, leadTime: int): seq<Edge>
    requires 1 <= suppliers && 1 <= distributors && suppliers + distributors < |ids|
  {
    var middle := ids[suppliers..suppliers + distributors];
    FanIn(middle, ids[suppliers + distributors..], leadTime) + FanIn(ids[..suppliers], middle, leadTime)
  }

  /** None is the error of an empty list, of bad fractions, or of no room for a city. */
  function Build(
      nodeIds: seq<int>, supplierFraction: real, distributorFraction: real, products: seq<int>, leadTime: int)
    : Option<Topology>
  {
    if nodeIds == [] || !(0.0 < supplierFraction < 1.0) || !(0.0 < distributorFraction < 1.0)
       || supplierFraction + distributorFraction >= 1.0 then None
    else
      var suppliers, distributors := Share(|nodeIds|, supplierFraction), Share(|nodeIds|, distributorFraction);
      if |nodeIds| - suppliers - distributors <= 0 then None
      else
        var ids := Sorted(nodeIds);
        Some(Topology(PutNodes(Assigned(ids, suppliers, distributors)), Wiring(ids, suppliers, distributors, leadTime),
          products))
  }

  /** dict.fromkeys(products, amount), for one node. */
  function StockedAt(stock: Stock, id: int, products: seq<int>, amount: int): Stock {
    if products == [] then stock
    else StockedAt(stock, id, products[..|products| - 1], amount)[(id, products[|products| - 1]) := amount]
  }

  /** Every node starts with the same stock of every product. */
  function InitialStock(nodes: seq<SupplyNode>, products: seq<int>, amount: int): Stock {
    if nodes == [] then map[]
    else StockedAt(InitialStock(nodes[..|nodes| - 1], products, amount), nodes[|nodes| - 1].id, products, amount)
  }

  class EchelonNetwork {
    const topology: Topology
    var stock: Stock
    var inFlight: seq<Shipment>
    var tick: int
    var histories: Histories

    function State(): NetState
      reads this
    {
      NetState(stock, inFlight, tick)
    }

    constructor (topology: Topology, stock: Stock)
      ensures this.topology == topology && State() == NetState(stock, [], 0)
      ensures histories == Histories(map p | p in topology.products :: [],
                                     map n, p | n in topology.nodes && p in topology.products :: (n.id, p) := [])
    {
      histories := Histories(map p | p in topology.products :: [],
                             map n, p | n in topology.nodes && p in topology.products :: (n.id, p) := []);
      this.topology := topology;
      this.stock := stock;
      inFlight := [];
      tick := 0;
    }

    method ProduceAll()
      modifies this`stock
      ensures stock == Produce(topology, old(stock), |topology.nodes|)
    {
      for i := 0 to |topology.nodes|
        invariant stock == Produce(topology, old(stock), i)
      {
        var node := topology.nodes[i];
        if node.role == Supplier {
          ghost var before := stock;
          for k := 0 to |topology.products|
            invariant stock == ProduceAt(before, node, topology.products, k)
          {
            stock := Add(stock, node.id, topology.products[k], node.productionRate);
          }
        }
      }
    }

    method SplitInFlight() returns (arrivals: seq<Shipment>, remaining: seq<Shipment>)
      ensures arrivals == Due(inFlight, tick) && remaining == Later(inFlight, tick)
    {
      arrivals, remaining := [], [];
      for k := 0 to |inFlight|
        invariant arrivals == Due(inFlight[..k], tick) && remaining == Later(inFlight[..k], tick)
      {
        assert inFlight[..k + 1][..k] == inFlight[..k];
        if inFlight[k].arrivesAt <= tick { arrivals := arrivals + [inFlight[k]]; }
        else { remaining := remaining + [inFlight[k]]; }
      }
      assert inFlight[..|inFlight|] == inFlight;
    }

    method ReceiveArrivals()
      modifies this`stock, this`inFlight
      ensures inFlight == Later(old(inFlight), tick)
      ensures stock == Deliver(topology, old(stock), Due(old(inFlight), tick))
    {
      var arrivals, remaining := SplitInFlight();
      inFlight := remaining;
      for k := 0 to |arrivals|
        invariant inFlight == remaining && stock == Deliver(topology, old(stock), arrivals[..k])
      {
        assert arrivals[..k + 1][..k] == arrivals[..k];
        if Lookup(topology.nodes, arrivals[k].destination).Some? {
          stock := Add(stock, arrivals[k].destination, arrivals[k].product, arrivals[k].quantity);
        }
      }
      assert arrivals[..|arrivals|] == arrivals;
    }

    method ServeDemand(demand: seq<Demand>) returns (requested: int, served: int)
      modifies this`stock, this`histories
      ensures stock == Serve(topology, old(stock), demand)
      ensures requested == RequestedTotal(topology, demand) && served == ServedTotal(topology, old(stock), demand)
      ensures histories
           == old(histories).(demand := RecordDemand(old(histories).demand, DemandTotals(topology, demand)))
    {
      hide RecordDemand, AddTotal, Counts;
      requested, served := 0, 0;
      var totals: map<int, int> := map p | p in topology.products :: 0;
      for k := 0 to |demand|
        invariant stock == Serve(topology, old(stock), demand[..k]) && histories == old(histories)
        invariant requested == RequestedTotal(topology, demand[..k])
        invariant served == ServedTotal(topology, old(stock), demand[..k])
        invariant totals == DemandTotals(topology, demand[..k])
      {
        assert demand[..k + 1][..k] == demand[..k];
        var d := demand[k];
        if Counts(topology, d) {
          var now := Min(Get(stock, d.city, d.product), d.requested);
          stock := Add(stock, d.city, d.product, -now);
          requested, served := requested + d.requested, served + now;
          totals := AddTotal(totals, d.product, d.requested);
        }
      }
      assert demand[..|demand|] == demand;
      histories := histories.(demand := RecordDemand(histories.demand, totals));
    }

    method TallyOutstanding() returns (outstanding: map<(int, int), int>)
      ensures Tallies(outstanding, inFlight)
    {
      outstanding := map[];
      for k := 0 to |inFlight|
        invariant Tallies(outstanding, inFlight[..k])
      {
        assert inFlight[..k + 1][..k] == inFlight[..k];
        outstanding := Add(outstanding, inFlight[k].destination, inFlight[k].product, inFlight[k].quantity);
      }
      assert inFlight[..|inFlight|] == inFlight;
    }

    method PlaceOrders() returns (placed: nat)
      modifies this`stock, this`inFlight, this`histories
      ensures Flow(stock, inFlight, placed)
           == Replenish(topology, Flow(old(stock), old(inFlight), 0), old(inFlight), tick, |topology.nodes|)
      ensures histories == old(histories).(orders :=
        Orders(topology, Flow(old(stock), old(inFlight), 0), old(inFlight), tick, |topology.nodes|,
          old(histories).orders))
    {
      hide SupplierOf, ReplenishAt, OrdersAt, Tallies;
      placed := 0;
      ghost var start, earlier := Flow(stock, inFlight, 0), histories;
      var outstanding := TallyOutstanding();
      for i := 0 to |topology.nodes|
        invariant Flow(stock, inFlight, placed) == Replenish(topology, start, start.inFlight, tick, i)
        invariant histories == earlier.(orders := Orders(topology, start, start.inFlight, tick, i, earlier.orders))
      {
        var node := topology.nodes[i];
        var supplier := SupplierOf(topology, node);
        if supplier.Some? {
          placed := PlaceNodeOrders(node, supplier.value.0, supplier.value.1, outstanding, start.inFlight, placed);
        }
      }
    }

    method PlaceNodeOrders(
        node: SupplyNode, upstream: int, leadTime: int, outstanding: map<(int, int), int>, ghost counted: seq<Shipment>,
        before: nat)
      returns (placed: nat)
      requires Tallies(outstanding, counted)
      modifies this`stock, this`inFlight, this`histories
      ensures var f := Flow(old(stock), old(inFlight), before);
        Flow(stock, inFlight, placed)
        == ReplenishAt(topology, f, counted, node, upstream, leadTime, tick, |topology.products|)
      ensures var f := Flow(old(stock), old(inFlight), before);
        histories == old(histories).(orders :=
          OrdersAt(topology, f, counted, node, upstream, leadTime, tick, |topology.products|, old(histories).orders))
    {
      hide Shippable, OnOrder, Tallies, Get, Add, RecordOrder;
      placed := before;
      ghost var f, earlier := Flow(stock, inFlight, before), histories;
      for k := 0 to |topology.products|
        invariant Flow(stock, inFlight, placed)
               == ReplenishAt(topology, f, counted, node, upstream, leadTime, tick, k)
        invariant histories == earlier.(orders :=
          OrdersAt(topology, f, counted, node, upstream, leadTime, tick, k, earlier.orders))
      {
        var product := topology.products[k];
        TallyAt(outstanding, counted, node.id, product);
        var shipped := Shippable(stock, Get(outstanding, node.id, product), node, upstream, product);
        histories := histories.(orders := RecordOrder(histories.orders, node.id, product, shipped));
        if shipped > 0 {
          stock := Add(stock, upstream, product, -shipped);
          inFlight := inFlight + [Shipment(product, shipped, node.id, tick + leadTime)];
          placed := placed + 1;
        }
      }
    }

    method Step(demand: seq<Demand>) returns (summary: Summary)
      modifies this
      ensures (State(), summary) == StepSpec(topology, old(State()), demand)
      ensures histories == HistoriesSpec(topology, old(State()), demand, old(histories))
    {
      hide Produce, Deliver, Serve, Replenish, Orders, RecordDemand, DemandTotals, Due, Later;
      ProduceAll();
      ReceiveArrivals();
      var requested, served := ServeDemand(demand);
      var placed := PlaceOrders();
      summary := Summary(tick, requested, served, placed, |inFlight|);
      tick := tick + 1;
    }
  }
}
