/** City markets over exact reals: production, prices, trades of arriving agents, block rewards and
    the purchases of end customers. */
module Market {
  import opened Bytes
  import opened Collections

  // ---------- dictionaries in insertion order ----------

  type Dict<V> = seq<(int, V)>

  function Find<V>(d: Dict<V>, key: int): (r: nat)
    ensures r <= |d| && (r < |d| ==> d[r].0 == key)
    ensures forall i :: 0 <= i < r ==> d[i].0 != key
  {
    if d == [] || d[0].0 == key then 0 else 1 + Find(d[1..], key)
  }

  function Get<V>(d: Dict<V>, key: int, default: V): V {
    var i := Find(d, key);
    if i < |d| then d[i].1 else default
  }

  function Put<V>(d: Dict<V>, key: int, value: V): Dict<V> {
    var i := Find(d, key);
    if i < |d| then d[i := (key, value)] else d + [(key, value)]
  }

  // ---------- state ----------

  /** The catalogue's base prices, by product id. */
  function BasePrices(): seq<real> {
    [1.2, 3.4, 4.1, 0.9, 5.6, 2.0, 1.8, 3.0, 1.1, 4.5, 2.6, 5.2, 1.5, 2.8, 6.0, 8.5, 1.0, 2.2, 22.0, 18.0, 9.5, 12.0,
     7.5, 30.0, 3.5, 7.0, 5.0, 2.4, 6.5, 1.9]
  }

  predicate Catalogued(product: int) {
    0 <= product < |BasePrices()|
  }

  function BasePrice(product: int): (r: real)
    requires Catalogued(product)
    ensures r > 0.0
  {
    BasePrices()[product]
  }

  datatype Wallet = Wallet(coins: real, goods: Dict<int>)

  datatype City = City(
    stocked: seq<int>, stock: Dict<int>, ask: Dict<real>, maxInventory: int, production: real, treasury: real)

  datatype Regime = Normal | Volatile | Crisis

  datatype Economy = Economy(
    wallets: Dict<Wallet>, cities: Dict<City>, previous: Dict<int>, cargo: Option<Dict<int>>, regime: Regime,
    blocked: set<int>, blockedAttempts: nat, blockReward: real)

  const DEFAULT_CARGO_CAPACITY := 20
  const SPREAD := 0.15
  const P_BUY := 0.10
  const P_SELL := 0.18

  /** One roll of the dice for one product: a uniform number and a geometric quantity. */
  datatype Draw = Draw(roll: real, geometric: nat)

  /** The draws of one arriving agent, by product. */
  datatype Luck = Luck(sell: int -> Draw, buy: int -> Draw)

  datatype Arrival = Arrival(agent: int, node: int, luck: Luck)

  datatype Category = Food | Hygiene | Tools | Luxury | Medicine

  datatype Side = Sale | Purchase

  /** A trade, as an agent sees it. */
  datatype TradeRecord = TradeRecord(
    tick: int, agent: int, node: int, product: int, category: Category, side: Side, quantity: int, price: real,
    value: real)

  /** When, by whom and where a trade is made. */
  datatype Spot = Spot(tick: int, agent: int, node: int)

  /** The catalogue lists six products of each category in turn. */
  function CategoryOf(product: int): Category {
    if product < 6 then Food else if product < 12 then Hygiene else if product < 18 then Tools
    else if product < 24 then Luxury else Medicine
  }

  function MinReal(a: real, b: real): real {
    if a < b then a else b
  }

  function MaxReal(a: real, b: real): real {
    if a < b then b else a
  }

  // ---------- production and prices ----------

  function ProduceProduct(c: City, product: int): City {
    var now := Get(c.stock, product, 0);
    if now < c.maxInventory
    then c.(stock := Put(c.stock, product, Min(c.maxInventory, Truncate(now as real + c.production))))
    else c
  }

  /** The first k stocked products after production. */
  function ProduceCity(c: City, k: nat): (r: City)
    requires k <= |c.stocked|
    ensures r.stocked == c.stocked
  {
    if k == 0 then c else ProduceProduct(ProduceCity(c, k - 1), c.stocked[k - 1])
  }

  function LowRatio(regime: Regime): real {
    match regime case Normal => 0.4 case Volatile => 0.7 case Crisis => 0.85
  }

  function HighRatio(regime: Regime): real {
    match regime case Normal => 6.0 case Volatile => 1.6 case Crisis => 1.3
  }

  predicate AllCatalogued(c: City) {
    forall k :: 0 <= k < |c.stocked| ==> Catalogued(c.stocked[k])
  }

  /** The price after one look at how full the shelf is, before it is clamped. */
  function Drifted(price: real, now: int, cap: int): real
    requires cap > 0
  {
    var fill := now as real / cap as real;
    if fill < 0.35 then price * 1.0025 else if fill > 0.70 then price * 0.9985 else price
  }

  function Clamped(base: real, regime: Regime, price: real): real {
    MaxReal(base * LowRatio(regime), MinReal(base * HighRatio(regime), price))
  }

  function RepriceProduct(c: City, product: int, regime: Regime): City
    requires Catalogued(product)
  {
    if c.maxInventory <= 0 then c
    else
      var base := BasePrice(product);
      var price := Drifted(Get(c.ask, product, base), Get(c.stock, product, 0), c.maxInventory);
      c.(ask := Put(c.ask, product, Clamped(base, regime, price)))
  }

  function RepriceCity(c: City, regime: Regime, k: nat): (r: City)
    requires AllCatalogued(c) && k <= |c.stocked|
    ensures r.stocked == c.stocked
  {
    if k == 0 then c else RepriceProduct(RepriceCity(c, regime, k - 1), c.stocked[k - 1], regime)
  }

  // ---------- trades ----------

  function Offered(c: City, product: int): real
    requires Catalogued(product)
  {
    Get(c.ask, product, BasePrice(product))
  }

  /** What a city pays for a product, below what it asks. */
  function Bid(c: City, product: int): real
    requires Catalogued(product)
  {
    Offered(c, product) * (1.0 - SPREAD)
  }

  function Cost(price: real, qty: int): real {
    price * qty as real
  }

  /** How many units a buyer with this much money can pay for. */
  function Payable(money: real, price: real): int {
    if price > 0.0 then Truncate(money / price) else 0
  }

  /** What the city can pay for at its bid, which it reckons at no less than a hundredth. */
  function CityPayable(c: City, bid: real): int {
    if bid > 0.0 then Payable(c.treasury, MaxReal(bid, 0.01)) else 0
  }

  function SellQuantity(c: City, owned: int, bid: real, draw: Draw): (r: int)
    ensures r >= 0
  {
    Max(0, Min(1 + draw.geometric, Min(owned, CityPayable(c, bid))))
  }

  /** The goods a full shelf cannot take are gone. */
  function Sold(w: Wallet, c: City, product: int, owned: int, bid: real, qty: int): (r: (Wallet, City))
    ensures r.1.stocked == c.stocked
  {
    (Wallet(w.coins + Cost(bid, qty), Put(w.goods, product, owned - qty)),
     c.(treasury := c.treasury - Cost(bid, qty),
        stock := Put(c.stock, product, Min(c.maxInventory, Get(c.stock, product, 0) + qty))))
  }

  function SellOne(w: Wallet, c: City, product: int, owned: int, draw: Draw): (Wallet, City)
    requires AllCatalogued(c)
  {
    if owned <= 0 || product !in c.stocked || draw.roll >= P_SELL then (w, c)
    else
      var bid := Bid(c, product);
      var qty := SellQuantity(c, owned, bid, draw);
      if qty == 0 then (w, c)
      else
        Sold(w, c, product, owned, bid, qty)
  }

  /** The first k goods of the wallet, as it was on arrival, offered one by one. */
  function SellAll(w: Wallet, c: City, luck: Luck, k: nat): (r: (Wallet, City))
    requires AllCatalogued(c) && k <= |w.goods|
    ensures r.1.stocked == c.stocked
  {
    if k == 0 then (w, c)
    else
      var before := SellAll(w, c, luck, k - 1);
      var (product, owned) := w.goods[k - 1];
      SellOne(before.0, before.1, product, owned, luck.sell(product))
  }

  function Record(at: Spot, product: int, side: Side, qty: int, price: real): TradeRecord {
    TradeRecord(at.tick, at.agent, at.node, product, CategoryOf(product), side, qty, price, Cost(price, qty))
  }

  /** The record of an offered product, if any of it is sold. */
  function SaleRecord(c: City, product: int, owned: int, draw: Draw, at: Spot): seq<TradeRecord>
    requires AllCatalogued(c)
  {
    if owned <= 0 || product !in c.stocked || draw.roll >= P_SELL then []
    else
      var bid := Bid(c, product);
      var qty := SellQuantity(c, owned, bid, draw);
      if qty == 0 then [] else [Record(at, product, Sale, qty, bid)]
  }

  function SaleRecords(w: Wallet, c: City, luck: Luck, k: nat, at: Spot): seq<TradeRecord>
    requires AllCatalogued(c) && k <= |w.goods|
  {
    if k == 0 then []
    else
      var (product, owned) := w.goods[k - 1];
      SaleRecords(w, c, luck, k - 1, at)
        + SaleRecord(SellAll(w, c, luck, k - 1).1, product, owned, luck.sell(product), at)
  }

  function Units(goods: Dict<int>): int {
    if goods == [] then 0 else Units(goods[..|goods| - 1]) + goods[|goods| - 1].1
  }

  /** How many more units an agent can carry, when cargo is limited at all. */
  function Room(cargo: Option<Dict<int>>, agent: int, goods: Dict<int>): Option<int> {
    if cargo.None? then None
    else Some(Max(0, Get(cargo.value, agent, DEFAULT_CARGO_CAPACITY) - Units(goods)))
  }

  function BuyQuantity(w: Wallet, c: City, product: int, room: Option<int>, draw: Draw): int
    requires Catalogued(product)
  {
    var ask := Offered(c, product);
    var qty := Max(0, Min(1 + draw.geometric, Min(Get(c.stock, product, 0), Payable(w.coins, ask))));
    if room.Some? then Min(qty, room.value) else qty
  }

  function Bought(w: Wallet, c: City, product: int, ask: real, qty: int): (r: (Wallet, City))
    ensures r.1.stocked == c.stocked
  {
    (Wallet(w.coins - Cost(ask, qty), Put(w.goods, product, Get(w.goods, product, 0) + qty)),
     c.(treasury := c.treasury + Cost(ask, qty), stock := Put(c.stock, product, Get(c.stock, product, 0) - qty)))
  }

  function BuyOne(w: Wallet, c: City, product: int, cargo: Option<Dict<int>>, agent: int, draw: Draw): (Wallet, City)
    requires Catalogued(product)
  {
    var ask, available := Offered(c, product), Get(c.stock, product, 0);
    if draw.roll >= P_BUY || available <= 0 || w.coins < ask then (w, c)
    else
      var qty := BuyQuantity(w, c, product, Room(cargo, agent, w.goods), draw);
      if qty == 0 then (w, c)
      else
        Bought(w, c, product, ask, qty)
  }

  function BuyAll(w: Wallet, c: City, cargo: Option<Dict<int>>, agent: int, luck: Luck, k: nat): (r: (Wallet, City))
    requires AllCatalogued(c) && k <= |c.stocked|
    ensures r.1.stocked == c.stocked
  {
    if k == 0 then (w, c)
    else
      var before := BuyAll(w, c, cargo, agent, luck, k - 1);
      BuyOne(before.0, before.1, c.stocked[k - 1], cargo, agent, luck.buy(c.stocked[k - 1]))
  }

  /** The record of a stocked product, if any of it is bought. */
  function PurchaseRecord(
      w: Wallet, c: City, product: int, cargo: Option<Dict<int>>, agent: int, draw: Draw, at: Spot)
    : seq<TradeRecord>
    requires Catalogued(product)
  {
    var ask, available := Offered(c, product), Get(c.stock, product, 0);
    if draw.roll >= P_BUY || available <= 0 || w.coins < ask then []
    else
      var qty := BuyQuantity(w, c, product, Room(cargo, agent, w.goods), draw);
      if qty == 0 then [] else [Record(at, product, Purchase, qty, ask)]
  }

  function PurchaseRecords(
      w: Wallet, c: City, cargo: Option<Dict<int>>, agent: int, luck: Luck, k: nat, at: Spot)
    : seq<TradeRecord>
    requires AllCatalogued(c) && k <= |c.stocked|
  {
    if k == 0 then []
    else
      var before, product := BuyAll(w, c, cargo, agent, luck, k - 1), c.stocked[k - 1];
      PurchaseRecords(w, c, cargo, agent, luck, k - 1, at)
      + PurchaseRecord(before.0, before.1, product, cargo, agent, luck.buy(product), at)
  }

  function Trade(w: Wallet, c: City, cargo: Option<Dict<int>>, agent: int, luck: Luck): (Wallet, City)
    requires AllCatalogued(c)
  {
    var sold := SellAll(w, c, luck, |w.goods|);
    BuyAll(sold.0, sold.1, cargo, agent, luck, |c.stocked|)
  }

  /** What the trades of one agent at one city are recorded as. */
  function TradeRecords(w: Wallet, c: City, cargo: Option<Dict<int>>, luck: Luck, at: Spot): seq<TradeRecord>
    requires AllCatalogued(c)
  {
    var sold := SellAll(w, c, luck, |w.goods|);
    SaleRecords(w, c, luck, |w.goods|, at) + PurchaseRecords(sold.0, sold.1, cargo, at.agent, luck, |c.stocked|, at)
  }

  predicate Stockable(e: Economy) {
    forall i :: 0 <= i < |e.cities| ==> AllCatalogued(e.cities[i].1)
  }

  /** One agent reaching a node: it trades only when it has just arrived, is not blocked, and both it
      and the city are known. */
  function Settle(e: Economy, a: Arrival): Economy
    requires Stockable(e)
  {
    var last := Find(e.previous, a.agent);
    var moved := e.(previous := Put(e.previous, a.agent, a.node));
    if last == |e.previous| || e.previous[last].1 == a.node then moved
    else if a.agent in e.blocked then moved.(blockedAttempts := e.blockedAttempts + 1)
    else
      var ci, wi := Find(e.cities, a.node), Find(e.wallets, a.agent);
      if ci == |e.cities| || wi == |e.wallets| then moved
      else
        var (w, c) := Trade(e.wallets[wi].1, e.cities[ci].1, e.cargo, a.agent, a.luck);
        moved.(wallets := e.wallets[wi := (a.agent, w)], cities := e.cities[ci := (a.node, c)])
  }

  function SettleRecords(e: Economy, a: Arrival, tick: int): seq<TradeRecord>
    requires Stockable(e)
  {
    var last := Find(e.previous, a.agent);
    if last == |e.previous| || e.previous[last].1 == a.node || a.agent in e.blocked then []
    else
      var ci, wi := Find(e.cities, a.node), Find(e.wallets, a.agent);
      if ci == |e.cities| || wi == |e.wallets| then []
      else TradeRecords(e.wallets[wi].1, e.cities[ci].1, e.cargo, a.luck, Spot(tick, a.agent, a.node))
  }

  lemma TradeStocked(w: Wallet, c: City, cargo: Option<Dict<int>>, agent: int, luck: Luck)
    requires AllCatalogued(c)
    ensures Trade(w, c, cargo, agent, luck).1.stocked == c.stocked
  {}

  function SettleAll(e: Economy, arrivals: seq<Arrival>): (r: Economy)
    requires Stockable(e)
    ensures Stockable(r)
  {
    if arrivals == [] then e
    else
      var before, a := SettleAll(e, arrivals[..|arrivals| - 1]), arrivals[|arrivals| - 1];
      SettleStockable(before, a);
      Settle(before, a)
  }

  /** The trades of the arrivals, in order. */
  function AllRecords(e: Economy, arrivals: seq<Arrival>, tick: int): seq<TradeRecord>
    requires Stockable(e)
  {
    if arrivals == [] then []
    else
      var front := arrivals[..|arrivals| - 1];
      AllRecords(e, front, tick) + SettleRecords(SettleAll(e, front), arrivals[|arrivals| - 1], tick)
  }

  lemma SettleStockable(e: Economy, a: Arrival)
    requires Stockable(e)
    ensures Stockable(Settle(e, a))
  {
    var ci, wi := Find(e.cities, a.node), Find(e.wallets, a.agent);
    if ci < |e.cities| && wi < |e.wallets| {
      TradeStocked(e.wallets[wi].1, e.cities[ci].1, e.cargo, a.agent, a.luck);
    }
  }

  // ---------- one tick ----------

  function RefreshCity(c: City, regime: Regime): (r: City)
    requires AllCatalogued(c)
    ensures r.stocked == c.stocked
  {
    var produced := ProduceCity(c, |c.stocked|);
    RepriceCity(produced, regime, |c.stocked|)
  }

  function RefreshAll(cities: Dict<City>, regime: Regime): (r: Dict<City>)
    requires forall i :: 0 <= i < |cities| ==> AllCatalogued(cities[i].1)
    ensures |r| == |cities| && forall i :: 0 <= i < |r| ==> AllCatalogued(r[i].1)
  {
    var r := seq(|cities|, i requires 0 <= i < |cities| => (cities[i].0, RefreshCity(cities[i].1, regime)));
    assert forall i :: 0 <= i < |r| ==> AllCatalogued(r[i].1) by {
      forall i | 0 <= i < |r| ensures AllCatalogued(r[i].1) {
        assert AllCatalogued(cities[i].1) && r[i].1.stocked == cities[i].1.stocked;
      }
    }
    r
  }

  /** Produce everywhere, reprice everywhere, then settle the arrivals. */
  function TickStep(e: Economy, arrivals: seq<Arrival>): (r: Economy)
    requires Stockable(e)
    ensures Stockable(r)
  {
    SettleAll(e.(cities := RefreshAll(e.cities, e.regime)), arrivals)
  }

  function TickRecords(e: Economy, arrivals: seq<Arrival>, tick: int): seq<TradeRecord>
    requires Stockable(e)
  {
    AllRecords(e.(cities := RefreshAll(e.cities, e.regime)), arrivals, tick)
  }

  // ---------- money from outside ----------

  function CreditOne(e: Economy, winner: int): (r: Economy) {
    var i := Find(e.wallets, winner);
    if i == |e.wallets| then e
    else e.(wallets := e.wallets[i := (winner, e.wallets[i].1.(coins := e.wallets[i].1.coins + e.blockReward))])
  }

  function CreditAll(e: Economy, winners: seq<int>): Economy {
    if winners == [] then e else CreditOne(CreditAll(e, winners[..|winners| - 1]), winners[|winners| - 1])
  }

  /** The end customers of a city asking for a product. */
  datatype Request = Request(city: int, product: int, quantity: int)

  /** What a request takes from the shelf. */
  function Consumed(e: Economy, q: Request): int {
    var i := Find(e.cities, q.city);
    if i == |e.cities| then 0 else Min(Max(0, q.quantity), Get(e.cities[i].1.stock, q.product, 0))
  }

  function ConsumeOne(e: Economy, q: Request): Economy {
    var i, served := Find(e.cities, q.city), Consumed(e, q);
    if i == |e.cities| || served <= 0 then e
    else
      var c := e.cities[i].1;
      e.(cities := e.cities[i := (q.city,
        c.(stock := Put(c.stock, q.product, Max(0, Get(c.stock, q.product, 0) - served)),
           treasury := c.treasury + served as real * Get(c.ask, q.product, 0.0)))])
  }

  function ConsumeAll(e: Economy, requests: seq<Request>): Economy {
    if requests == [] then e else ConsumeOne(ConsumeAll(e, requests[..|requests| - 1]), requests[|requests| - 1])
  }

  /** What the demand model counts: unmet units by city and product, units in all and by product. */
  datatype Counters = Counters(
    backlog: map<(int, int), int>, served: int, requested: int, servedOf: map<int, int>, requestedOf: map<int, int>)

  function At<K>(counts: map<K, int>, key: K): int {
    if key in counts then counts[key] else 0
  }

  function CountOne(e: Economy, k: Counters, q: Request): Counters {
    var requested := Max(0, q.quantity);
    if requested == 0 then k
    else
      var served, key := Consumed(e, q), (q.city, q.product);
      var unmet := requested - served;
      Counters(if unmet > 0 then k.backlog[key := At(k.backlog, key) + unmet] else k.backlog,
               k.served + served, k.requested + requested,
               k.servedOf[q.product := At(k.servedOf, q.product) + served],
               k.requestedOf[q.product := At(k.requestedOf, q.product) + requested])
  }

  function CountAll(e: Economy, k: Counters, requests: seq<Request>): Counters {
    if requests == [] then k
    else
      var front := requests[..|requests| - 1];
      CountOne(ConsumeAll(e, front), CountAll(e, k, front), requests[|requests| - 1])
  }

  // ---------- building a market ----------

  const INIT_COINS := 100.0
  const INIT_TREASURY := 500.0
  const INIT_INVENTORY := 30
  const MAX_INVENTORY := 60
  const PRODUCTION := 0.15
  const ITEMS_PER_CITY := 10
  const CATALOGUE := 30
  const BLOCK_REWARD := 10.0
  const WORD := 0x1_0000_0000

  /** The generator's state for a node: the exclusive or of the seed and a multiple of the node's id,
      cut to a word. */
  function Mix(seed: int, node: int): nat {
    XorBits(seed % WORD, (node * 2654435761) % WORD, 32)
  }

  function NextRandom(s: nat): nat {
    (s * 1664525 + 1013904223) % WORD
  }

  /** Where the next swap takes its product from, among the positions from i on. */
  function Pick(s: nat, i: nat): (j: nat)
    requires i < CATALOGUE
    ensures i <= j < CATALOGUE
  {
    i + s % (CATALOGUE - i)
  }

  /** The generator and the catalogue after i swaps. */
  function Shuffled(s: nat, i: nat): (r: (nat, seq<int>))
    requires i <= CATALOGUE
    ensures |r.1| == CATALOGUE
  {
    if i == 0 then (s, seq(CATALOGUE, k => k))
    else
      var (before, c) := Shuffled(s, i - 1);
      var next := NextRandom(before);
      var j := Pick(next, i - 1);
      (next, c[i - 1 := c[j]][j := c[i - 1]])
  }

  function Assortment(s: nat): (r: seq<int>)
    ensures |r| == ITEMS_PER_CITY
  {
    Shuffled(s, ITEMS_PER_CITY).1[..ITEMS_PER_CITY]
  }

  function FillStock(items: seq<int>): Dict<int> {
    if items == [] then [] else Put(FillStock(items[..|items| - 1]), items[|items| - 1], INIT_INVENTORY)
  }

  function FillPrices(items: seq<int>): Dict<real>
    requires forall k :: 0 <= k < |items| ==> Catalogued(items[k])
  {
    if items == [] then []
    else Put(FillPrices(items[..|items| - 1]), items[|items| - 1], BasePrice(items[|items| - 1]))
  }

  function NewCity(items: seq<int>): City
    requires forall k :: 0 <= k < |items| ==> Catalogued(items[k])
  {
    City(items, FillStock(items), FillPrices(items), MAX_INVENTORY, PRODUCTION, INIT_TREASURY)
  }

  /** The products of the catalogue, each once, in some order. */
  ghost predicate IsShuffle(c: seq<int>) {
    |c| == CATALOGUE && (forall k :: 0 <= k < |c| ==> Catalogued(c[k])) && Distinct(c)
  }

  lemma {:induction false} ShuffledMeaning(s: nat, i: nat)
    requires i <= CATALOGUE
    ensures IsShuffle(Shuffled(s, i).1)
  {
    hide NextRandom, Pick, BasePrices;
    CatalogueSize();
    if i > 0 {
      ShuffledMeaning(s, i - 1);
    }
  }

  lemma CatalogueSize()
    ensures |BasePrices()| == CATALOGUE
  {}

  /** The loop that draws a city's products. */
  method DrawAssortment(start: nat) returns (picked: seq<int>)
    ensures picked == Assortment(start)
  {
    hide NextRandom, Pick;
    var s, candidates := start, seq(CATALOGUE, k => k);
    picked := [];
    for i := 0 to ITEMS_PER_CITY
      invariant |candidates| == CATALOGUE && (s, candidates) == Shuffled(start, i) && picked == candidates[..i]
    {
      s := NextRandom(s);
      var j := Pick(s, i);
      candidates := candidates[i := candidates[j]][j := candidates[i]];
      picked := picked + [candidates[i]];
    }
  }

  lemma AssortmentCatalogued(s: nat)
    ensures forall k :: 0 <= k < |Assortment(s)| ==> Catalogued(Assortment(s)[k])
    ensures Distinct(Assortment(s))
  {
    hide Shuffled, BasePrices;
    ShuffledMeaning(s, ITEMS_PER_CITY);
  }

  /** One city for each node; a repeated node replaces its city by an equal one. */
  function NewCities(nodes: seq<int>, seed: int): Dict<City> {
    if nodes == [] then []
    else
      var node := nodes[|nodes| - 1];
      AssortmentCatalogued(Mix(seed, node));
      Put(NewCities(nodes[..|nodes| - 1], seed), node, NewCity(Assortment(Mix(seed, node))))
  }

  function NewWallets(agents: nat): Dict<Wallet> {
    seq(agents, k => (k, Wallet(INIT_COINS, [])))
  }

  function NewEconomy(nodes: seq<int>, agents: int, seed: int): Economy {
    Economy(NewWallets(Max(0, agents)), NewCities(nodes, seed), [], None, Normal, {}, 0, BLOCK_REWARD)
  }

  // ---------- the object ----------

  class MarketBook {
    var e: Economy

    constructor (e: Economy)
      ensures this.e == e
    {
      this.e := e;
    }

    constructor Build(nodes: seq<int>, agents: int, seed: int)
      ensures e == NewEconomy(nodes, agents, seed)
    {
      hide Assortment, Mix, NewCity;
      var cities: Dict<City> := [];
      for i := 0 to |nodes|
        invariant cities == NewCities(nodes[..i], seed)
      {
        assert nodes[..i + 1][..i] == nodes[..i];
        var items := DrawAssortment(Mix(seed, nodes[i]));
        AssortmentCatalogued(Mix(seed, nodes[i]));
        cities := Put(cities, nodes[i], NewCity(items));
      }
      assert nodes[..|nodes|] == nodes;
      e := Economy(NewWallets(Max(0, agents)), cities, [], None, Normal, {}, 0, BLOCK_REWARD);
    }

    static method ProduceLoop(c: City) returns (r: City)
      ensures r == ProduceCity(c, |c.stocked|)
    {
      r := c;
      for k := 0 to |c.stocked|
        invariant r == ProduceCity(c, k)
      {
        r := ProduceProduct(r, c.stocked[k]);
      }
    }

    static method RepriceLoop(c: City, regime: Regime) returns (r: City)
      requires AllCatalogued(c)
      ensures r == RepriceCity(c, regime, |c.stocked|)
    {
      r := c;
      for k := 0 to |c.stocked|
        invariant r == RepriceCity(c, regime, k)
      {
        r := RepriceProduct(r, c.stocked[k], regime);
      }
    }

    static method SellLoop(w: Wallet, c: City, luck: Luck, at: Spot)
      returns (seller: Wallet, buyer: City, trades: seq<TradeRecord>)
      requires AllCatalogued(c)
      ensures (seller, buyer) == SellAll(w, c, luck, |w.goods|) && trades == SaleRecords(w, c, luck, |w.goods|, at)
    {
      hide SaleRecord, SellOne;
      seller, buyer, trades := w, c, [];
      for k := 0 to |w.goods|
        invariant (seller, buyer) == SellAll(w, c, luck, k) && trades == SaleRecords(w, c, luck, k, at)
      {
        trades := trades + SaleRecord(buyer, w.goods[k].0, w.goods[k].1, luck.sell(w.goods[k].0), at);
        var step := SellOne(seller, buyer, w.goods[k].0, w.goods[k].1, luck.sell(w.goods[k].0));
        seller, buyer := step.0, step.1;
      }
    }

    static method BuyLoop(w: Wallet, c: City, cargo: Option<Dict<int>>, luck: Luck, at: Spot)
      returns (buyer: Wallet, seller: City, trades: seq<TradeRecord>)
      requires AllCatalogued(c)
      ensures (buyer, seller) == BuyAll(w, c, cargo, at.agent, luck, |c.stocked|)
      ensures trades == PurchaseRecords(w, c, cargo, at.agent, luck, |c.stocked|, at)
    {
      hide PurchaseRecord, BuyOne;
      var agent := at.agent;
      buyer, seller, trades := w, c, [];
      for k := 0 to |c.stocked|
        invariant (buyer, seller) == BuyAll(w, c, cargo, agent, luck, k)
        invariant trades == PurchaseRecords(w, c, cargo, agent, luck, k, at)
      {
        trades := trades + PurchaseRecord(buyer, seller, c.stocked[k], cargo, agent, luck.buy(c.stocked[k]), at);
        var step := BuyOne(buyer, seller, c.stocked[k], cargo, agent, luck.buy(c.stocked[k]));
        buyer, seller := step.0, step.1;
      }
    }

    method SettleArrival(a: Arrival, tick: int) returns (trades: seq<TradeRecord>)
      requires Stockable(e)
      modifies this
      ensures e == Settle(old(e), a) && trades == SettleRecords(old(e), a, tick)
    {
      trades := [];
      var last := Find(e.previous, a.agent);
      var stayed := last == |e.previous| || e.previous[last].1 == a.node;
      e := e.(previous := Put(e.previous, a.agent, a.node));
      if stayed { return; }
      if a.agent in e.blocked {
        e := e.(blockedAttempts := e.blockedAttempts + 1);
        return;
      }
      var ci, wi := Find(e.cities, a.node), Find(e.wallets, a.agent);
      if ci == |e.cities| || wi == |e.wallets| { return; }
      var at := Spot(tick, a.agent, a.node);
      var w, c, sales := SellLoop(e.wallets[wi].1, e.cities[ci].1, a.luck, at);
      var purchases;
      w, c, purchases := BuyLoop(w, c, e.cargo, a.luck, at);
      trades := sales + purchases;
      e := e.(wallets := e.wallets[wi := (a.agent, w)], cities := e.cities[ci := (a.node, c)]);
    }

    method Refresh()
      requires Stockable(e)
      modifies this
      ensures e == old(e).(cities := RefreshAll(old(e).cities, old(e).regime))
    {
      var cities := e.cities;
      for i := 0 to |cities|
        invariant |cities| == |e.cities| && e == old(e)
        invariant forall j :: 0 <= j < i ==> cities[j] == RefreshAll(e.cities, e.regime)[j]
        invariant forall j :: i <= j < |cities| ==> cities[j] == e.cities[j]
      {
        var c := ProduceLoop(cities[i].1);
        c := RepriceLoop(c, e.regime);
        cities := cities[i := (cities[i].0, c)];
      }
      assert cities == RefreshAll(e.cities, e.regime);
      e := e.(cities := cities);
    }

    method Tick(tick: int, arrivals: seq<Arrival>) returns (trades: seq<TradeRecord>)
      requires Stockable(e)
      modifies this
      ensures e == TickStep(old(e), arrivals) && trades == TickRecords(old(e), arrivals, tick)
    {
      Refresh();
      ghost var start := e;
      trades := [];
      for i := 0 to |arrivals|
        invariant Stockable(start) && Stockable(e) && e == SettleAll(start, arrivals[..i])
        invariant trades == AllRecords(start, arrivals[..i], tick)
      {
        assert arrivals[..i + 1][..i] == arrivals[..i];
        SettleStockable(e, arrivals[i]);
        var settled := SettleArrival(arrivals[i], tick);
        trades := trades + settled;
      }
      assert arrivals[..|arrivals|] == arrivals;
    }

    method CreditBlockWinners(winners: seq<int>)
      modifies this
      ensures e == CreditAll(old(e), winners)
    {
      for i := 0 to |winners|
        invariant e == CreditAll(old(e), winners[..i])
      {
        assert winners[..i + 1][..i] == winners[..i];
        e := CreditOne(e, winners[i]);
      }
      assert winners[..|winners|] == winners;
    }
  }

  /** The end customers, who buy from the cities' shelves once a tick. */
  class DemandModel {
    var counters: Counters

    constructor ()
      ensures counters == Counters(map[], 0, 0, map[], map[])
    {
      counters := Counters(map[], 0, 0, map[], map[]);
    }

    /** Serves one tick's requests and returns how many units were requested and served, and their ratio. */
    method Step(book: MarketBook, requests: seq<Request>) returns (served: int, requested: int, ratio: real)
      modifies this, book
      ensures book.e == ConsumeAll(old(book.e), requests)
      ensures counters == CountAll(old(book.e), old(counters), requests)
      ensures served == counters.served - old(counters).served
        && requested == counters.requested - old(counters).requested
      ensures ratio == served as real / Max(requested, 1) as real
    {
      var before := counters;
      for i := 0 to |requests|
        invariant book.e == ConsumeAll(old(book.e), requests[..i])
        invariant counters == CountAll(old(book.e), old(counters), requests[..i])
      {
        assert requests[..i + 1][..i] == requests[..i];
        counters := CountOne(book.e, counters, requests[i]);
        book.e := ConsumeOne(book.e, requests[i]);
      }
      assert requests[..|requests|] == requests;
      served, requested := counters.served - before.served, counters.requested - before.requested;
      ratio := served as real / Max(requested, 1) as real;
    }
  }
}
