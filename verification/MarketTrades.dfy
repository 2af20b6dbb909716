/** The trade records a tick returns account for every change of a wallet, a treasury and a shelf. */
module MarketTrades {
  import opened Collections
  import opened Market
  import opened MarketTheorems

  // ---------- what records come to ----------

  /** What the recorded trades bring an agent. */
  function Receipts(trades: seq<TradeRecord>, agent: int): real {
    if trades == [] then 0.0
    else
      var t := trades[|trades| - 1];
      Receipts(trades[..|trades| - 1], agent)
      + if t.agent != agent then 0.0 else if t.side == Sale then t.value else -t.value
  }

  /** What they bring a city. */
  function Takings(trades: seq<TradeRecord>, node: int): real {
    if trades == [] then 0.0
    else
      var t := trades[|trades| - 1];
      Takings(trades[..|trades| - 1], node)
      + if t.node != node then 0.0 else if t.side == Sale then -t.value else t.value
  }

  /** The units of a product an agent gains by them. */
  function Gained(trades: seq<TradeRecord>, agent: int, product: int): int {
    if trades == [] then 0
    else
      var t := trades[|trades| - 1];
      Gained(trades[..|trades| - 1], agent, product)
      + if t.agent != agent || t.product != product then 0 else if t.side == Sale then -t.quantity else t.quantity
  }

  /** What one trade leaves of a shelf: a sale fills it up to its capacity, a purchase takes its units off. */
  function ShelfThen(shelf: int, cap: int, t: TradeRecord): int {
    if t.side == Sale then Min(cap, shelf + t.quantity) else shelf - t.quantity
  }

  /** What the recorded trades leave of a shelf of a city. */
  function ShelfAfter(shelf: int, cap: int, trades: seq<TradeRecord>, node: int, product: int): int {
    if trades == [] then shelf
    else
      var t, before := trades[|trades| - 1], ShelfAfter(shelf, cap, trades[..|trades| - 1], node, product);
      if t.node != node || t.product != product then before else ShelfThen(before, cap, t)
  }

  lemma {:induction false} ShelfAppend(
      shelf: int, cap: int, a: seq<TradeRecord>, b: seq<TradeRecord>, node: int, product: int)
    ensures ShelfAfter(shelf, cap, a + b, node, product)
         == ShelfAfter(ShelfAfter(shelf, cap, a, node, product), cap, b, node, product)
  {
    hide ShelfThen;
    if b == [] {
      assert a + b == a;
    } else {
      ShelfAppend(shelf, cap, a, b[..|b| - 1], node, product);
      assert (a + b)[..|a + b| - 1] == a + b[..|b| - 1];
    }
  }

  lemma OneShelf(t: TradeRecord, shelf: int, cap: int, product: int)
    ensures ShelfAfter(shelf, cap, [t], t.node, product)
         == if t.product == product then ShelfThen(shelf, cap, t) else shelf
  {
    assert [t][..0] == [];
  }

  lemma RecordsAppend(a: seq<TradeRecord>, b: seq<TradeRecord>, agent: int, node: int, product: int)
    ensures Receipts(a + b, agent) == Receipts(a, agent) + Receipts(b, agent)
    ensures Takings(a + b, node) == Takings(a, node) + Takings(b, node)
    ensures Gained(a + b, agent, product) == Gained(a, agent, product) + Gained(b, agent, product)
  {
    ReceiptsAppend(a, b, agent);
    TakingsAppend(a, b, node);
    GainedAppend(a, b, agent, product);
  }

  lemma {:induction false} ReceiptsAppend(a: seq<TradeRecord>, b: seq<TradeRecord>, agent: int)
    ensures Receipts(a + b, agent) == Receipts(a, agent) + Receipts(b, agent)
  {
    if b == [] {
      assert a + b == a;
    } else {
      ReceiptsAppend(a, b[..|b| - 1], agent);
      assert (a + b)[..|a + b| - 1] == a + b[..|b| - 1];
    }
  }

  lemma {:induction false} TakingsAppend(a: seq<TradeRecord>, b: seq<TradeRecord>, node: int)
    ensures Takings(a + b, node) == Takings(a, node) + Takings(b, node)
  {
    if b == [] {
      assert a + b == a;
    } else {
      TakingsAppend(a, b[..|b| - 1], node);
      assert (a + b)[..|a + b| - 1] == a + b[..|b| - 1];
    }
  }

  lemma {:induction false} GainedAppend(a: seq<TradeRecord>, b: seq<TradeRecord>, agent: int, product: int)
    ensures Gained(a + b, agent, product) == Gained(a, agent, product) + Gained(b, agent, product)
  {
    if b == [] {
      assert a + b == a;
    } else {
      GainedAppend(a, b[..|b| - 1], agent, product);
      assert (a + b)[..|a + b| - 1] == a + b[..|b| - 1];
    }
  }

  lemma OneRecord(t: TradeRecord)
    ensures Receipts([t], t.agent) == (if t.side == Sale then t.value else -t.value)
    ensures Takings([t], t.node) == (if t.side == Sale then -t.value else t.value)
    ensures forall p ::
      Gained([t], t.agent, p) == if p != t.product then 0 else if t.side == Sale then -t.quantity else t.quantity
  {
    assert [t][..0] == [];
  }

  lemma NoRecord(agent: int, node: int)
    ensures Receipts([], agent) == 0.0 && Takings([], node) == 0.0 && forall p :: Gained([], agent, p) == 0
  {}

  // ---------- one agent at one city ----------

  /** The records account for the step from one wallet and city to another. */
  ghost predicate Reconciles(w: Wallet, c: City, w2: Wallet, c2: City, trades: seq<TradeRecord>, at: Spot) {
    && w2.coins == w.coins + Receipts(trades, at.agent)
    && c2.treasury == c.treasury + Takings(trades, at.node)
    && (forall p :: Get(w2.goods, p, 0) == Get(w.goods, p, 0) + Gained(trades, at.agent, p))
    && c2.maxInventory == c.maxInventory
    && forall p :: Get(c2.stock, p, 0) == ShelfAfter(Get(c.stock, p, 0), c.maxInventory, trades, at.node, p)
  }

  /** Every record is made on the spot. */
  ghost predicate MadeAt(trades: seq<TradeRecord>, at: Spot) {
    forall k :: 0 <= k < |trades| ==>
      trades[k].tick == at.tick && trades[k].agent == at.agent && trades[k].node == at.node
  }

  lemma ReconcilesNone(w: Wallet, c: City, at: Spot)
    ensures Reconciles(w, c, w, c, [], at)
  {
    NoRecord(at.agent, at.node);
  }

  lemma ReconcilesThen(
      w: Wallet, c: City, w1: Wallet, c1: City, w2: Wallet, c2: City, a: seq<TradeRecord>, b: seq<TradeRecord>,
      at: Spot)
    requires Reconciles(w, c, w1, c1, a, at) && Reconciles(w1, c1, w2, c2, b, at)
    ensures Reconciles(w, c, w2, c2, a + b, at)
  {
    hide Receipts, Takings, Gained, Get, ShelfAfter;
    ReceiptsAppend(a, b, at.agent);
    TakingsAppend(a, b, at.node);
    forall p ensures Gained(a + b, at.agent, p) == Gained(a, at.agent, p) + Gained(b, at.agent, p) {
      GainedAppend(a, b, at.agent, p);
    }
    forall p ensures Get(c2.stock, p, 0) == ShelfAfter(Get(c.stock, p, 0), c.maxInventory, a + b, at.node, p) {
      ShelfAppend(Get(c.stock, p, 0), c.maxInventory, a, b, at.node, p);
    }
  }

  lemma SaleReconciles(w: Wallet, c: City, product: int, draw: Draw, at: Spot)
    requires DistinctKeys(w.goods) && DistinctKeys(c.stock) && AllCatalogued(c)
    ensures var owned := Get(w.goods, product, 0);
      var (w2, c2) := SellOne(w, c, product, owned, draw);
      Reconciles(w, c, w2, c2, SaleRecord(c, product, owned, draw, at), at)
        && MadeAt(SaleRecord(c, product, owned, draw, at), at)
  {
    hide Put, Get, Bid, SellQuantity, Cost, Receipts, Takings, Gained, Reconciles;
    ReconcilesNone(w, c, at);
    var owned := Get(w.goods, product, 0);
    if SaleRecord(c, product, owned, draw, at) != [] {
      var bid := Bid(c, product);
      SoldReconciles(w, c, product, bid, SellQuantity(c, owned, bid, draw), at);
    }
  }

  /** A dictionary that differs in one entry. */
  lemma PutGets(d: Dict<int>, key: int, value: int)
    requires DistinctKeys(d)
    ensures forall p :: Get(Put(d, key, value), p, 0) == if p == key then value else Get(d, p, 0)
  {
    hide Put, Get;
    forall p ensures Get(Put(d, key, value), p, 0) == if p == key then value else Get(d, p, 0) {
      PutGet(d, key, value, p, 0);
    }
  }

  lemma SoldReconciles(w: Wallet, c: City, product: int, bid: real, qty: int, at: Spot)
    requires DistinctKeys(w.goods) && DistinctKeys(c.stock)
    ensures var (w2, c2) := Sold(w, c, product, Get(w.goods, product, 0), bid, qty);
      Reconciles(w, c, w2, c2, [Record(at, product, Sale, qty, bid)], at)
  {
    hide Put, Get, Cost, Receipts, Takings, Gained, ShelfAfter;
    OneRecord(Record(at, product, Sale, qty, bid));
    PutGets(w.goods, product, Get(w.goods, product, 0) - qty);
    PutGets(c.stock, product, Min(c.maxInventory, Get(c.stock, product, 0) + qty));
    forall p { OneShelf(Record(at, product, Sale, qty, bid), Get(c.stock, p, 0), c.maxInventory, p); }
  }

  lemma PurchaseReconciles(w: Wallet, c: City, product: int, cargo: Option<Dict<int>>, draw: Draw, at: Spot)
    requires DistinctKeys(w.goods) && DistinctKeys(c.stock) && Catalogued(product)
    ensures var (w2, c2) := BuyOne(w, c, product, cargo, at.agent, draw);
      Reconciles(w, c, w2, c2, PurchaseRecord(w, c, product, cargo, at.agent, draw, at), at)
      && MadeAt(PurchaseRecord(w, c, product, cargo, at.agent, draw, at), at)
  {
    hide Put, Get, Offered, BuyQuantity, Room, Cost, Receipts, Takings, Gained, Reconciles;
    ReconcilesNone(w, c, at);
    if PurchaseRecord(w, c, product, cargo, at.agent, draw, at) != [] {
      BoughtReconciles(w, c, product, Offered(c, product),
        BuyQuantity(w, c, product, Room(cargo, at.agent, w.goods), draw), at);
    }
  }

  lemma BoughtReconciles(w: Wallet, c: City, product: int, ask: real, qty: int, at: Spot)
    requires DistinctKeys(w.goods) && DistinctKeys(c.stock)
    ensures var (w2, c2) := Bought(w, c, product, ask, qty);
      Reconciles(w, c, w2, c2, [Record(at, product, Purchase, qty, ask)], at)
  {
    hide Put, Get, Cost, Receipts, Takings, Gained, ShelfAfter;
    OneRecord(Record(at, product, Purchase, qty, ask));
    PutGets(w.goods, product, Get(w.goods, product, 0) + qty);
    PutGets(c.stock, product, Get(c.stock, product, 0) - qty);
    forall p { OneShelf(Record(at, product, Purchase, qty, ask), Get(c.stock, p, 0), c.maxInventory, p); }
  }

  // ---------- which trades are made, and of how much ----------

  /** What a buyer or a city can pay for is what its money covers. */
  lemma PayableExactly(money: real, price: real, qty: int)
    requires money >= 0.0 && price > 0.0 && qty >= 0
    ensures qty <= Payable(money, price) <==> Cost(price, qty) <= money
  {
    var q := money / price;
    assert q * price == money;
    QuotientPositive(money, price);
    if qty as real <= q { ScaleUp(qty as real, q, price); }
    if Cost(price, qty) <= money && qty as real > q {
      assert qty as real * price > q * price;
    }
  }

  /** How much of a purchase all four limits allow. */
  predicate BuyAllowed(w: Wallet, c: City, product: int, ask: real, room: Option<int>, draw: Draw, qty: int) {
    && qty <= 1 + draw.geometric && qty <= Get(c.stock, product, 0) && Cost(ask, qty) <= w.coins
    && (room.Some? ==> qty <= room.value)
  }

  /** What an agent with limited cargo can still take: what it may carry less what it carries. */
  function RoomLeft(cargo: Option<Dict<int>>, agent: int, w: Wallet): Option<int> {
    if cargo.None? then None else Some(Max(0, Limit(cargo, agent) - Units(w.goods)))
  }

  lemma {:induction false} UnitsNonNegative(goods: Dict<int>)
    requires forall i :: 0 <= i < |goods| ==> goods[i].1 >= 0
    ensures Units(goods) >= 0
  {
    if goods != [] {
      UnitsNonNegative(goods[..|goods| - 1]);
    }
  }

  lemma RoomExactly(cargo: Option<Dict<int>>, agent: int, w: Wallet)
    requires WalletOk(w)
    ensures Room(cargo, agent, w.goods) == RoomLeft(cargo, agent, w)
  {
    hide Get, Units;
    UnitsNonNegative(w.goods);
  }

  /** A stocked product is bought exactly when the roll is below a tenth, some of it is on the shelf, the purse
      covers a unit at the asking price, and there is room. The quantity is then the greatest that the draw,
      the shelf, the purse and the room allow, and the trade takes it off the shelf. */
  lemma PurchaseExactly(w: Wallet, c: City, product: int, cargo: Option<Dict<int>>, draw: Draw, at: Spot)
    requires WalletOk(w) && CityOk(c) && Catalogued(product)
    ensures var ask, room := Get(c.ask, product, BasePrice(product)), RoomLeft(cargo, at.agent, w);
      var trades := PurchaseRecord(w, c, product, cargo, at.agent, draw, at);
      && (trades != [] <==> draw.roll < 0.10 && Get(c.stock, product, 0) > 0 && w.coins >= ask && room != Some(0))
      && (trades != [] ==>
            && |trades| == 1 && trades[0].side == Purchase && trades[0].product == product
            && trades[0].price == ask && trades[0].value == ask * trades[0].quantity as real
            && trades[0].quantity >= 1
            && forall qty: nat :: BuyAllowed(w, c, product, ask, room, draw, qty) <==> qty <= trades[0].quantity)
  {
    hide CityOk, WalletOk, Get, Cost, Room, Payable, BasePrices, BuyQuantity, BuyAllowed;
    var ask, room := Get(c.ask, product, BasePrice(product)), Room(cargo, at.agent, w.goods);
    RoomWithin(cargo, at.agent, w.goods);
    RoomExactly(cargo, at.agent, w);
    BuyQuantityExactly(w, c, product, room, draw);
    CostMeans(ask, BuyQuantity(w, c, product, room, draw));
  }

  lemma BuyQuantityExactly(w: Wallet, c: City, product: int, room: Option<int>, draw: Draw)
    requires WalletOk(w) && CityOk(c) && Catalogued(product)
    requires room.Some? ==> room.value >= 0
    ensures var ask, most := Offered(c, product), BuyQuantity(w, c, product, room, draw);
      && most >= 0 && Offered(c, product) > 0.0
      && (most > 0 <==> Get(c.stock, product, 0) > 0 && w.coins >= ask && room != Some(0))
      && (most > 0 ==> forall qty: nat :: BuyAllowed(w, c, product, ask, room, draw, qty) <==> qty <= most)
  {
    hide CityOk, WalletOk, Get, Cost, Payable, BasePrices;
    var ask := Offered(c, product);
    OfferedPositive(c, product);
    WalletCoins(w);
    PayableExactly(w.coins, ask, 1);
    CostOfOne(ask);
    forall qty: nat ensures qty <= Payable(w.coins, ask) <==> Cost(ask, qty) <= w.coins {
      PayableExactly(w.coins, ask, qty);
    }
  }

  lemma CostMeans(price: real, qty: int)
    ensures Cost(price, qty) == price * qty as real
  {}

  lemma WalletCoins(w: Wallet)
    requires WalletOk(w)
    ensures w.coins >= 0.0
  {}

  lemma CostOfOne(price: real)
    ensures Cost(price, 1) == price && Cost(price, 0) == 0.0
  {}

  /** How much of a sale all three limits allow. */
  predicate SellAllowed(c: City, owned: int, bid: real, draw: Draw, qty: int) {
    qty <= 1 + draw.geometric && qty <= owned && Cost(MaxReal(bid, 0.01), qty) <= c.treasury
  }

  /** Goods an agent owns are sold exactly when the city stocks the product, the roll is below 0.18 and the
      treasury covers a unit at the bid, which is 85 hundredths of the asking price, but reckoned at no less
      than one. The quantity is then the greatest that the draw, the goods and the treasury allow. */
  lemma SaleExactly(c: City, product: int, owned: int, draw: Draw, at: Spot)
    requires CityOk(c) && AllCatalogued(c)
    ensures product in c.stocked ==> Catalogued(product)
    ensures var trades := SaleRecord(c, product, owned, draw, at);
      if owned > 0 && product in c.stocked && draw.roll < 0.18 then
        var bid := Get(c.ask, product, BasePrice(product)) * 0.85;
        && (trades != [] <==> MaxReal(bid, 0.01) <= c.treasury)
        && (trades != [] ==>
              && |trades| == 1 && trades[0].side == Sale && trades[0].product == product
              && trades[0].price == bid && trades[0].value == bid * trades[0].quantity as real
              && trades[0].quantity >= 1
              && forall qty: nat :: SellAllowed(c, owned, bid, draw, qty) <==> qty <= trades[0].quantity)
      else trades == []
  {
    hide CityOk, Get, Cost, BasePrices, SellQuantity, SellAllowed;
    if owned > 0 && product in c.stocked && draw.roll < 0.18 {
      var bid := Bid(c, product);
      OfferedPositive(c, product);
      SellQuantityExactly(c, owned, bid, draw);
      CostMeans(bid, SellQuantity(c, owned, bid, draw));
    }
  }

  lemma SellQuantityExactly(c: City, owned: int, bid: real, draw: Draw)
    requires CityOk(c) && owned > 0 && bid > 0.0
    ensures var most := SellQuantity(c, owned, bid, draw);
      && (most > 0 <==> MaxReal(bid, 0.01) <= c.treasury)
      && (most > 0 ==> forall qty: nat :: SellAllowed(c, owned, bid, draw, qty) <==> qty <= most)
  {
    hide CityOk, Cost, Payable, MaxReal;
    TreasuryPrice(c, bid);
    var price := MaxReal(bid, 0.01);
    PayableExactly(c.treasury, price, 1);
    CostOfOne(price);
    forall qty: nat ensures qty <= Payable(c.treasury, price) <==> Cost(price, qty) <= c.treasury {
      PayableExactly(c.treasury, price, qty);
    }
  }

  lemma TreasuryPrice(c: City, bid: real)
    requires CityOk(c)
    ensures c.treasury >= 0.0 && MaxReal(bid, 0.01) > 0.0
  {}

  /** A purchase takes its units off the shelf of its product, and leaves every other shelf. */
  lemma PurchaseTakesOff(w: Wallet, c: City, product: int, cargo: Option<Dict<int>>, draw: Draw, at: Spot, p: int)
    requires WalletOk(w) && CityOk(c) && Catalogued(product)
    ensures var trades := PurchaseRecord(w, c, product, cargo, at.agent, draw, at);
      Get(BuyOne(w, c, product, cargo, at.agent, draw).1.stock, p, 0)
      == Get(c.stock, p, 0) - if trades != [] && p == product then trades[0].quantity else 0
  {
    hide CityOk, Get, Put, BuyQuantity, Room, Offered, Cost;
    CityCatalogued(c);
    var qty := BuyQuantity(w, c, product, Room(cargo, at.agent, w.goods), draw);
    PutGets(c.stock, product, Get(c.stock, product, 0) - qty);
  }

  /** A sale puts its units on the shelf, as far as they fit, and leaves every other shelf. */
  lemma SalePutsOn(w: Wallet, c: City, product: int, owned: int, draw: Draw, at: Spot, p: int)
    requires CityOk(c) && AllCatalogued(c)
    ensures var trades := SaleRecord(c, product, owned, draw, at);
      Get(SellOne(w, c, product, owned, draw).1.stock, p, 0)
      == if trades != [] && p == product then Min(c.maxInventory, Get(c.stock, p, 0) + trades[0].quantity)
         else Get(c.stock, p, 0)
  {
    hide CityOk, Get, Put, SellQuantity, Bid, Cost;
    CityCatalogued(c);
    if owned > 0 && product in c.stocked && draw.roll < P_SELL {
      PutGets(c.stock, product,
              Min(c.maxInventory, Get(c.stock, product, 0) + SellQuantity(c, owned, Bid(c, product), draw)));
    }
  }

  lemma WalletKeys(w: Wallet)
    requires WalletOk(w)
    ensures DistinctKeys(w.goods)
  {}

  lemma CityCatalogued(c: City)
    requires CityOk(c)
    ensures AllCatalogued(c) && DistinctKeys(c.stock)
  {}

  lemma {:induction false} SalesReconcile(w: Wallet, c: City, luck: Luck, k: nat, at: Spot)
    requires WalletOk(w) && CityOk(c) && k <= |w.goods|
    ensures var r := SellAll(w, c, luck, k);
      Reconciles(w, c, r.0, r.1, SaleRecords(w, c, luck, k, at), at) && MadeAt(SaleRecords(w, c, luck, k, at), at)
  {
    hide Reconciles, WalletOk, CityOk, SellOne, SaleRecord, Get;
    CityCatalogued(c);
    if k == 0 {
      ReconcilesNone(w, c, at);
    } else {
      SalesReconcile(w, c, luck, k - 1, at);
      SellAllConserves(w, c, luck, k - 1);
      var before, product := SellAll(w, c, luck, k - 1), w.goods[k - 1].0;
      WalletKeys(before.0);
      CityCatalogued(before.1);
      SaleReconciles(before.0, before.1, product, luck.sell(product), at);
      var after := SellAll(w, c, luck, k);
      ReconcilesThen(w, c, before.0, before.1, after.0, after.1, SaleRecords(w, c, luck, k - 1, at),
                     SaleRecord(before.1, product, w.goods[k - 1].1, luck.sell(product), at), at);
    }
  }

  lemma {:induction false} PurchasesReconcile(
      w: Wallet, c: City, cargo: Option<Dict<int>>, luck: Luck, k: nat, at: Spot)
    requires WalletOk(w) && CityOk(c) && k <= |c.stocked|
    ensures var r, trades :=
      BuyAll(w, c, cargo, at.agent, luck, k), PurchaseRecords(w, c, cargo, at.agent, luck, k, at);
      Reconciles(w, c, r.0, r.1, trades, at) && MadeAt(trades, at)
  {
    hide Reconciles, WalletOk, CityOk, BuyOne, PurchaseRecord;
    CityCatalogued(c);
    if k == 0 {
      ReconcilesNone(w, c, at);
    } else {
      PurchasesReconcile(w, c, cargo, luck, k - 1, at);
      BuyAllConserves(w, c, cargo, at.agent, luck, k - 1);
      var before, product := BuyAll(w, c, cargo, at.agent, luck, k - 1), c.stocked[k - 1];
      WalletKeys(before.0);
      CityCatalogued(before.1);
      PurchaseReconciles(before.0, before.1, product, cargo, luck.buy(product), at);
      var after := BuyAll(w, c, cargo, at.agent, luck, k);
      ReconcilesThen(w, c, before.0, before.1, after.0, after.1,
        PurchaseRecords(w, c, cargo, at.agent, luck, k - 1, at),
                     PurchaseRecord(before.0, before.1, product, cargo, at.agent, luck.buy(product), at), at);
    }
  }

  /** The records of one visit account for what it does to the wallet, the treasury and the shelves. */
  lemma VisitReconciles(w: Wallet, c: City, cargo: Option<Dict<int>>, luck: Luck, at: Spot)
    requires WalletOk(w) && CityOk(c) && AllCatalogued(c)
    ensures var r, trades := Trade(w, c, cargo, at.agent, luck), TradeRecords(w, c, cargo, luck, at);
      Reconciles(w, c, r.0, r.1, trades, at) && MadeAt(trades, at)
  {
    hide Reconciles, WalletOk, CityOk, SellAll, BuyAll, SaleRecords, PurchaseRecords;
    SalesReconcile(w, c, luck, |w.goods|, at);
    SellAllConserves(w, c, luck, |w.goods|);
    var sold := SellAll(w, c, luck, |w.goods|);
    PurchasesReconcile(sold.0, sold.1, cargo, luck, |c.stocked|, at);
    var r := Trade(w, c, cargo, at.agent, luck);
    ReconcilesThen(w, c, sold.0, sold.1, r.0, r.1, SaleRecords(w, c, luck, |w.goods|, at),
                   PurchaseRecords(sold.0, sold.1, cargo, at.agent, luck, |c.stocked|, at), at);
  }

  // ---------- a whole tick ----------

  function CoinsOf(e: Economy, agent: int): real {
    var i := Find(e.wallets, agent);
    if i < |e.wallets| then e.wallets[i].1.coins else 0.0
  }

  function GoodsOf(e: Economy, agent: int, product: int): int {
    var i := Find(e.wallets, agent);
    if i < |e.wallets| then Get(e.wallets[i].1.goods, product, 0) else 0
  }

  function TreasuryOf(e: Economy, node: int): real {
    var i := Find(e.cities, node);
    if i < |e.cities| then e.cities[i].1.treasury else 0.0
  }

  function ShelfOf(e: Economy, node: int, product: int): int {
    var i := Find(e.cities, node);
    if i < |e.cities| then Get(e.cities[i].1.stock, product, 0) else 0
  }

  function CapOf(e: Economy, node: int): int {
    var i := Find(e.cities, node);
    if i < |e.cities| then e.cities[i].1.maxInventory else 0
  }

  /** The whole units of a rate, so many times over. */
  function Made(times: nat, rate: real): int {
    times * rate.Floor
  }

  /** What a city makes of a product in a tick, once for each time it lists the product. */
  function MadeOf(e: Economy, node: int, product: int): int {
    var i := Find(e.cities, node);
    if i < |e.cities| then Made(multiset(e.cities[i].1.stocked)[product], e.cities[i].1.production) else 0
  }

  /** The records account for the step of an agent, a city and a product from one economy to another, the
      shelf of the city starting from `shelf`. */
  ghost predicate Balanced(
      e: Economy, r: Economy, trades: seq<TradeRecord>, agent: int, node: int, product: int, shelf: int)
  {
    && CoinsOf(r, agent) == CoinsOf(e, agent) + Receipts(trades, agent)
    && GoodsOf(r, agent, product) == GoodsOf(e, agent, product) + Gained(trades, agent, product)
    && TreasuryOf(r, node) == TreasuryOf(e, node) + Takings(trades, node)
    && CapOf(r, node) == CapOf(e, node)
    && ShelfOf(r, node, product) == ShelfAfter(shelf, CapOf(e, node), trades, node, product)
  }

  lemma {:induction false} FindReplaced<V>(d: Dict<V>, i: nat, value: V, key: int)
    requires i < |d| && i == Find(d, d[i].0)
    ensures Find(d[i := (d[i].0, value)], key) == Find(d, key)
    ensures key == d[i].0 <==> Find(d, key) == i
  {
    var r := d[i := (d[i].0, value)];
    assert forall k :: 0 <= k < |d| ==> r[k].0 == d[k].0;
    SameKeys(d, r, key);
  }

  lemma {:induction false} SameKeys<V>(a: Dict<V>, b: Dict<V>, key: int)
    requires |a| == |b| && forall k :: 0 <= k < |a| ==> a[k].0 == b[k].0
    ensures Find(a, key) == Find(b, key)
  {
    if a != [] && a[0].0 != key {
      SameKeys(a[1..], b[1..], key);
    }
  }

  /** Records made elsewhere do not concern an agent or a city. */
  lemma {:induction false} Elsewhere(trades: seq<TradeRecord>, at: Spot, agent: int, node: int, product: int)
    requires MadeAt(trades, at)
    ensures agent != at.agent ==> Receipts(trades, agent) == 0.0 && Gained(trades, agent, product) == 0
    ensures node != at.node ==> Takings(trades, node) == 0.0
    ensures node != at.node ==> forall shelf, cap :: ShelfAfter(shelf, cap, trades, node, product) == shelf
  {
    if trades != [] {
      Elsewhere(trades[..|trades| - 1], at, agent, node, product);
    }
  }

  lemma SettleBalanced(e: Economy, a: Arrival, tick: int, agent: int, node: int, product: int)
    requires EconomyOk(e)
    ensures Balanced(e, Settle(e, a), SettleRecords(e, a, tick), agent, node, product, ShelfOf(e, node, product))
  {
    hide EconomyOk, WalletOk, CityOk, Trade, TradeRecords, Get, Find, Put, Receipts, Takings, Gained, Stockable,
      Reconciles, MadeAt, ShelfAfter;
    NoRecord(agent, node);
    NoShelf(ShelfOf(e, node, product), CapOf(e, node), node, product);
    OkStockable(e);
    EconomyParts(e);
    var ci, wi := Find(e.cities, a.node), Find(e.wallets, a.agent);
    if ci < |e.cities| && wi < |e.wallets| {
      var at, w, c := Spot(tick, a.agent, a.node), e.wallets[wi].1, e.cities[ci].1;
      assert CityOk(c) && WalletOk(w);
      CityCatalogued(c);
      VisitReconciles(w, c, e.cargo, a.luck, at);
      var (w2, c2) := Trade(w, c, e.cargo, a.agent, a.luck);
      FindReplaced(e.wallets, wi, w2, agent);
      FindReplaced(e.cities, ci, c2, node);
      var trades := TradeRecords(w, c, e.cargo, a.luck, at);
      Elsewhere(trades, at, agent, node, product);
      ReconcilesFor(w, c, w2, c2, trades, at, product);
    }
  }

  lemma ReconcilesFor(w: Wallet, c: City, w2: Wallet, c2: City, trades: seq<TradeRecord>, at: Spot, product: int)
    requires Reconciles(w, c, w2, c2, trades, at)
    ensures w2.coins == w.coins + Receipts(trades, at.agent)
    ensures c2.treasury == c.treasury + Takings(trades, at.node)
    ensures Get(w2.goods, product, 0) == Get(w.goods, product, 0) + Gained(trades, at.agent, product)
    ensures c2.maxInventory == c.maxInventory
    ensures Get(c2.stock, product, 0)
         == ShelfAfter(Get(c.stock, product, 0), c.maxInventory, trades, at.node, product)
  {}

  lemma NoShelf(shelf: int, cap: int, node: int, product: int)
    ensures ShelfAfter(shelf, cap, [], node, product) == shelf
  {}

  lemma EconomyParts(e: Economy)
    requires EconomyOk(e)
    ensures forall i :: 0 <= i < |e.wallets| ==> WalletOk(e.wallets[i].1)
    ensures forall i :: 0 <= i < |e.cities| ==> CityOk(e.cities[i].1)
  {}

  lemma {:induction false} ArrivalsBalanced(
      e: Economy, arrivals: seq<Arrival>, tick: int, agent: int, node: int, product: int)
    requires EconomyOk(e)
    ensures Balanced(e, SettleAll(e, arrivals), AllRecords(e, arrivals, tick), agent, node, product,
                     ShelfOf(e, node, product))
  {
    hide EconomyOk, Settle, SettleRecords, CoinsOf, GoodsOf, TreasuryOf, Receipts, Takings, Gained, Stockable,
      MoneySupply, ShelfOf, CapOf, ShelfAfter;
    var shelf, cap := ShelfOf(e, node, product), CapOf(e, node);
    NoRecord(agent, node);
    NoShelf(shelf, cap, node, product);
    OkStockable(e);
    if arrivals != [] {
      var front, a := arrivals[..|arrivals| - 1], arrivals[|arrivals| - 1];
      ArrivalsBalanced(e, front, tick, agent, node, product);
      SettleAllSound(e, front);
      SettleBalanced(SettleAll(e, front), a, tick, agent, node, product);
      var before, last := AllRecords(e, front, tick), SettleRecords(SettleAll(e, front), a, tick);
      RecordsAppend(before, last, agent, node, product);
      ShelfAppend(shelf, cap, before, last, node, product);
    }
  }

  /** Every listing of a product adds the whole units of the rate, up to the capacity. */
  lemma {:induction false} ProducedShelf(c: City, k: nat, product: int)
    requires CityOk(c) && k <= |c.stocked|
    ensures Get(ProduceCity(c, k).stock, product, 0)
         == Min(c.maxInventory, Get(c.stock, product, 0) + Made(multiset(c.stocked[..k])[product], c.production))
  {
    hide CityOk, Get, Put, ProduceProduct, Made;
    ShelfBounds(c, product);
    if k == 0 {
      NoneMade(c.production);
    } else {
      ProducedShelf(c, k - 1, product);
      ProduceCityOk(c, k - 1);
      ProduceProductMeaning(ProduceCity(c, k - 1), c.stocked[k - 1]);
      OneMoreCopy(c.stocked, k, product);
      OneMoreMade(multiset(c.stocked[..k - 1])[product], c.production);
    }
  }

  lemma OneMoreCopy(stocked: seq<int>, k: nat, product: int)
    requires 1 <= k <= |stocked|
    ensures multiset(stocked[..k])[product]
         == multiset(stocked[..k - 1])[product] + if stocked[k - 1] == product then 1 else 0
  {
    assert stocked[..k] == stocked[..k - 1] + [stocked[k - 1]];
  }

  lemma NoneMade(rate: real)
    ensures Made(0, rate) == 0
  {}

  lemma OneMoreMade(times: nat, rate: real)
    requires rate >= 0.0
    ensures Made(times + 1, rate) == Made(times, rate) + rate.Floor && rate.Floor >= 0
  {}

  lemma RefreshedShelf(c: City, regime: Regime, product: int)
    requires CityOk(c)
    ensures RefreshCity(c, regime).maxInventory == c.maxInventory
    ensures Get(RefreshCity(c, regime).stock, product, 0)
         == Min(c.maxInventory, Get(c.stock, product, 0) + Made(multiset(c.stocked)[product], c.production))
  {
    hide CityOk, Get, ProduceCity, RepriceCity, Made;
    assert c.stocked[..|c.stocked|] == c.stocked;
    ProducedShelf(c, |c.stocked|, product);
    ProduceCityOk(c, |c.stocked|);
    RepriceCityOk(ProduceCity(c, |c.stocked|), regime, |c.stocked|);
  }

  /** The trades that a tick returns account for every change it makes to the coins and goods of any
      agent and to the treasury of any city, and together with what the city makes they determine each of
      its shelves. */
  lemma TickReconciles(e: Economy, arrivals: seq<Arrival>, tick: int, agent: int, node: int, product: int)
    requires EconomyOk(e)
    ensures Balanced(e, TickStep(e, arrivals), TickRecords(e, arrivals, tick), agent, node, product,
                     Min(CapOf(e, node), ShelfOf(e, node, product) + MadeOf(e, node, product)))
  {
    hide EconomyOk, SettleAll, AllRecords, Receipts, Takings, Gained, Get, Find, CityOk, RefreshCity, MoneySupply,
      ShelfAfter, Made;
    OkStockable(e);
    var refreshed := e.(cities := RefreshAll(e.cities, e.regime));
    RefreshedOk(e);
    SameKeys(e.cities, refreshed.cities, node);
    EconomyParts(e);
    var i := Find(e.cities, node);
    if i < |e.cities| { RefreshedShelf(e.cities[i].1, e.regime, product); }
    ArrivalsBalanced(refreshed, arrivals, tick, agent, node, product);
  }

  lemma RefreshedOk(e: Economy)
    requires EconomyOk(e)
    ensures var cities := RefreshAll(e.cities, e.regime);
      && EconomyOk(e.(cities := cities)) && |cities| == |e.cities|
      && forall i :: 0 <= i < |cities| ==>
        cities[i] == (e.cities[i].0, RefreshCity(e.cities[i].1, e.regime))
        && cities[i].1.treasury == e.cities[i].1.treasury
  {
    hide CityOk, WalletOk, SettleAll, Units, Limit;
    OkStockable(e);
    TickSound(e, []);
    var cities := RefreshAll(e.cities, e.regime);
    EconomyParts(e);
    forall i | 0 <= i < |cities|
      ensures cities[i] == (e.cities[i].0, RefreshCity(e.cities[i].1, e.regime))
        && cities[i].1.treasury == e.cities[i].1.treasury
    {
      RefreshSound(e.cities[i].1, e.regime);
    }
    NoArrivals(e);
  }

  lemma NoArrivals(e: Economy)
    requires Stockable(e)
    ensures TickStep(e, []) == e.(cities := RefreshAll(e.cities, e.regime))
  {}
}
