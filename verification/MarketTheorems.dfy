/** Money, stocks and prices over whole runs of the market, and what production really produces. */
module MarketTheorems {
  import opened Collections
  import opened Market

  // ---------- dictionaries ----------

  ghost predicate DistinctKeys<V>(d: Dict<V>) {
    forall i, j :: 0 <= i < j < |d| ==> d[i].0 != d[j].0
  }

  lemma PutEntries<V>(d: Dict<V>, key: int, value: V)
    requires DistinctKeys(d)
    ensures DistinctKeys(Put(d, key, value))
    ensures forall i :: 0 <= i < |Put(d, key, value)| ==>
      Put(d, key, value)[i] == (key, value) || Put(d, key, value)[i] in d
  {}

  lemma FindAt<V>(d: Dict<V>, i: nat)
    requires DistinctKeys(d) && i < |d|
    ensures Find(d, d[i].0) == i
  {}

  lemma PutGet<V>(d: Dict<V>, key: int, value: V, k: int, default: V)
    requires DistinctKeys(d)
    ensures Get(Put(d, key, value), k, default) == if k == key then value else Get(d, k, default)
  {
    var r := Put(d, key, value);
    PutEntries(d, key, value);
    var i := Find(d, k);
    if k == key {
      assert r[Find(d, key)] == (key, value);
      FindAt(r, Find(d, key));
    } else if i < |d| {
      assert r[i] == d[i];
      FindAt(r, i);
    } else {
      assert forall j :: 0 <= j < |r| ==> r[j].0 != k;
    }
  }

  // ---------- what holds of every part ----------

  ghost predicate StockWithin(stock: Dict<int>, max: int) {
    forall i :: 0 <= i < |stock| ==> 0 <= stock[i].1 <= max
  }

  ghost predicate PricesWithin(ask: Dict<real>) {
    forall i :: 0 <= i < |ask| ==>
      Catalogued(ask[i].0) && 0.4 * BasePrice(ask[i].0) <= ask[i].1 <= 6.0 * BasePrice(ask[i].0)
  }

  ghost predicate CityOk(c: City) {
    && AllCatalogued(c) && DistinctKeys(c.stock) && DistinctKeys(c.ask) && c.treasury >= 0.0
    && c.maxInventory >= 0 && c.production >= 0.0 && StockWithin(c.stock, c.maxInventory) && PricesWithin(c.ask)
  }

  ghost predicate WalletOk(w: Wallet) {
    w.coins >= 0.0 && DistinctKeys(w.goods) && forall i :: 0 <= i < |w.goods| ==> w.goods[i].1 >= 0
  }

  lemma StockGet(stock: Dict<int>, max: int, product: int)
    requires StockWithin(stock, max) && max >= 0
    ensures 0 <= Get(stock, product, 0) <= max
  {}

  lemma StockPut(stock: Dict<int>, max: int, product: int, value: int)
    requires StockWithin(stock, max) && DistinctKeys(stock) && 0 <= value <= max
    ensures StockWithin(Put(stock, product, value), max) && DistinctKeys(Put(stock, product, value))
  {
    PutEntries(stock, product, value);
  }

  /** The clamp of any regime lies within the widest one. */
  lemma ClampWithin(base: real, price: real, regime: Regime)
    requires base > 0.0
    ensures var r := Clamped(base, regime, price);
      0.4 * base <= r <= 6.0 * base
  {
    match regime
    case Normal =>
    case Volatile =>
    case Crisis =>
  }

  /** The price is within the band of the regime. */
  ghost predicate Banded(c: City, product: int, regime: Regime)
    requires Catalogued(product)
  {
    var base := BasePrice(product);
    base * LowRatio(regime) <= Get(c.ask, product, base) <= base * HighRatio(regime)
  }

  lemma ClampBanded(base: real, price: real, regime: Regime)
    requires base > 0.0
    ensures var r := Clamped(base, regime, price);
      base * LowRatio(regime) <= r <= base * HighRatio(regime)
  {
    match regime
    case Normal =>
    case Volatile =>
    case Crisis =>
  }

  /** Repricing a product puts its price into the band of the regime and touches nothing else. */
  lemma RepriceOk(c: City, product: int, regime: Regime)
    requires CityOk(c) && Catalogued(product)
    ensures var r := RepriceProduct(c, product, regime);
      && CityOk(r) && r == c.(ask := r.ask)
      && (c.maxInventory > 0 ==> Banded(r, product, regime))
      && (forall k, default :: k != product ==> Get(r.ask, k, default) == Get(c.ask, k, default))
  {
    hide Drifted, Clamped, LowRatio, HighRatio, Find, BasePrices;
    if c.maxInventory > 0 {
      var base := BasePrice(product);
      var price := Drifted(Get(c.ask, product, base), Get(c.stock, product, 0), c.maxInventory);
      ClampWithin(base, price, regime);
      ClampBanded(base, price, regime);
      var clamped := Clamped(base, regime, price);
      PutEntries(c.ask, product, clamped);
      PutGet(c.ask, product, clamped, product, base);
      forall k, default | k != product
        ensures Get(Put(c.ask, product, clamped), k, default) == Get(c.ask, k, default)
      {
        PutGet(c.ask, product, clamped, k, default);
      }
    }
  }

  /** Scarcity raises a price by a quarter of a hundredth of it and plenty lowers it by fifteen ten-thousandths,
      as far as its band reaches, and in between it stays: for a price within the band of the regime. */
  lemma PriceFollowsStock(c: City, product: int, regime: Regime)
    requires CityOk(c) && Catalogued(product) && c.maxInventory > 0 && Banded(c, product, regime)
    ensures var before, after := Get(c.ask, product, BasePrice(product)),
      Get(RepriceProduct(c, product, regime).ask, product, BasePrice(product));
      var fill := Get(c.stock, product, 0) as real / c.maxInventory as real;
      && (fill < 0.35 ==> after == MinReal(before * 1.0025, BasePrice(product) * HighRatio(regime)) && after >= before)
      && (fill > 0.70 ==> after == MaxReal(before * 0.9985, BasePrice(product) * LowRatio(regime)) && after <= before)
      && (0.35 <= fill <= 0.70 ==> after == before)
  {
    var base, price := BasePrice(product), Get(c.ask, product, BasePrice(product));
    PositiveBand(base, price, regime);
    var drifted := Drifted(price, Get(c.stock, product, 0), c.maxInventory);
    PutGet(c.ask, product, Clamped(base, regime, drifted), product, base);
  }

  /** A stricter regime has the narrower band: what crisis allows, volatile allows, and what that allows, normal
      times allow. The base price is within all of them. */
  lemma RegimesNest(base: real, price: real)
    requires base > 0.0
    ensures base * LowRatio(Crisis) <= base <= base * HighRatio(Crisis)
    ensures base * LowRatio(Crisis) <= price <= base * HighRatio(Crisis)
        ==> base * LowRatio(Volatile) <= price <= base * HighRatio(Volatile)
    ensures base * LowRatio(Volatile) <= price <= base * HighRatio(Volatile)
        ==> base * LowRatio(Normal) <= price <= base * HighRatio(Normal)
  {}

  lemma PositiveBand(base: real, price: real, regime: Regime)
    requires base > 0.0 && base * LowRatio(regime) <= price
    ensures price > 0.0
  {
    match regime
    case Normal =>
    case Volatile =>
    case Crisis =>
  }

  /** Repricing a city puts every product it stocks into the band of the regime. */
  lemma {:induction false} RepriceCityOk(c: City, regime: Regime, k: nat)
    requires CityOk(c) && k <= |c.stocked|
    ensures var r := RepriceCity(c, regime, k);
      && CityOk(r) && r == c.(ask := r.ask)
      && (c.maxInventory > 0 ==> forall j :: 0 <= j < k ==> Banded(r, c.stocked[j], regime))
  {
    hide CityOk, RepriceProduct, LowRatio, HighRatio, Get, BasePrices;
    StocksCatalogued(c);
    if k > 0 {
      RepriceCityOk(c, regime, k - 1);
      var before := RepriceCity(c, regime, k - 1);
      RepriceOk(before, c.stocked[k - 1], regime);
    }
  }

  lemma StocksCatalogued(c: City)
    requires CityOk(c)
    ensures AllCatalogued(c)
  {}

  // ---------- production ----------

  /** Truncation throws the fraction away every time: a product gains the whole units of the rate. */
  lemma ProduceProductMeaning(c: City, product: int)
    requires CityOk(c)
    ensures var r := ProduceProduct(c, product);
      && CityOk(r) && r.treasury == c.treasury && r.maxInventory == c.maxInventory && r.production == c.production
      && (forall k :: k != product ==> Get(r.stock, k, 0) == Get(c.stock, k, 0))
      && Get(r.stock, product, 0) == Min(c.maxInventory, Get(c.stock, product, 0) + c.production.Floor)
  {
    hide Put, Get, Find, Truncate;
    StockGet(c.stock, c.maxInventory, product);
    var now := Get(c.stock, product, 0);
    if now < c.maxInventory {
      WholePlus(now, c.production);
      var value := Min(c.maxInventory, now + c.production.Floor);
      StockPut(c.stock, c.maxInventory, product, value);
      forall k ensures Get(Put(c.stock, product, value), k, 0) == if k == product then value else Get(c.stock, k, 0) {
        PutGet(c.stock, product, value, k, 0);
      }
    }
  }

  lemma WholePlus(n: int, x: real)
    requires n >= 0 && x >= 0.0
    ensures Truncate(n as real + x) == n + x.Floor
  {}

  lemma {:induction false} ProduceCityOk(c: City, k: nat)
    requires CityOk(c) && k <= |c.stocked|
    ensures var r := ProduceCity(c, k);
      && CityOk(r) && r.treasury == c.treasury && r.maxInventory == c.maxInventory && r.production == c.production
      && (forall p :: p !in c.stocked[..k] ==> Get(r.stock, p, 0) == Get(c.stock, p, 0))
  {
    hide CityOk, ProduceProduct, Get;
    if k > 0 {
      ProduceCityOk(c, k - 1);
      ProduceProductMeaning(ProduceCity(c, k - 1), c.stocked[k - 1]);
      assert c.stocked[..k] == c.stocked[..k - 1] + [c.stocked[k - 1]];
    }
  }

  /** A city adds to the stock of a product it stocks exactly when its rate is at least one unit a
      tick and the shelf has room; below one, as at the default rate of 0.15, nothing is ever made. */
  lemma {:induction false} ProductionNeedsWholeUnits(c: City, k: nat, product: int)
    requires CityOk(c) && k <= |c.stocked|
    ensures Get(ProduceCity(c, k).stock, product, 0) >= Get(c.stock, product, 0)
    ensures Get(ProduceCity(c, k).stock, product, 0) > Get(c.stock, product, 0)
      <==> (product in c.stocked[..k] && c.production >= 1.0 && Get(c.stock, product, 0) < c.maxInventory)
  {
    hide CityOk, Get, Put, ProduceProduct;
    if k > 0 {
      ProductionNeedsWholeUnits(c, k - 1, product);
      ProduceCityOk(c, k - 1);
      var before := ProduceCity(c, k - 1);
      ProduceProductMeaning(before, c.stocked[k - 1]);
      ShelfBounds(before, product);
      ShelfBounds(c, product);
      assert c.stocked[..k] == c.stocked[..k - 1] + [c.stocked[k - 1]];
    }
  }

  // ---------- trades ----------

  /** What a buyer is counted able to pay for, it can pay for. */
  lemma PayableCovers(money: real, price: real, qty: int)
    requires money >= 0.0 && price > 0.0 && 0 <= qty <= Payable(money, price)
    ensures Cost(price, qty) <= money
  {
    var q := money / price;
    assert q * price == money;
    QuotientPositive(money, price);
    assert qty as real <= q;
    ScaleUp(qty as real, q, price);
  }

  lemma QuotientPositive(money: real, price: real)
    requires money >= 0.0 && price > 0.0
    ensures money / price >= 0.0
  {}

  lemma ScaleUp(a: real, b: real, c: real)
    requires a <= b && c >= 0.0
    ensures a * c <= b * c && c * a <= c * b
  {}

  lemma OfferedPositive(c: City, product: int)
    requires CityOk(c) && Catalogued(product)
    ensures Offered(c, product) > 0.0 && Bid(c, product) > 0.0
  {
    var i := Find(c.ask, product);
    if i < |c.ask| {
      assert 0.4 * BasePrice(product) > 0.0;
    }
  }

  ghost predicate Conserves(w: Wallet, c: City, w2: Wallet, c2: City) {
    && WalletOk(w2) && CityOk(c2) && w2.coins + c2.treasury == w.coins + c.treasury
    && c2.stocked == c.stocked && c2.maxInventory == c.maxInventory
  }

  lemma {:induction false} UnitsPut(goods: Dict<int>, key: int, value: int)
    requires DistinctKeys(goods)
    ensures Units(Put(goods, key, value)) == Units(goods) - Get(goods, key, 0) + value
  {
    var i := Find(goods, key);
    if i < |goods| {
      UnitsUpdate(goods, i, key, value);
    } else {
      assert (goods + [(key, value)])[..|goods|] == goods;
    }
  }

  lemma {:induction false} UnitsUpdate(goods: Dict<int>, i: nat, key: int, value: int)
    requires i < |goods|
    ensures Units(goods[i := (key, value)]) == Units(goods) - goods[i].1 + value
  {
    var last := |goods| - 1;
    var updated := goods[i := (key, value)];
    if i < last {
      UnitsUpdate(goods[..last], i, key, value);
      assert updated[..last] == goods[..last][i := (key, value)];
    } else {
      assert updated[..last] == goods[..last];
    }
  }

  lemma GoodsPut(w: Wallet, product: int, value: int)
    requires WalletOk(w) && value >= 0
    ensures var goods := Put(w.goods, product, value);
      && DistinctKeys(goods) && (forall i :: 0 <= i < |goods| ==> goods[i].1 >= 0)
      && Units(goods) == Units(w.goods) - Get(w.goods, product, 0) + value
  {
    hide Put, Get, Units, Find;
    PutEntries(w.goods, product, value);
    UnitsPut(w.goods, product, value);
    var goods := Put(w.goods, product, value);
    forall i | 0 <= i < |goods| ensures goods[i].1 >= 0 {
      assert goods[i] == (product, value) || goods[i] in w.goods;
    }
  }

  /** A wallet whose goods and coins change together. */
  lemma WalletChanged(w: Wallet, product: int, goods: int, coins: real)
    requires WalletOk(w) && goods >= 0 && coins >= 0.0
    ensures var w2 := Wallet(coins, Put(w.goods, product, goods));
      && WalletOk(w2) && Units(w2.goods) == Units(w.goods) - Get(w.goods, product, 0) + goods
      && (forall k :: k != product ==> Get(w2.goods, k, 0) == Get(w.goods, k, 0))
  {
    GoodsPut(w, product, goods);
    forall k | k != product ensures Get(Put(w.goods, product, goods), k, 0) == Get(w.goods, k, 0) {
      PutGet(w.goods, product, goods, k, 0);
    }
  }

  lemma CityChanged(c: City, product: int, stock: int, treasury: real)
    requires CityOk(c) && 0 <= stock <= c.maxInventory && treasury >= 0.0
    ensures CityOk(c.(treasury := treasury, stock := Put(c.stock, product, stock)))
  {
    StockPut(c.stock, c.maxInventory, product, stock);
  }

  lemma PartsInBounds(w: Wallet, c: City, product: int)
    requires WalletOk(w) && CityOk(c)
    ensures w.coins >= 0.0 && c.treasury >= 0.0 && 0 <= Get(c.stock, product, 0) <= c.maxInventory
      && Get(w.goods, product, 0) >= 0
  {
    StockGet(c.stock, c.maxInventory, product);
  }

  lemma SoldConserves(w: Wallet, c: City, product: int, bid: real, qty: int)
    requires WalletOk(w) && CityOk(c) && 0 <= qty <= Get(w.goods, product, 0) && 0.0 <= Cost(bid, qty) <= c.treasury
    ensures var (w2, c2) := Sold(w, c, product, Get(w.goods, product, 0), bid, qty);
      Conserves(w, c, w2, c2) && Units(w2.goods) <= Units(w.goods)
      && (forall k :: k != product ==> Get(w2.goods, k, 0) == Get(w.goods, k, 0))
  {
    hide Cost, Units, Put, Get, WalletOk, CityOk;
    PartsInBounds(w, c, product);
    WalletChanged(w, product, Get(w.goods, product, 0) - qty, w.coins + Cost(bid, qty));
    CityChanged(c, product, Min(c.maxInventory, Get(c.stock, product, 0) + qty), c.treasury - Cost(bid, qty));
  }

  /** A sale moves coins from the treasury to the wallet, within what the treasury holds. */
  lemma SellConserves(w: Wallet, c: City, product: int, draw: Draw)
    requires WalletOk(w) && CityOk(c)
    ensures var (w2, c2) := SellOne(w, c, product, Get(w.goods, product, 0), draw);
      Conserves(w, c, w2, c2) && Units(w2.goods) <= Units(w.goods)
      && (forall k :: k != product ==> Get(w2.goods, k, 0) == Get(w.goods, k, 0))
  {
    hide Bid, Cost, Units, Put, Get, Sold, SellQuantity, WalletOk, CityOk, Offered;
    var owned := Get(w.goods, product, 0);
    if owned > 0 && product in c.stocked && draw.roll < P_SELL {
      SaleCovered(c, product, owned, draw);
      SoldConserves(w, c, product, Bid(c, product), SellQuantity(c, owned, Bid(c, product), draw));
    }
  }

  lemma SaleCovered(c: City, product: int, owned: int, draw: Draw)
    requires CityOk(c) && product in c.stocked && owned > 0
    ensures Catalogued(product)
    ensures var bid := Bid(c, product);
      var qty := SellQuantity(c, owned, bid, draw);
      0 <= qty <= owned && 0.0 <= Cost(bid, qty) <= c.treasury
  {
    var bid := Bid(c, product);
    OfferedPositive(c, product);
    if SellQuantity(c, owned, bid, draw) > 0 {
      TreasuryCovers(c, bid, SellQuantity(c, owned, bid, draw));
    }
    CostNonNegative(bid, SellQuantity(c, owned, bid, draw));
  }

  lemma TreasuryCovers(c: City, bid: real, qty: int)
    requires c.treasury >= 0.0 && bid > 0.0 && 0 <= qty <= CityPayable(c, bid)
    ensures Cost(bid, qty) <= c.treasury
  {
    var price := MaxReal(bid, 0.01);
    PayableCovers(c.treasury, price, qty);
    ScaleUp(bid, price, qty as real);
  }

  lemma CostNonNegative(price: real, qty: int)
    requires price > 0.0 && qty >= 0
    ensures Cost(price, qty) >= 0.0
  {}

  lemma {:induction false} SellAllConserves(w: Wallet, c: City, luck: Luck, k: nat)
    requires WalletOk(w) && CityOk(c) && k <= |w.goods|
    ensures var r := SellAll(w, c, luck, k);
      && Conserves(w, c, r.0, r.1) && Units(r.0.goods) <= Units(w.goods)
      && forall j :: k <= j < |w.goods| ==> Get(r.0.goods, w.goods[j].0, 0) == w.goods[j].1
  {
    if k == 0 {
      forall j | 0 <= j < |w.goods| ensures Get(w.goods, w.goods[j].0, 0) == w.goods[j].1 {
        FindAt(w.goods, j);
      }
    } else {
      SellAllConserves(w, c, luck, k - 1);
      var before, product := SellAll(w, c, luck, k - 1), w.goods[k - 1].0;
      hide SellOne, Units, WalletOk, CityOk, Get;
      SellConserves(before.0, before.1, product, luck.sell(product));
      assert forall j :: k <= j < |w.goods| ==> w.goods[j].0 != product by { DistinctGoods(w); }
    }
  }

  lemma DistinctGoods(w: Wallet)
    requires WalletOk(w)
    ensures forall i, j :: 0 <= i < j < |w.goods| ==> w.goods[i].0 != w.goods[j].0
  {}

  /** What an agent may carry, with limited cargo. */
  function Limit(cargo: Option<Dict<int>>, agent: int): int {
    if cargo.None? then 0 else Max(0, Get(cargo.value, agent, DEFAULT_CARGO_CAPACITY))
  }

  lemma RoomWithin(cargo: Option<Dict<int>>, agent: int, goods: Dict<int>)
    ensures var room := Room(cargo, agent, goods);
      && (room.Some? <==> cargo.Some?) && (room.Some? ==> room.value >= 0)
      && (room.Some? && Units(goods) <= Limit(cargo, agent) ==> Units(goods) + room.value <= Limit(cargo, agent))
  {}

  /** The quantity bought is on the shelf, paid for, and within the room there is. */
  lemma BuyQuantityBounds(w: Wallet, c: City, product: int, room: Option<int>, draw: Draw)
    requires WalletOk(w) && CityOk(c) && Catalogued(product)
    requires room.Some? ==> room.value >= 0
    ensures var qty := BuyQuantity(w, c, product, room, draw);
      && 0 <= qty && (qty > 0 ==> qty <= Get(c.stock, product, 0))
      && 0.0 <= Cost(Offered(c, product), qty) <= w.coins && (room.Some? ==> qty <= room.value)
  {
    var ask, qty := Offered(c, product), BuyQuantity(w, c, product, room, draw);
    OfferedPositive(c, product);
    CostNonNegative(ask, qty);
    if qty > 0 {
      PayableCovers(w.coins, ask, qty);
    }
  }

  lemma BoughtConserves(w: Wallet, c: City, product: int, ask: real, qty: int)
    requires WalletOk(w) && CityOk(c) && 0 <= qty <= Get(c.stock, product, 0) && 0.0 <= Cost(ask, qty) <= w.coins
    ensures var (w2, c2) := Bought(w, c, product, ask, qty);
      Conserves(w, c, w2, c2) && Units(w2.goods) == Units(w.goods) + qty
  {
    hide Cost, Units, Put, Get, WalletOk, CityOk;
    PartsInBounds(w, c, product);
    WalletChanged(w, product, Get(w.goods, product, 0) + qty, w.coins - Cost(ask, qty));
    CityChanged(c, product, Get(c.stock, product, 0) - qty, c.treasury + Cost(ask, qty));
  }

  /** A purchase moves coins from the wallet to the treasury, within what the wallet holds, and fills
      it no further than its limit. */
  lemma BuyConserves(w: Wallet, c: City, product: int, cargo: Option<Dict<int>>, agent: int, draw: Draw)
    requires WalletOk(w) && CityOk(c) && Catalogued(product)
    ensures var (w2, c2) := BuyOne(w, c, product, cargo, agent, draw);
      Conserves(w, c, w2, c2)
      && (cargo.Some? && Units(w.goods) <= Limit(cargo, agent) ==> Units(w2.goods) <= Limit(cargo, agent))
  {
    hide Offered, Cost, Units, Put, Get, BuyQuantity, Room, Limit, Bought, WalletOk, CityOk;
    var room := Room(cargo, agent, w.goods);
    var qty := BuyQuantity(w, c, product, room, draw);
    RoomWithin(cargo, agent, w.goods);
    BuyQuantityBounds(w, c, product, room, draw);
    if qty > 0 {
      BoughtConserves(w, c, product, Offered(c, product), qty);
    }
  }

  lemma {:induction false} BuyAllConserves(w: Wallet, c: City, cargo: Option<Dict<int>>, agent: int, luck: Luck, k: nat)
    requires WalletOk(w) && CityOk(c) && k <= |c.stocked|
    ensures var r := BuyAll(w, c, cargo, agent, luck, k);
      && Conserves(w, c, r.0, r.1)
      && (cargo.Some? && Units(w.goods) <= Limit(cargo, agent) ==> Units(r.0.goods) <= Limit(cargo, agent))
  {
    if k > 0 {
      BuyAllConserves(w, c, cargo, agent, luck, k - 1);
      var before := BuyAll(w, c, cargo, agent, luck, k - 1);
      assert Catalogued(c.stocked[k - 1]);
      BuyConserves(before.0, before.1, c.stocked[k - 1], cargo, agent, luck.buy(c.stocked[k - 1]));
    }
  }

  lemma TradeConserves(w: Wallet, c: City, cargo: Option<Dict<int>>, agent: int, luck: Luck)
    requires WalletOk(w) && CityOk(c)
    ensures var r := Trade(w, c, cargo, agent, luck);
      && Conserves(w, c, r.0, r.1)
      && (cargo.Some? && Units(w.goods) <= Limit(cargo, agent) ==> Units(r.0.goods) <= Limit(cargo, agent))
  {
    SellAllConserves(w, c, luck, |w.goods|);
    var sold := SellAll(w, c, luck, |w.goods|);
    BuyAllConserves(sold.0, sold.1, cargo, agent, luck, |c.stocked|);
  }

  // ---------- the whole economy ----------

  function Coins(wallets: Dict<Wallet>): real {
    if wallets == [] then 0.0 else Coins(wallets[..|wallets| - 1]) + wallets[|wallets| - 1].1.coins
  }

  function Treasuries(cities: Dict<City>): real {
    if cities == [] then 0.0 else Treasuries(cities[..|cities| - 1]) + cities[|cities| - 1].1.treasury
  }

  /** All agent coins and all city treasuries. */
  function MoneySupply(e: Economy): real {
    Coins(e.wallets) + Treasuries(e.cities)
  }

  method MeasureMoneySupply(e: Economy) returns (total: real)
    ensures total == MoneySupply(e)
  {
    total := 0.0;
    for i := 0 to |e.wallets|
      invariant total == Coins(e.wallets[..i])
    {
      assert e.wallets[..i + 1][..i] == e.wallets[..i];
      total := total + e.wallets[i].1.coins;
    }
    assert e.wallets[..|e.wallets|] == e.wallets;
    for i := 0 to |e.cities|
      invariant total == Coins(e.wallets) + Treasuries(e.cities[..i])
    {
      assert e.cities[..i + 1][..i] == e.cities[..i];
      total := total + e.cities[i].1.treasury;
    }
    assert e.cities[..|e.cities|] == e.cities;
  }

  lemma {:induction false} CoinsUpdate(wallets: Dict<Wallet>, i: nat, key: int, w: Wallet)
    requires i < |wallets|
    ensures Coins(wallets[i := (key, w)]) == Coins(wallets) - wallets[i].1.coins + w.coins
  {
    var last := |wallets| - 1;
    var updated := wallets[i := (key, w)];
    if i < last {
      CoinsUpdate(wallets[..last], i, key, w);
      assert updated[..last] == wallets[..last][i := (key, w)];
    } else {
      assert updated[..last] == wallets[..last];
    }
  }

  lemma {:induction false} TreasuriesUpdate(cities: Dict<City>, i: nat, key: int, c: City)
    requires i < |cities|
    ensures Treasuries(cities[i := (key, c)]) == Treasuries(cities) - cities[i].1.treasury + c.treasury
  {
    var last := |cities| - 1;
    var updated := cities[i := (key, c)];
    if i < last {
      TreasuriesUpdate(cities[..last], i, key, c);
      assert updated[..last] == cities[..last][i := (key, c)];
    } else {
      assert updated[..last] == cities[..last];
    }
  }

  ghost predicate CarriesWithin(e: Economy, agent: int, w: Wallet) {
    e.cargo.Some? ==> Units(w.goods) <= Limit(e.cargo, agent)
  }

  /** Nobody is in debt, shelves and prices are within bounds, and cargo limits hold where there are any. */
  ghost predicate EconomyOk(e: Economy) {
    && e.blockReward >= 0.0
    && (forall i :: 0 <= i < |e.wallets| ==>
      WalletOk(e.wallets[i].1) && CarriesWithin(e, e.wallets[i].0, e.wallets[i].1))
    && (forall i :: 0 <= i < |e.cities| ==> CityOk(e.cities[i].1))
  }

  lemma OkStockable(e: Economy)
    requires EconomyOk(e)
    ensures Stockable(e)
  {
    forall i | 0 <= i < |e.cities| ensures AllCatalogued(e.cities[i].1) {
      assert CityOk(e.cities[i].1);
    }
  }

  lemma WalletReplaced(e: Economy, i: nat, w: Wallet)
    requires EconomyOk(e) && i < |e.wallets| && WalletOk(w) && CarriesWithin(e, e.wallets[i].0, w)
    ensures var r := e.(wallets := e.wallets[i := (e.wallets[i].0, w)]);
      EconomyOk(r) && MoneySupply(r) == MoneySupply(e) - e.wallets[i].1.coins + w.coins
  {
    var r := e.(wallets := e.wallets[i := (e.wallets[i].0, w)]);
    CoinsUpdate(e.wallets, i, e.wallets[i].0, w);
    hide WalletOk, CityOk, Units, Limit, Coins, Treasuries;
    forall j | 0 <= j < |r.wallets|
      ensures WalletOk(r.wallets[j].1) && CarriesWithin(r, r.wallets[j].0, r.wallets[j].1)
    {
      assert CarriesWithin(e, e.wallets[j].0, e.wallets[j].1);
    }
  }

  lemma CityReplaced(e: Economy, i: nat, c: City)
    requires EconomyOk(e) && i < |e.cities| && CityOk(c)
    ensures var r := e.(cities := e.cities[i := (e.cities[i].0, c)]);
      EconomyOk(r) && MoneySupply(r) == MoneySupply(e) - e.cities[i].1.treasury + c.treasury
  {
    var r := e.(cities := e.cities[i := (e.cities[i].0, c)]);
    TreasuriesUpdate(e.cities, i, e.cities[i].0, c);
    hide WalletOk, CityOk, Units, Limit, Coins, Treasuries;
    forall j | 0 <= j < |r.wallets| ensures CarriesWithin(r, r.wallets[j].0, r.wallets[j].1) {
      assert CarriesWithin(e, e.wallets[j].0, e.wallets[j].1);
    }
  }

  /** Fields that the bounds do not mention can change freely. */
  lemma OthersIrrelevant(e: Economy, r: Economy)
    requires EconomyOk(e) && r.wallets == e.wallets && r.cities == e.cities && r.cargo == e.cargo
      && r.blockReward == e.blockReward
    ensures EconomyOk(r) && MoneySupply(r) == MoneySupply(e)
  {
    hide WalletOk, CityOk, Units, Limit;
    forall j | 0 <= j < |r.wallets| ensures CarriesWithin(r, r.wallets[j].0, r.wallets[j].1) {
      assert CarriesWithin(e, e.wallets[j].0, e.wallets[j].1);
    }
  }

  lemma SettleSound(e: Economy, a: Arrival)
    requires EconomyOk(e)
    ensures EconomyOk(Settle(e, a)) && MoneySupply(Settle(e, a)) == MoneySupply(e)
  {
    hide WalletOk, CityOk, Units, Limit, Coins, Treasuries, Trade, Put;
    OkStockable(e);
    var ci, wi := Find(e.cities, a.node), Find(e.wallets, a.agent);
    var moved := e.(previous := Put(e.previous, a.agent, a.node));
    OthersIrrelevant(e, moved);
    OthersIrrelevant(e, moved.(blockedAttempts := e.blockedAttempts + 1));
    if ci < |e.cities| && wi < |e.wallets| {
      var w, c := e.wallets[wi].1, e.cities[ci].1;
      assert CarriesWithin(e, e.wallets[wi].0, w);
      TradeConserves(w, c, e.cargo, a.agent, a.luck);
      var r := Trade(w, c, e.cargo, a.agent, a.luck);
      WalletReplaced(moved, wi, r.0);
      CityReplaced(moved.(wallets := e.wallets[wi := (a.agent, r.0)]), ci, r.1);
    }
  }

  lemma {:induction false} SettleAllSound(e: Economy, arrivals: seq<Arrival>)
    requires EconomyOk(e)
    ensures EconomyOk(SettleAll(e, arrivals)) && MoneySupply(SettleAll(e, arrivals)) == MoneySupply(e)
  {
    if arrivals != [] {
      SettleAllSound(e, arrivals[..|arrivals| - 1]);
      SettleSound(SettleAll(e, arrivals[..|arrivals| - 1]), arrivals[|arrivals| - 1]);
    }
  }

  lemma {:induction false} SameTreasuries(a: Dict<City>, b: Dict<City>)
    requires |a| == |b| && forall i :: 0 <= i < |a| ==> a[i].1.treasury == b[i].1.treasury
    ensures Treasuries(a) == Treasuries(b)
  {
    if a != [] {
      SameTreasuries(a[..|a| - 1], b[..|b| - 1]);
    }
  }

  lemma RefreshSound(c: City, regime: Regime)
    requires CityOk(c)
    ensures CityOk(RefreshCity(c, regime)) && RefreshCity(c, regime).treasury == c.treasury
  {
    ProduceCityOk(c, |c.stocked|);
    RepriceCityOk(ProduceCity(c, |c.stocked|), regime, |c.stocked|);
  }

  /** A tick moves money about and neither makes nor loses any. */
  lemma TickSound(e: Economy, arrivals: seq<Arrival>)
    requires EconomyOk(e)
    ensures EconomyOk(TickStep(e, arrivals)) && MoneySupply(TickStep(e, arrivals)) == MoneySupply(e)
  {
    var cities := RefreshAll(e.cities, e.regime);
    forall i | 0 <= i < |cities| ensures CityOk(cities[i].1) && cities[i].1.treasury == e.cities[i].1.treasury {
      RefreshSound(e.cities[i].1, e.regime);
    }
    hide CityOk, RefreshAll, SettleAll, WalletOk;
    SameTreasuries(cities, e.cities);
    var refreshed := e.(cities := cities);
    forall i | 0 <= i < |e.wallets| ensures CarriesWithin(refreshed, e.wallets[i].0, e.wallets[i].1) {
      assert CarriesWithin(e, e.wallets[i].0, e.wallets[i].1);
    }
    SettleAllSound(refreshed, arrivals);
  }

  /** Every price of a city with shelves is within the band of the regime. */
  ghost predicate CityBanded(c: City, regime: Regime) {
    AllCatalogued(c) && (c.maxInventory > 0 ==> forall j :: 0 <= j < |c.stocked| ==> Banded(c, c.stocked[j], regime))
  }

  /** The fields of a city that no trade changes. */
  ghost predicate SameTerms(a: City, b: City) {
    a.stocked == b.stocked && a.ask == b.ask && a.maxInventory == b.maxInventory
  }

  lemma {:induction false} SellKeepsTerms(w: Wallet, c: City, luck: Luck, k: nat)
    requires AllCatalogued(c) && k <= |w.goods|
    ensures SameTerms(SellAll(w, c, luck, k).1, c)
  {
    hide Bid, SellQuantity, Cost, Put, Get;
    if k > 0 {
      SellKeepsTerms(w, c, luck, k - 1);
    }
  }

  lemma {:induction false} BuyKeepsTerms(w: Wallet, c: City, cargo: Option<Dict<int>>, agent: int, luck: Luck, k: nat)
    requires AllCatalogued(c) && k <= |c.stocked|
    ensures SameTerms(BuyAll(w, c, cargo, agent, luck, k).1, c)
  {
    hide Offered, BuyQuantity, Cost, Put, Get, Room;
    if k > 0 {
      BuyKeepsTerms(w, c, cargo, agent, luck, k - 1);
    }
  }

  lemma TradeKeepsBand(w: Wallet, c: City, cargo: Option<Dict<int>>, agent: int, luck: Luck, regime: Regime)
    requires CityBanded(c, regime)
    ensures CityBanded(Trade(w, c, cargo, agent, luck).1, regime)
  {
    hide SellAll, BuyAll, LowRatio, HighRatio, Get;
    SellKeepsTerms(w, c, luck, |w.goods|);
    var sold := SellAll(w, c, luck, |w.goods|);
    BuyKeepsTerms(sold.0, sold.1, cargo, agent, luck, |sold.1.stocked|);
  }

  ghost predicate AllBanded(e: Economy) {
    forall i :: 0 <= i < |e.cities| ==> CityBanded(e.cities[i].1, e.regime)
  }

  lemma {:induction false} SettleAllBanded(e: Economy, arrivals: seq<Arrival>)
    requires Stockable(e) && AllBanded(e)
    ensures AllBanded(SettleAll(e, arrivals)) && SettleAll(e, arrivals).regime == e.regime
  {
    hide CityBanded, Trade, Find, Put, AllCatalogued;
    if arrivals != [] {
      SettleAllBanded(e, arrivals[..|arrivals| - 1]);
      var before, a := SettleAll(e, arrivals[..|arrivals| - 1]), arrivals[|arrivals| - 1];
      var ci, wi := Find(before.cities, a.node), Find(before.wallets, a.agent);
      if ci < |before.cities| && wi < |before.wallets| {
        TradeKeepsBand(before.wallets[wi].1, before.cities[ci].1, before.cargo, a.agent, a.luck, e.regime);
      }
    }
  }

  /** After every tick every price is within the band of the regime in force, whatever it was before. */
  lemma TickBanded(e: Economy, arrivals: seq<Arrival>)
    requires EconomyOk(e)
    ensures AllBanded(TickStep(e, arrivals))
  {
    hide CityOk, SettleAll, LowRatio, HighRatio, WalletOk, Get;
    OkStockable(e);
    var refreshed := e.(cities := RefreshAll(e.cities, e.regime));
    forall i | 0 <= i < |refreshed.cities| ensures CityBanded(refreshed.cities[i].1, e.regime) {
      RefreshBanded(e.cities[i].1, e.regime);
    }
    SettleAllBanded(refreshed, arrivals);
  }

  lemma RefreshBanded(c: City, regime: Regime)
    requires CityOk(c)
    ensures AllCatalogued(c) && CityBanded(RefreshCity(c, regime), regime)
  {
    hide ProduceCity, RepriceCity, LowRatio, HighRatio, Get;
    ProduceCityOk(c, |c.stocked|);
    RepriceCityOk(ProduceCity(c, |c.stocked|), regime, |c.stocked|);
  }

  // ---------- a market as built ----------

  lemma {:induction false} FillStockMeaning(items: seq<int>)
    requires Distinct(items)
    ensures FillStock(items) == seq(|items|, k requires 0 <= k < |items| => (items[k], INIT_INVENTORY))
  {
    if items != [] {
      FillStockMeaning(items[..|items| - 1]);
      PutAppends(FillStock(items[..|items| - 1]), items[|items| - 1], INIT_INVENTORY);
    }
  }

  lemma PutAppends<V>(d: Dict<V>, key: int, value: V)
    requires forall k :: 0 <= k < |d| ==> d[k].0 != key
    ensures Put(d, key, value) == d + [(key, value)]
  {}

  lemma {:induction false} FillPricesMeaning(items: seq<int>)
    requires Distinct(items) && forall k :: 0 <= k < |items| ==> Catalogued(items[k])
    ensures FillPrices(items) == seq(|items|, k requires 0 <= k < |items| => (items[k], BasePrice(items[k])))
  {
    hide BasePrices;
    if items != [] {
      FillPricesMeaning(items[..|items| - 1]);
      PutAppends(FillPrices(items[..|items| - 1]), items[|items| - 1], BasePrice(items[|items| - 1]));
    }
  }

  /** A city as built: ten different products, thirty of each, at their base prices. */
  ghost predicate FreshCity(c: City) {
    && CityOk(c) && |c.stocked| == ITEMS_PER_CITY && Distinct(c.stocked) && c.treasury == INIT_TREASURY
    && c.production == PRODUCTION && c.maxInventory == MAX_INVENTORY
    && forall k :: 0 <= k < |c.stocked| ==>
         (Get(c.stock, c.stocked[k], 0) == INIT_INVENTORY && Get(c.ask, c.stocked[k], 0.0) == BasePrice(c.stocked[k]))
  }

  lemma NewCityFresh(items: seq<int>)
    requires Distinct(items) && |items| == ITEMS_PER_CITY && forall k :: 0 <= k < |items| ==> Catalogued(items[k])
    ensures FreshCity(NewCity(items))
  {
    hide BasePrices, Get;
    FillStockMeaning(items);
    FillPricesMeaning(items);
    var c := NewCity(items);
    forall k | 0 <= k < |items|
      ensures Get(c.stock, items[k], 0) == INIT_INVENTORY && Get(c.ask, items[k], 0.0) == BasePrice(items[k])
    {
      EntryGet(c.stock, k, 0);
      EntryGet(c.ask, k, 0.0);
    }
  }

  lemma EntryGet<V>(d: Dict<V>, i: nat, default: V)
    requires DistinctKeys(d) && i < |d|
    ensures Get(d, d[i].0, default) == d[i].1
  {
    FindAt(d, i);
  }

  lemma {:induction false} NewCitiesFresh(nodes: seq<int>, seed: int)
    ensures var cities := NewCities(nodes, seed);
      && DistinctKeys(cities) && (forall k :: 0 <= k < |cities| ==> FreshCity(cities[k].1))
      && (forall n :: n in nodes <==> Find(cities, n) < |cities|)
  {
    hide FreshCity, NewCity, Assortment, Mix, Find, Put;
    if nodes != [] {
      var front, node := nodes[..|nodes| - 1], nodes[|nodes| - 1];
      NewCitiesFresh(front, seed);
      AssortmentCatalogued(Mix(seed, node));
      NewCityFresh(Assortment(Mix(seed, node)));
      var before, c := NewCities(front, seed), NewCity(Assortment(Mix(seed, node)));
      PutEntries(before, node, c);
      forall n ensures Find(Put(before, node, c), n) < |Put(before, node, c)|
        <==> n == node || Find(before, n) < |before| {
        PutFinds(before, node, c, n);
      }
      var cities := NewCities(nodes, seed);
      forall k | 0 <= k < |cities| ensures FreshCity(cities[k].1) {
        assert cities[k] == (node, c) || cities[k] in before;
      }
      assert nodes == front + [node];
    } else {
      forall n ensures Find(NewCities([], seed), n) >= 0 {}
    }
  }

  lemma PutFinds<V>(d: Dict<V>, key: int, value: V, k: int)
    ensures Find(Put(d, key, value), k) < |Put(d, key, value)| <==> k == key || Find(d, k) < |d|
  {
    var r := Put(d, key, value);
    assert forall i :: 0 <= i < |d| ==> r[i].0 == d[i].0;
    assert r[Find(d, key)].0 == key;
  }

  lemma {:induction false} NewWalletsCoins(agents: nat)
    ensures Coins(NewWallets(agents)) == INIT_COINS * agents as real
  {
    if agents > 0 {
      NewWalletsCoins(agents - 1);
      assert NewWallets(agents)[..agents - 1] == NewWallets(agents - 1);
    }
  }

  lemma {:induction false} FreshTreasuries(cities: Dict<City>)
    requires forall k :: 0 <= k < |cities| ==> cities[k].1.treasury == INIT_TREASURY
    ensures Treasuries(cities) == INIT_TREASURY * |cities| as real
  {
    if cities != [] {
      FreshTreasuries(cities[..|cities| - 1]);
    }
  }

  /** A built market meets the assumptions of the run theorem: every agent has a hundred coins and every
      node one city with ten different products, thirty of each at the base price. */
  lemma BuiltOk(nodes: seq<int>, agents: int, seed: int)
    ensures var e := NewEconomy(nodes, agents, seed);
      && EconomyOk(e) && (forall n :: n in nodes <==> Find(e.cities, n) < |e.cities|)
      && |e.wallets| == Max(0, agents) && (forall k :: 0 <= k < |e.cities| ==> FreshCity(e.cities[k].1))
      && MoneySupply(e) == INIT_COINS * |e.wallets| as real + INIT_TREASURY * |e.cities| as real
  {
    hide NewCities, CityOk, Coins, Treasuries, BasePrices, Find;
    NewCitiesFresh(nodes, seed);
    NewWalletsCoins(Max(0, agents));
    FreshTreasuries(NewCities(nodes, seed));
  }

  /** In a city as built, at 0.15 units a tick, nothing is made though every shelf has room. */
  lemma BuiltMakesNothing(c: City, product: int)
    requires FreshCity(c) && product in c.stocked
    ensures Get(c.stock, product, 0) == 30 < c.maxInventory
    ensures Get(ProduceCity(c, |c.stocked|).stock, product, 0) == 30
  {
    hide Get, CityOk, ProduceProduct;
    ProductionNeedsWholeUnits(c, |c.stocked|, product);
    var k :| 0 <= k < |c.stocked| && c.stocked[k] == product;
    assert Get(c.stock, c.stocked[k], 0) == INIT_INVENTORY;
  }

  // ---------- money from outside ----------

  function CreditsOf(e: Economy, winners: seq<int>): real {
    if winners == [] then 0.0
    else
      CreditsOf(e, winners[..|winners| - 1])
      + if Find(e.wallets, winners[|winners| - 1]) < |e.wallets| then e.blockReward else 0.0
  }

  ghost predicate SameAgents(a: Dict<Wallet>, b: Dict<Wallet>) {
    |a| == |b| && forall i :: 0 <= i < |a| ==> a[i].0 == b[i].0
  }

  lemma {:induction false} SameFind(a: Dict<Wallet>, b: Dict<Wallet>, key: int)
    requires SameAgents(a, b)
    ensures Find(a, key) == Find(b, key)
  {
    if a != [] && a[0].0 != key {
      SameFind(a[1..], b[1..], key);
    }
  }

  /** Each known winner is credited once for each time it is listed. */
  lemma {:induction false} CreditSound(e: Economy, winners: seq<int>)
    requires EconomyOk(e)
    ensures var r := CreditAll(e, winners);
      && EconomyOk(r) && r.cities == e.cities && r.blockReward == e.blockReward && r.cargo == e.cargo
      && SameAgents(r.wallets, e.wallets) && MoneySupply(r) == MoneySupply(e) + CreditsOf(e, winners)
  {
    hide WalletOk, CityOk, Units, Limit, Coins, Treasuries, CarriesWithin, MoneySupply;
    if winners != [] {
      var front, winner := winners[..|winners| - 1], winners[|winners| - 1];
      CreditSound(e, front);
      var before := CreditAll(e, front);
      SameFind(before.wallets, e.wallets, winner);
      CreditOneSound(before, winner);
    }
  }

  lemma CreditOneSound(e: Economy, winner: int)
    requires EconomyOk(e)
    ensures var r := CreditOne(e, winner);
      && EconomyOk(r) && SameAgents(r.wallets, e.wallets)
      && MoneySupply(r) == MoneySupply(e) + if Find(e.wallets, winner) < |e.wallets| then e.blockReward else 0.0
  {
    var i := Find(e.wallets, winner);
    if i < |e.wallets| {
      var w := e.wallets[i].1;
      assert WalletOk(w) && CarriesWithin(e, e.wallets[i].0, w);
      WalletReplaced(e, i, w.(coins := w.coins + e.blockReward));
    }
  }

  /** What one request brings in. */
  function Revenue(e: Economy, q: Request): real {
    var i := Find(e.cities, q.city);
    if i == |e.cities| || Consumed(e, q) <= 0 then 0.0
    else Consumed(e, q) as real * Get(e.cities[i].1.ask, q.product, 0.0)
  }

  function RevenueOf(e: Economy, requests: seq<Request>): real {
    if requests == [] then 0.0
    else
      var front := requests[..|requests| - 1];
      RevenueOf(e, front) + Revenue(ConsumeAll(e, front), requests[|requests| - 1])
  }

  lemma AskNonNegative(c: City, product: int)
    requires CityOk(c)
    ensures Get(c.ask, product, 0.0) >= 0.0
  {
    var i := Find(c.ask, product);
    if i < |c.ask| {
      assert 0.4 * BasePrice(c.ask[i].0) > 0.0;
    }
  }

  lemma RevenueNonNegative(served: int, price: real)
    requires served >= 0 && price >= 0.0
    ensures served as real * price >= 0.0
  {}

  lemma RevenueMeaning(e: Economy, q: Request)
    requires Find(e.cities, q.city) < |e.cities| && Consumed(e, q) > 0
    ensures Revenue(e, q) == Consumed(e, q) as real * Get(e.cities[Find(e.cities, q.city)].1.ask, q.product, 0.0)
  {}

  lemma RevenueInBounds(e: Economy, q: Request)
    requires EconomyOk(e) && Find(e.cities, q.city) < |e.cities|
    ensures Revenue(e, q) >= 0.0
  {
    var c := e.cities[Find(e.cities, q.city)].1;
    AskNonNegative(c, q.product);
    if Consumed(e, q) > 0 {
      RevenueNonNegative(Consumed(e, q), Get(c.ask, q.product, 0.0));
    }
  }

  lemma ConsumeSound(e: Economy, q: Request)
    requires EconomyOk(e)
    ensures EconomyOk(ConsumeOne(e, q)) && MoneySupply(ConsumeOne(e, q)) == MoneySupply(e) + Revenue(e, q)
  {
    hide CityOk, WalletOk, Units, Limit, Coins, Treasuries, Put, Get, MoneySupply, EconomyOk, Revenue, Consumed;
    var i := Find(e.cities, q.city);
    if i < |e.cities| && Consumed(e, q) > 0 {
      CityServed(e, q);
      CityReplaced(e, i, Served(e, q));
    } else {
      NoRevenue(e, q);
    }
  }

  /** The city after a request it serves. */
  function Served(e: Economy, q: Request): City
    requires Find(e.cities, q.city) < |e.cities|
  {
    var c := e.cities[Find(e.cities, q.city)].1;
    c.(stock := Put(c.stock, q.product, Max(0, Get(c.stock, q.product, 0) - Consumed(e, q))),
       treasury := c.treasury + Consumed(e, q) as real * Get(c.ask, q.product, 0.0))
  }

  lemma NoRevenue(e: Economy, q: Request)
    requires Find(e.cities, q.city) == |e.cities| || Consumed(e, q) <= 0
    ensures Revenue(e, q) == 0.0
  {}

  lemma CityServed(e: Economy, q: Request)
    requires EconomyOk(e) && Find(e.cities, q.city) < |e.cities| && Consumed(e, q) > 0
    ensures CityOk(Served(e, q)) && Served(e, q).treasury == e.cities[Find(e.cities, q.city)].1.treasury + Revenue(e, q)
  {
    hide CityOk, Revenue, Consumed;
    var c := e.cities[Find(e.cities, q.city)].1;
    var left := Max(0, Get(c.stock, q.product, 0) - Consumed(e, q));
    RevenueInBounds(e, q);
    RevenueMeaning(e, q);
    ShelfBounds(c, q.product);
    CityChanged(c, q.product, left, c.treasury + Revenue(e, q));
    assert Served(e, q) == c.(treasury := c.treasury + Revenue(e, q), stock := Put(c.stock, q.product, left));
  }

  lemma ShelfBounds(c: City, product: int)
    requires CityOk(c)
    ensures c.treasury >= 0.0 && c.production >= 0.0 && 0 <= Get(c.stock, product, 0) <= c.maxInventory
  {
    StockGet(c.stock, c.maxInventory, product);
  }

  lemma {:induction false} ConsumeAllSound(e: Economy, requests: seq<Request>)
    requires EconomyOk(e)
    ensures EconomyOk(ConsumeAll(e, requests))
      && MoneySupply(ConsumeAll(e, requests)) == MoneySupply(e) + RevenueOf(e, requests)
  {
    if requests != [] {
      ConsumeAllSound(e, requests[..|requests| - 1]);
      ConsumeSound(ConsumeAll(e, requests[..|requests| - 1]), requests[|requests| - 1]);
    }
  }

  // ---------- runs ----------

  datatype Event =
    | Tick(arrivals: seq<Arrival>)
    | Customers(requests: seq<Request>)
    | Rewards(winners: seq<int>)
    | SetRegime(regime: Regime)
    | Block(agent: int)
    | Unblock(agent: int)

  ghost function Step(e: Economy, event: Event): Economy
    requires Stockable(e)
  {
    match event
    case Tick(arrivals) => TickStep(e, arrivals)
    case Customers(requests) => ConsumeAll(e, requests)
    case Rewards(winners) => CreditAll(e, winners)
    case SetRegime(regime) => e.(regime := regime)
    case Block(agent) => e.(blocked := e.blocked + {agent})
    case Unblock(agent) => e.(blocked := e.blocked - {agent})
  }

  /** The money an event brings in from outside. */
  function Injected(e: Economy, event: Event): real {
    match event
    case Customers(requests) => RevenueOf(e, requests)
    case Rewards(winners) => CreditsOf(e, winners)
    case _ => 0.0
  }

  lemma StepSound(e: Economy, event: Event)
    requires EconomyOk(e)
    ensures EconomyOk(Step(e, event)) && MoneySupply(Step(e, event)) == MoneySupply(e) + Injected(e, event)
  {
    match event
    case Tick(arrivals) => TickSound(e, arrivals);
    case Customers(requests) => ConsumeAllSound(e, requests);
    case Rewards(winners) => CreditSound(e, winners);
    case _ => OthersIrrelevant(e, Step(e, event));
  }

  ghost function Run(e: Economy, events: seq<Event>): (r: Economy)
    requires EconomyOk(e)
    ensures EconomyOk(r)
  {
    if events == [] then e
    else
      var before := Run(e, events[..|events| - 1]);
      OkStockable(before);
      StepSound(before, events[|events| - 1]);
      Step(before, events[|events| - 1])
  }

  ghost function InjectedBy(e: Economy, events: seq<Event>): real
    requires EconomyOk(e)
  {
    if events == [] then 0.0
    else InjectedBy(e, events[..|events| - 1]) + Injected(Run(e, events[..|events| - 1]), events[|events| - 1])
  }

  /** Over any run the money supply is what it was plus the block rewards of known winners plus what
      end customers paid, and every state on the way is in bounds. */
  lemma {:induction false} RunAccounts(e: Economy, events: seq<Event>)
    requires EconomyOk(e)
    ensures MoneySupply(Run(e, events)) == MoneySupply(e) + InjectedBy(e, events)
    ensures EconomyOk(Run(e, events))
  {
    if events != [] {
      var last := |events| - 1;
      RunAccounts(e, events[..last]);
      OkStockable(Run(e, events[..last]));
      StepSound(Run(e, events[..last]), events[last]);
    }
  }

  /** One block won by the one agent of a built market adds ten coins to its money supply. */
  lemma RewardAddsMoney(nodes: seq<int>, seed: int)
    ensures var e := NewEconomy(nodes, 1, seed);
      EconomyOk(e) && MoneySupply(Run(e, [Rewards([0])])) == MoneySupply(e) + 10.0
  {
    hide EconomyOk, MoneySupply, NewCities;
    var e := NewEconomy(nodes, 1, seed);
    BuiltOk(nodes, 1, seed);
    var winners := [0];
    CreditSound(e, winners);
    assert winners[..0] == [];
    assert e.wallets[0].0 == 0;
    assert CreditsOf(e, winners) == CreditsOf(e, []) + BLOCK_REWARD;
    var events := [Rewards(winners)];
    assert events[..0] == [] && Run(e, []) == e;
    assert Run(e, events) == Step(e, events[0]);
  }

  // ---------- what the demand model counts ----------

  /** The units of these requests that were asked for, that were served, and that were not. */
  function Asked(requests: seq<Request>, wanted: Request -> bool): int {
    if requests == [] then 0
    else
      var q := requests[|requests| - 1];
      Asked(requests[..|requests| - 1], wanted) + if wanted(q) then Max(0, q.quantity) else 0
  }

  function ServedUnits(e: Economy, requests: seq<Request>, wanted: Request -> bool): int {
    if requests == [] then 0
    else
      var front, q := requests[..|requests| - 1], requests[|requests| - 1];
      ServedUnits(e, front, wanted) + if wanted(q) then Consumed(ConsumeAll(e, front), q) else 0
  }

  /** Over a tick the counters grow by what was asked for and what was served, the product's counters by
      that of the product, and the backlog of a city and product by what was asked for there and not
      served; a request is never served more than it asked for. */
  lemma {:induction false} CountersAccount(e: Economy, k: Counters, requests: seq<Request>, city: int, product: int)
    requires EconomyOk(e)
    ensures var r := CountAll(e, k, requests);
      var here := (q: Request) => q.city == city && q.product == product;
      var ofProduct, any := (q: Request) => q.product == product, (q: Request) => true;
      && r.requested == k.requested + Asked(requests, any) && r.served == k.served + ServedUnits(e, requests, any)
      && At(r.requestedOf, product) == At(k.requestedOf, product) + Asked(requests, ofProduct)
      && At(r.servedOf, product) == At(k.servedOf, product) + ServedUnits(e, requests, ofProduct)
      && At(r.backlog, (city, product))
         == At(k.backlog, (city, product)) + Asked(requests, here) - ServedUnits(e, requests, here)
      && 0 <= ServedUnits(e, requests, here) <= Asked(requests, here)
  {
    hide Consumed, ConsumeAll, EconomyOk;
    if requests != [] {
      var front, q := requests[..|requests| - 1], requests[|requests| - 1];
      CountersAccount(e, k, front, city, product);
      ConsumedBounds(e, front, q);
    }
  }

  lemma ConsumedBounds(e: Economy, front: seq<Request>, q: Request)
    requires EconomyOk(e)
    ensures 0 <= Consumed(ConsumeAll(e, front), q) <= Max(0, q.quantity)
  {
    ConsumeAllSound(e, front);
    var r := ConsumeAll(e, front);
    var i := Find(r.cities, q.city);
    if i < |r.cities| {
      hide ConsumeAll, Get, WalletOk, Units, Limit;
      StockGet(r.cities[i].1.stock, r.cities[i].1.maxInventory, q.product);
    }
  }
}
