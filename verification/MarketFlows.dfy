/** Who trades, who is rewarded and what end customers take: the flows of the market, agent by agent and
    shelf by shelf. */
module MarketFlows {
  import opened ModArith
  import opened Bytes
  import opened Collections
  import opened Market
  import opened MarketTheorems
  import opened MarketTrades

  // ---------- end customers ----------

  function PriceOf(e: Economy, node: int, product: int): real {
    var i := Find(e.cities, node);
    if i < |e.cities| then Get(e.cities[i].1.ask, product, 0.0) else 0.0
  }

  /** What a request asks of a shelf. */
  function AskedOf(q: Request, node: int, product: int): (r: int)
    ensures r >= 0
  {
    if q.city == node && q.product == product then Max(0, q.quantity) else 0
  }

  function AskedHere(requests: seq<Request>, node: int, product: int): int {
    if requests == [] then 0
    else AskedHere(requests[..|requests| - 1], node, product) + AskedOf(requests[|requests| - 1], node, product)
  }

  lemma ConsumedIsShelf(e: Economy, q: Request)
    requires EconomyOk(e)
    ensures Consumed(e, q) == Min(Max(0, q.quantity), ShelfOf(e, q.city, q.product)) >= 0
  {
    hide Get, WalletOk, Units, Limit, CityOk;
    var i := Find(e.cities, q.city);
    if i < |e.cities| { ShelfBounds(e.cities[i].1, q.product); }
  }

  /** A request takes from its shelf what it asks for, as far as that is there, pays the asking price for it
      into the treasury of the city, and touches nothing else. */
  lemma RequestExactly(e: Economy, q: Request, node: int, product: int)
    requires EconomyOk(e)
    ensures var r := ConsumeOne(e, q);
      && r.wallets == e.wallets
      && ShelfOf(r, node, product)
         == ShelfOf(e, node, product) - Min(AskedOf(q, node, product), ShelfOf(e, node, product))
      && TreasuryOf(r, node)
         == TreasuryOf(e, node)
          + Cost(PriceOf(e, node, q.product), Min(AskedOf(q, node, q.product), ShelfOf(e, node, q.product)))
      && PriceOf(r, node, product) == PriceOf(e, node, product)
      && 0 <= ShelfOf(e, node, product)
  {
    hide Get, Put, EconomyOk, WalletOk, Units, Limit, CityOk, Cost, Consumed;
    ConsumedIsShelf(e, q);
    ShelfNonNegative(e, node, product);
    ShelfNonNegative(e, node, q.product);
    CostOfNone(PriceOf(e, node, q.product));
    var i := Find(e.cities, q.city);
    if i < |e.cities| && Consumed(e, q) > 0 {
      var c := e.cities[i].1;
      EconomyParts(e);
      CityCatalogued(c);
      var left := Max(0, Get(c.stock, q.product, 0) - Consumed(e, q));
      PutGets(c.stock, q.product, left);
      FindReplaced(e.cities, i, Served(e, q), node);
      CostMeans(Get(c.ask, q.product, 0.0), Consumed(e, q));
    }
  }

  lemma CostOfNone(price: real)
    ensures Cost(price, 0) == 0.0
  {}

  lemma ShelfNonNegative(e: Economy, node: int, product: int)
    requires EconomyOk(e)
    ensures ShelfOf(e, node, product) >= 0
  {
    hide CityOk, WalletOk, Units, Limit, Get;
    var i := Find(e.cities, node);
    if i < |e.cities| { ShelfBounds(e.cities[i].1, product); }
  }

  /** The customers of a tick leave of each shelf what they did not ask for, no more and no less; what they
      asked for beyond it is added to the backlog. */
  lemma {:induction false} CustomersExactly(e: Economy, k: Counters, requests: seq<Request>, node: int, product: int)
    requires EconomyOk(e)
    ensures var r, shelf, asked :=
      ConsumeAll(e, requests), ShelfOf(e, node, product), AskedHere(requests, node, product);
      && EconomyOk(r) && r.wallets == e.wallets && asked >= 0
      && ShelfOf(r, node, product) == Max(0, shelf - asked)
      && At(CountAll(e, k, requests).backlog, (node, product))
         == At(k.backlog, (node, product)) + Max(0, asked - shelf)
  {
    hide EconomyOk, Consumed, ShelfOf, MoneySupply, TreasuryOf, ConsumeOne, CountOne, AskedOf, PriceOf, Cost, At;
    ConsumeAllSound(e, requests);
    ShelfNonNegative(e, node, product);
    if requests != [] {
      var front, q := requests[..|requests| - 1], requests[|requests| - 1];
      CustomersExactly(e, k, front, node, product);
      var before := ConsumeAll(e, front);
      RequestExactly(before, q, node, product);
      ConsumedIsShelf(before, q);
      BacklogStep(before, CountAll(e, k, front), q, node, product);
    }
  }

  lemma BacklogStep(e: Economy, k: Counters, q: Request, node: int, product: int)
    requires Consumed(e, q) == Min(Max(0, q.quantity), ShelfOf(e, q.city, q.product)) >= 0
    requires ShelfOf(e, node, product) >= 0
    ensures At(CountOne(e, k, q).backlog, (node, product))
         == At(k.backlog, (node, product)) + Max(0, AskedOf(q, node, product) - ShelfOf(e, node, product))
  {
    hide Consumed, ShelfOf;
  }

  // ---------- rewards ----------

  function Rewarded(times: nat, reward: real): real {
    times as real * reward
  }

  /** A winner who is known gets one reward for each time it is listed, and nobody else gets anything. */
  lemma {:induction false} RewardsExactly(e: Economy, winners: seq<int>, agent: int, product: int)
    ensures var r := CreditAll(e, winners);
      && r.blockReward == e.blockReward && r.cities == e.cities
      && (Find(r.wallets, agent) < |r.wallets| <==> Find(e.wallets, agent) < |e.wallets|)
      && GoodsOf(r, agent, product) == GoodsOf(e, agent, product)
      && CoinsOf(r, agent) == CoinsOf(e, agent)
         + if Find(e.wallets, agent) < |e.wallets| then Rewarded(multiset(winners)[agent], e.blockReward) else 0.0
  {
    hide Get, Find, Rewarded;
    if winners == [] {
      NoReward(e.blockReward);
    } else {
      var front, winner := winners[..|winners| - 1], winners[|winners| - 1];
      RewardsExactly(e, front, agent, product);
      RewardStep(CreditAll(e, front), winner, agent, product);
      assert winners == front + [winner];
      OneMoreReward(multiset(front)[agent], e.blockReward);
    }
  }

  lemma NoReward(reward: real)
    ensures Rewarded(0, reward) == 0.0
  {}

  lemma OneMoreReward(times: nat, reward: real)
    ensures Rewarded(times + 1, reward) == Rewarded(times, reward) + reward
  {}

  lemma RewardStep(e: Economy, winner: int, agent: int, product: int)
    ensures var r := CreditOne(e, winner);
      && r.blockReward == e.blockReward && r.cities == e.cities
      && (Find(r.wallets, agent) < |r.wallets| <==> Find(e.wallets, agent) < |e.wallets|)
      && GoodsOf(r, agent, product) == GoodsOf(e, agent, product)
      && CoinsOf(r, agent) == CoinsOf(e, agent)
         + if agent == winner && Find(e.wallets, agent) < |e.wallets| then e.blockReward else 0.0
  {
    hide Get, Find;
    var i := Find(e.wallets, winner);
    if i < |e.wallets| {
      FindReplaced(e.wallets, i, e.wallets[i].1.(coins := e.wallets[i].1.coins + e.blockReward), agent);
    }
  }

  // ---------- every product has its turn ----------

  lemma LastSale(w: Wallet, c: City, luck: Luck, n: nat, at: Spot) returns (last: seq<TradeRecord>)
    requires AllCatalogued(c) && 0 < n <= |w.goods|
    ensures last == SaleRecord(SellAll(w, c, luck, n - 1).1, w.goods[n - 1].0, w.goods[n - 1].1,
                               luck.sell(w.goods[n - 1].0), at)
    ensures SaleRecords(w, c, luck, n, at) == SaleRecords(w, c, luck, n - 1, at) + last
  {
    hide SaleRecord, SellAll;
    var (product, owned) := w.goods[n - 1];
    last := SaleRecord(SellAll(w, c, luck, n - 1).1, product, owned, luck.sell(product), at);
  }

  lemma {:induction false} SaleTurn(w: Wallet, c: City, luck: Luck, k: nat, n: nat, at: Spot)
    returns (after: seq<TradeRecord>)
    requires AllCatalogued(c) && k < n <= |w.goods|
    ensures SaleRecords(w, c, luck, n, at)
         == SaleRecords(w, c, luck, k, at)
          + SaleRecord(SellAll(w, c, luck, k).1, w.goods[k].0, w.goods[k].1, luck.sell(w.goods[k].0), at) + after
    decreases n
  {
    hide SaleRecord, SellAll, SaleRecords;
    var last := LastSale(w, c, luck, n, at);
    if k == n - 1 {
      after := [];
    } else {
      var rest := SaleTurn(w, c, luck, k, n - 1, at);
      after := rest + last;
    }
  }

  lemma LastPurchase(w: Wallet, c: City, cargo: Option<Dict<int>>, luck: Luck, n: nat, at: Spot)
    returns (last: seq<TradeRecord>)
    requires AllCatalogued(c) && 0 < n <= |c.stocked|
    ensures var turn := BuyAll(w, c, cargo, at.agent, luck, n - 1);
      last == PurchaseRecord(turn.0, turn.1, c.stocked[n - 1], cargo, at.agent, luck.buy(c.stocked[n - 1]), at)
    ensures PurchaseRecords(w, c, cargo, at.agent, luck, n, at)
         == PurchaseRecords(w, c, cargo, at.agent, luck, n - 1, at) + last
  {
    hide PurchaseRecord, BuyAll;
    var before, product := BuyAll(w, c, cargo, at.agent, luck, n - 1), c.stocked[n - 1];
    last := PurchaseRecord(before.0, before.1, product, cargo, at.agent, luck.buy(product), at);
  }

  lemma {:induction false} PurchaseTurn(
      w: Wallet, c: City, cargo: Option<Dict<int>>, luck: Luck, k: nat, n: nat, at: Spot)
    returns (after: seq<TradeRecord>)
    requires AllCatalogued(c) && k < n <= |c.stocked|
    ensures var turn := BuyAll(w, c, cargo, at.agent, luck, k);
      PurchaseRecords(w, c, cargo, at.agent, luck, n, at)
      == PurchaseRecords(w, c, cargo, at.agent, luck, k, at)
       + PurchaseRecord(turn.0, turn.1, c.stocked[k], cargo, at.agent, luck.buy(c.stocked[k]), at) + after
    decreases n
  {
    hide PurchaseRecord, BuyAll, PurchaseRecords;
    var last := LastPurchase(w, c, cargo, luck, n, at);
    if k == n - 1 {
      after := [];
    } else {
      var rest := PurchaseTurn(w, c, cargo, luck, k, n - 1, at);
      after := rest + last;
    }
  }

  /** Each good of an arriving agent is offered once, in order, in the state that the trades before left: what
      comes of it stands among the trades of the visit. */
  lemma EveryGoodOffered(w: Wallet, c: City, cargo: Option<Dict<int>>, luck: Luck, at: Spot, k: nat)
    returns (before: seq<TradeRecord>, w1: Wallet, c1: City, after: seq<TradeRecord>)
    requires WalletOk(w) && CityOk(c) && AllCatalogued(c) && k < |w.goods|
    ensures WalletOk(w1) && CityOk(c1) && AllCatalogued(c1) && SameTerms(c1, c)
    ensures Reconciles(w, c, w1, c1, before, at) && Get(w1.goods, w.goods[k].0, 0) == w.goods[k].1
    ensures TradeRecords(w, c, cargo, luck, at)
         == before + SaleRecord(c1, w.goods[k].0, w.goods[k].1, luck.sell(w.goods[k].0), at) + after
  {
    hide Reconciles, WalletOk, CityOk, SellAll, BuyAll, SaleRecords, PurchaseRecords, SaleRecord, SameTerms, Get;
    var rest := SaleTurn(w, c, luck, k, |w.goods|, at);
    SalesReconcile(w, c, luck, k, at);
    SellAllConserves(w, c, luck, k);
    SellKeepsTerms(w, c, luck, k);
    var turn, sold := SellAll(w, c, luck, k), SellAll(w, c, luck, |w.goods|);
    CityCatalogued(turn.1);
    before, w1, c1 := SaleRecords(w, c, luck, k, at), turn.0, turn.1;
    after := rest + PurchaseRecords(sold.0, sold.1, cargo, at.agent, luck, |c.stocked|, at);
  }

  /** Each stocked product is tried once, in order and after all sales, in the same way. */
  lemma EveryProductTried(w: Wallet, c: City, cargo: Option<Dict<int>>, luck: Luck, at: Spot, k: nat)
    returns (before: seq<TradeRecord>, w1: Wallet, c1: City, after: seq<TradeRecord>)
    requires WalletOk(w) && CityOk(c) && AllCatalogued(c) && k < |c.stocked|
    ensures WalletOk(w1) && CityOk(c1) && SameTerms(c1, c) && Reconciles(w, c, w1, c1, before, at)
    ensures TradeRecords(w, c, cargo, luck, at)
         == before + PurchaseRecord(w1, c1, c.stocked[k], cargo, at.agent, luck.buy(c.stocked[k]), at) + after
  {
    hide Reconciles, WalletOk, CityOk, SellAll, BuyAll, SaleRecords, PurchaseRecords, PurchaseRecord;
    SalesReconcile(w, c, luck, |w.goods|, at);
    SellAllConserves(w, c, luck, |w.goods|);
    SellKeepsTerms(w, c, luck, |w.goods|);
    var sold := SellAll(w, c, luck, |w.goods|);
    CityCatalogued(sold.1);
    after := PurchaseTurn(sold.0, sold.1, cargo, luck, k, |c.stocked|, at);
    PurchasesReconcile(sold.0, sold.1, cargo, luck, k, at);
    BuyAllConserves(sold.0, sold.1, cargo, at.agent, luck, k);
    BuyKeepsTerms(sold.0, sold.1, cargo, at.agent, luck, k);
    var turn := BuyAll(sold.0, sold.1, cargo, at.agent, luck, k);
    w1, c1 := turn.0, turn.1;
    var sales, some := SaleRecords(w, c, luck, |w.goods|, at),
      PurchaseRecords(sold.0, sold.1, cargo, at.agent, luck, k, at);
    before := sales + some;
    ReconcilesThen(w, c, sold.0, sold.1, w1, c1, sales, some, at);
  }

  // ---------- who trades ----------

  /** The agent was seen before, at another node. */
  predicate Came(e: Economy, a: Arrival) {
    Get(e.previous, a.agent, a.node) != a.node
  }

  predicate Known(e: Economy, a: Arrival) {
    Find(e.cities, a.node) < |e.cities| && Find(e.wallets, a.agent) < |e.wallets|
  }

  /** Nothing is traded by an agent that did not come from elsewhere, is blocked or unknown, or reaches an
      unknown node; a blocked one that came is counted, and where each agent is gets noted in any case. */
  lemma ArrivalOutcome(e: Economy, a: Arrival, tick: int, agent: int)
    requires Stockable(e)
    ensures var r := Settle(e, a);
      && r.blocked == e.blocked && r.regime == e.regime && r.cargo == e.cargo && r.blockReward == e.blockReward
      && (!Came(e, a) || a.agent in e.blocked || !Known(e, a) ==>
            r.wallets == e.wallets && r.cities == e.cities && SettleRecords(e, a, tick) == [])
      && (Came(e, a) && a.agent !in e.blocked && Known(e, a) ==>
            SettleRecords(e, a, tick) == TradeRecords(e.wallets[Find(e.wallets, a.agent)].1,
              e.cities[Find(e.cities, a.node)].1, e.cargo, a.luck, Spot(tick, a.agent, a.node)))
      && r.blockedAttempts == e.blockedAttempts + (if Came(e, a) && a.agent in e.blocked then 1 else 0)
      && (forall default ::
            Get(r.previous, agent, default) == if agent == a.agent then a.node else Get(e.previous, agent, default))
  {
    hide Trade, TradeRecords;
    forall default
      ensures Get(Put(e.previous, a.agent, a.node), agent, default)
           == if agent == a.agent then a.node else Get(e.previous, agent, default)
    {
      PutGetAny(e.previous, a.agent, a.node, agent, default);
    }
  }

  /** A dictionary after a change, whether or not its keys were distinct. */
  lemma PutGetAny<V>(d: Dict<V>, key: int, value: V, k: int, default: V)
    ensures Get(Put(d, key, value), k, default) == if k == key then value else Get(d, k, default)
  {
    var i := Find(d, key);
    if i < |d| {
      FindReplaced(d, i, value, k);
    } else {
      FindAppended(d, key, value, k);
    }
  }

  lemma {:induction false} FindAppended<V>(d: Dict<V>, key: int, value: V, k: int)
    requires Find(d, key) == |d|
    ensures Find(d + [(key, value)], k) == if k == key then |d| else if Find(d, k) < |d| then Find(d, k) else |d| + 1
  {
    if d == [] {
      assert d + [(key, value)] == [(key, value)];
    } else {
      assert (d + [(key, value)])[1..] == d[1..] + [(key, value)];
      if d[0].0 != k { FindAppended(d[1..], key, value, k); }
    }
  }

  /** A trade of this tick by an agent that came to its node and is not blocked. */
  ghost predicate MadeBy(t: TradeRecord, e: Economy, arrivals: seq<Arrival>, tick: int) {
    && t.tick == tick && t.agent !in e.blocked
    && exists a :: a in arrivals && a.agent == t.agent && a.node == t.node && Came(e, a)
  }

  /** No agent is listed twice. */
  ghost predicate OncePerAgent(arrivals: seq<Arrival>) {
    forall i, j :: 0 <= i < j < |arrivals| ==> arrivals[i].agent != arrivals[j].agent
  }

  /** How many blocked agents came to a node. */
  function Gated(e: Economy, arrivals: seq<Arrival>): nat {
    if arrivals == [] then 0
    else
      var a := arrivals[|arrivals| - 1];
      Gated(e, arrivals[..|arrivals| - 1]) + if Came(e, a) && a.agent in e.blocked then 1 else 0
  }

  lemma {:induction false} SettledKeeps(e: Economy, arrivals: seq<Arrival>, agent: int)
    requires Stockable(e) && OncePerAgent(arrivals) && forall a :: a in arrivals ==> a.agent != agent
    ensures SettleAll(e, arrivals).blocked == e.blocked
    ensures forall default :: Get(SettleAll(e, arrivals).previous, agent, default) == Get(e.previous, agent, default)
  {
    hide Settle, Get;
    if arrivals != [] {
      var front, a := arrivals[..|arrivals| - 1], arrivals[|arrivals| - 1];
      SettledKeeps(e, front, agent);
      ArrivalOutcome(SettleAll(e, front), a, 0, agent);
      assert a in arrivals;
    }
  }

  lemma SettleMadeBy(e: Economy, start: Economy, a: Arrival, arrivals: seq<Arrival>, tick: int)
    requires EconomyOk(e) && e.blocked == start.blocked && a in arrivals && Came(e, a) == Came(start, a)
    ensures Stockable(e) && forall t :: t in SettleRecords(e, a, tick) ==> MadeBy(t, start, arrivals, tick)
  {
    hide EconomyOk, WalletOk, CityOk, TradeRecords, Came, Find, MadeAt, Reconciles;
    OkStockable(e);
    EconomyParts(e);
    ArrivalOutcome(e, a, tick, a.agent);
    var ci, wi := Find(e.cities, a.node), Find(e.wallets, a.agent);
    if SettleRecords(e, a, tick) != [] {
      var at, w, c := Spot(tick, a.agent, a.node), e.wallets[wi].1, e.cities[ci].1;
      CityCatalogued(c);
      VisitReconciles(w, c, e.cargo, a.luck, at);
      MadeAtEach(SettleRecords(e, a, tick), at);
    }
  }

  lemma MadeAtEach(trades: seq<TradeRecord>, at: Spot)
    requires MadeAt(trades, at)
    ensures forall t :: t in trades ==> t.tick == at.tick && t.agent == at.agent && t.node == at.node
  {}

  lemma {:induction false} ArrivalsMadeBy(e: Economy, arrivals: seq<Arrival>, tick: int)
    requires EconomyOk(e) && OncePerAgent(arrivals)
    ensures Stockable(e) && forall t :: t in AllRecords(e, arrivals, tick) ==> MadeBy(t, e, arrivals, tick)
    ensures SettleAll(e, arrivals).blockedAttempts == e.blockedAttempts + Gated(e, arrivals)
    ensures SettleAll(e, arrivals).blocked == e.blocked
  {
    hide EconomyOk, Settle, SettleRecords, Get, MoneySupply;
    OkStockable(e);
    if arrivals != [] {
      var front, a := arrivals[..|arrivals| - 1], arrivals[|arrivals| - 1];
      ArrivalsMadeBy(e, front, tick);
      SettleAllSound(e, front);
      SettledKeeps(e, front, a.agent);
      var before := SettleAll(e, front);
      ArrivalOutcome(before, a, tick, a.agent);
      assert a in arrivals;
      SettleMadeBy(before, e, a, arrivals, tick);
      forall t | t in AllRecords(e, front, tick) ensures MadeBy(t, e, arrivals, tick) {
        assert MadeBy(t, e, front, tick);
      }
    }
  }

  /** Every trade of a tick is made by an agent that came to the node from elsewhere and is not blocked.
      Blocked agents keep their coins and goods, and each one that came is counted. */
  lemma TickTraders(e: Economy, arrivals: seq<Arrival>, tick: int, agent: int, product: int)
    requires EconomyOk(e) && OncePerAgent(arrivals)
    ensures Stockable(e) && forall t :: t in TickRecords(e, arrivals, tick) ==> MadeBy(t, e, arrivals, tick)
    ensures TickStep(e, arrivals).blockedAttempts == e.blockedAttempts + Gated(e, arrivals)
    ensures agent in e.blocked ==>
      CoinsOf(TickStep(e, arrivals), agent) == CoinsOf(e, agent)
      && GoodsOf(TickStep(e, arrivals), agent, product) == GoodsOf(e, agent, product)
  {
    hide EconomyOk, SettleAll, AllRecords, CoinsOf, GoodsOf, TreasuryOf, ShelfOf, CapOf, MadeOf, ShelfAfter, Get;
    OkStockable(e);
    RefreshedOk(e);
    var refreshed := e.(cities := RefreshAll(e.cities, e.regime));
    ArrivalsMadeBy(refreshed, arrivals, tick);
    SameGated(e, refreshed, arrivals);
    var trades := TickRecords(e, arrivals, tick);
    forall t | t in trades ensures MadeBy(t, e, arrivals, tick) {
      assert MadeBy(t, refreshed, arrivals, tick);
      var a :| a in arrivals && a.agent == t.agent && a.node == t.node && Came(refreshed, a);
      assert Came(e, a);
    }
    if agent in e.blocked {
      TickReconciles(e, arrivals, tick, agent, 0, product);
      NotTheirs(trades, agent, product);
    }
  }

  lemma {:induction false} SameGated(e: Economy, r: Economy, arrivals: seq<Arrival>)
    requires e.previous == r.previous && e.blocked == r.blocked
    ensures Gated(e, arrivals) == Gated(r, arrivals)
  {
    hide Get;
    if arrivals != [] {
      SameGated(e, r, arrivals[..|arrivals| - 1]);
    }
  }

  lemma {:induction false} NotTheirs(trades: seq<TradeRecord>, agent: int, product: int)
    requires forall t :: t in trades ==> t.agent != agent
    ensures Receipts(trades, agent) == 0.0 && Gained(trades, agent, product) == 0
  {
    if trades != [] {
      assert trades[|trades| - 1] in trades;
      NotTheirs(trades[..|trades| - 1], agent, product);
    }
  }

  // ---------- the generator behind the assortments ----------

  /** The generator's state n draws after s. */
  function StateAfter(s: nat, n: nat): nat {
    if n == 0 then s else (StateAfter(s, n - 1) * 1664525 + 1013904223) % WORD
  }

  /** No two states of one word have the same successor: 4276115653 undoes the multiplier. */
  lemma GeneratorInjective(s: nat, t: nat)
    requires s < WORD && t < WORD && NextRandom(s) == NextRandom(t)
    ensures s == t
  {
    var a, b := (s * 1664525 + 1013904223) / WORD, (t * 1664525 + 1013904223) / WORD;
    assert (s - t) * 1664525 == (a - b) * WORD;
    assert 4276115653 * 1664525 == 1 + 1657219 * WORD;
    assert s - t == (4276115653 * (a - b) - 1657219 * (s - t)) * WORD;
  }

  lemma {:induction false} ShuffledState(s: nat, n: nat)
    requires n <= CATALOGUE
    ensures Shuffled(s, n).0 == StateAfter(s, n)
  {
    hide Pick;
    if n > 0 {
      ShuffledState(s, n - 1);
    }
  }

  /** A position already drawn is not touched again. */
  lemma {:induction false} DrawnStays(s: nat, i: nat, n: nat)
    requires i < n <= CATALOGUE
    ensures Shuffled(s, n).1[i] == Shuffled(s, i + 1).1[i]
    decreases n
  {
    hide NextRandom;
    if n > i + 1 {
      DrawnStays(s, i, n - 1);
    }
  }

  /** The products of a city are drawn from the catalogue without replacement: the i-th is the one that stands at
      the place the generator points to, among those not drawn before. */
  lemma EachDraw(s: nat, i: nat)
    requires i < ITEMS_PER_CITY
    ensures Assortment(s)[i] == Shuffled(s, i).1[i + StateAfter(s, i + 1) % (CATALOGUE - i)]
    ensures i == 0 ==> Assortment(s)[i] == StateAfter(s, 1) % CATALOGUE
  {
    hide NextRandom;
    DrawnStays(s, i, ITEMS_PER_CITY);
    ShuffledState(s, i + 1);
  }

  lemma WordIsPower()
    ensures Pow(2, 32) == WORD
  {
    assert Pow(2, 4) == 16;
    PowAdd(2, 4, 4);
    PowAdd(2, 8, 8);
    PowAdd(2, 16, 16);
  }

  /** A node starts from the exclusive or of the seed and its id, times a constant, cut to words: mixing it in a
      second time gives the seed back, and a market's seed starts different nodes differently. */
  lemma MixExactly(seed: int, node: int, other: int)
    ensures XorBits(Mix(seed, node), (node * 2654435761) % WORD, 32) == seed % WORD
    ensures Mix(seed, node) == Mix(seed, other) <==> node % WORD == other % WORD
  {
    hide XorBits, Pow;
    WordIsPower();
    var a, b, c := seed % WORD, (node * 2654435761) % WORD, (other * 2654435761) % WORD;
    XorBitsTwice(a, b, 32);
    if XorBits(a, b, 32) == XorBits(a, c, 32) {
      XorBitsCancel(a, b, c, 32);
      MultiplierUndone(node, other);
    }
    if node % WORD == other % WORD { MultiplierSame(node, other); }
  }

  /** 244002641 undoes the multiplier of the node's id. */
  lemma MultiplierUndone(x: int, y: int)
    requires (x * 2654435761) % WORD == (y * 2654435761) % WORD
    ensures x % WORD == y % WORD
  {
    var a, b := x * 2654435761 / WORD, y * 2654435761 / WORD;
    assert (x - y) * 2654435761 == (a - b) * WORD;
    assert 244002641 * 2654435761 == 1 + 150801925 * WORD;
    assert x - y == (244002641 * (a - b) - 150801925 * (x - y)) * WORD;
    CongIntro(x, y, 244002641 * (a - b) - 150801925 * (x - y), WORD);
  }

  lemma MultiplierSame(x: int, y: int)
    requires x % WORD == y % WORD
    ensures (x * 2654435761) % WORD == (y * 2654435761) % WORD
  {
    CongReflexive(2654435761, WORD);
    CongMul(x, y, 2654435761, 2654435761, WORD);
  }
}
