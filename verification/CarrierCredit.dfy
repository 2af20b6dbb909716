/** Carrier rewards: the order book that records fulfilments in a bounded window, and the reward
    shaper that pays a bonus for the entries of the window it has not seen, charges a penalty for
    assignments that stay pending, and shares a fill-rate bonus once an episode. */
module CarrierCredit {
  import opened Collections

  const FULFILLED_CAP := 4096
  const REWARDS_CAP := 200

  datatype Order = Order(
    id: nat, city: int, product: int, quantity: int, placedTick: int, reward: real,
    assignedTo: Option<int>, assignedTick: Option<int>, fulfilledTick: Option<int>, fulfilledBy: Option<int>)

  datatype BookState = BookState(
    pending: seq<Order>, fulfilled: seq<Order>, nextId: nat, recent: seq<(int, real)>, lastTick: int, total: nat)

  /** How far on the book's counter the shaper is, and the step at which it first saw each assignment. */
  datatype ShaperState = ShaperState(consumed: nat, tick: nat, firstSeen: map<nat, nat>, terminalPaid: bool)

  datatype Weights = Weights(dispatchBonus: real, dispatchPenalty: real, fillRateBonus: real)

  datatype Demand = Demand(served: int, requested: int)

  function NewBook(): BookState {
    BookState([], [], 0, [], -1, 0)
  }

  /** A deque of a given maximal length drops its oldest entry when it is full. */
  function Push<T>(s: seq<T>, cap: nat, x: T): seq<T>
    requires cap > 0 && |s| <= cap
  {
    if |s| == cap then s[1..] + [x] else s + [x]
  }

  predicate WithinCaps(b: BookState) {
    |b.fulfilled| <= FULFILLED_CAP && |b.recent| <= REWARDS_CAP
  }

  function PlaceStep(
      b: BookState, city: int, product: int, quantity: int, tick: int, reward: real, assignedTo: Option<int>)
    : (BookState, Order)
  {
    var assignedTick := if assignedTo.Some? then Some(tick) else None;
    var order := Order(b.nextId, city, product, quantity, tick, reward, assignedTo, assignedTick, None, None);
    (b.(nextId := b.nextId + 1, pending := b.pending + [order]), order)
  }

  /** The first pending order with this id from position i on, or the number of pending orders. */
  function Locate(pending: seq<Order>, id: int, i: nat): (r: nat)
    requires i <= |pending|
    ensures i <= r <= |pending| && (r < |pending| ==> pending[r].id == id)
    ensures forall k :: i <= k < r ==> pending[k].id != id
    decreases |pending| - i
  {
    if i == |pending| || pending[i].id == id then i else Locate(pending, id, i + 1)
  }

  /** Agent -1 is the phantom carrier, which earns nothing. */
  function FulfilStep(b: BookState, id: int, agent: int, tick: int): (BookState, Option<Order>)
    requires WithinCaps(b)
  {
    var i := Locate(b.pending, id, 0);
    if i == |b.pending| then (b, None)
    else
      var o := b.pending[i].(fulfilledTick := Some(tick), fulfilledBy := Some(agent));
      var moved := b.(pending := b.pending[..i] + b.pending[i + 1..], fulfilled := Push(b.fulfilled, FULFILLED_CAP, o));
      if agent == -1 then (moved, Some(o))
      else (moved.(recent := Push(b.recent, REWARDS_CAP, (agent, o.reward)), lastTick := tick, total := b.total + 1),
        Some(o))
  }

  // ---------- the shaper ----------

  function NewShaper(): ShaperState {
    ShaperState(0, 0, map[], false)
  }

  /** The newest entries of the window, as many as were added since the last step and are still there. */
  function Unseen(b: BookState, consumed: nat): (r: seq<(int, real)>)
    ensures |r| <= |b.recent|
  {
    var added := if b.total > consumed then b.total - consumed else 0;
    var take := if added < |b.recent| then added else |b.recent|;
    b.recent[|b.recent| - take..]
  }

  function ZeroRewards(agents: seq<int>): map<int, real> {
    map a | a in agents :: 0.0
  }

  /** Each entry pays the bonus to its agent, if the agent is real and takes part. */
  function Credited(rewards: map<int, real>, entries: seq<(int, real)>, bonus: real): (r: map<int, real>)
    ensures r.Keys == rewards.Keys
  {
    if entries == [] then rewards
    else
      var before := Credited(rewards, entries[..|entries| - 1], bonus);
      var agent := entries[|entries| - 1].0;
      if agent < 0 || agent !in before then before else before[agent := before[agent] + bonus]
  }

  function BonusStep(b: BookState, consumed: nat, bonus: real, rewards: map<int, real>): (r: map<int, real>)
    ensures r.Keys == rewards.Keys
  {
    if bonus == 0.0 then rewards else Credited(rewards, Unseen(b, consumed), bonus)
  }

  predicate Assigned(o: Order) {
    o.assignedTo.Some? && o.assignedTo.value >= 0
  }

  function AssignedIds(pending: seq<Order>): set<nat> {
    set o | o in pending && Assigned(o) :: o.id
  }

  /** The pending orders in turn: an assignment seen for the first time is noted, one seen before
      costs its agent the penalty. */
  function Scanned(pending: seq<Order>, seen: map<nat, nat>, tick: nat, penalty: real, rewards: map<int, real>)
    : (r: (map<nat, nat>, map<int, real>))
    ensures r.1.Keys == rewards.Keys
  {
    if pending == [] then (seen, rewards)
    else
      var (noted, charged) := Scanned(pending[..|pending| - 1], seen, tick, penalty, rewards);
      var o := pending[|pending| - 1];
      if !Assigned(o) then (noted, charged)
      else if o.id !in noted then (noted[o.id := tick], charged)
      else if penalty == 0.0 || o.assignedTo.value !in charged then (noted, charged)
      else (noted, charged[o.assignedTo.value := charged[o.assignedTo.value] - penalty])
  }

  /** The assignments still pending. */
  function Current(seen: map<nat, nat>, active: set<nat>): map<nat, nat> {
    map id | id in seen && id in active :: seen[id]
  }

  function Shared(rewards: map<int, real>, agents: seq<int>, share: real): (r: map<int, real>)
    requires forall k :: 0 <= k < |agents| ==> agents[k] in rewards
    ensures r.Keys == rewards.Keys
  {
    if agents == [] then rewards
    else
      var before := Shared(rewards, agents[..|agents| - 1], share);
      var agent := agents[|agents| - 1];
      before[agent := before[agent] + share]
  }

  /** Nothing is shared without a weight or without any request. */
  function FillRateShare(demand: Demand, bonus: real): Option<real> {
    if bonus == 0.0 || demand.requested <= 0 then None
    else Some(bonus * (demand.served as real / demand.requested as real))
  }

  /** One step of the shaper: the bonus and the penalty when there is a book, and the fill-rate
      bonus when the episode ends, there is a demand model and it was not given before. */
  function ShapeStep(book: Option<BookState>, demand: Option<Demand>, s: ShaperState, agents: seq<int>, terminal: bool,
                     weights: Weights): (ShaperState, map<int, real>)
  {
    var zero := ZeroRewards(agents);
    if book.None? && demand.None? then (s, zero)
    else
      var ticked := s.(tick := s.tick + 1);
      var (shaped, rewards) :=
        if book.None? then (ticked, zero)
        else
          var paid := BonusStep(book.value, s.consumed, weights.dispatchBonus, zero);
          var (noted, charged) := Scanned(book.value.pending, s.firstSeen, ticked.tick, weights.dispatchPenalty, paid);
          (ticked.(consumed := book.value.total, firstSeen := Current(noted, AssignedIds(book.value.pending))),
            charged);
      if terminal && demand.Some? && !s.terminalPaid then
        var share := FillRateShare(demand.value, weights.fillRateBonus);
        (shaped.(terminalPaid := true), if share.None? then rewards else Shared(rewards, agents, share.value))
      else (shaped, rewards)
  }

  // ---------- the objects ----------

  class LogisticsMempool {
    var pending: seq<Order>
    var fulfilled: seq<Order>
    var nextId: nat
    var recent: seq<(int, real)>
    var lastTick: int
    var total: nat

    function State(): BookState
      reads this
    {
      BookState(pending, fulfilled, nextId, recent, lastTick, total)
    }

    constructor ()
      ensures State() == NewBook()
    {
      pending, fulfilled, nextId, recent, lastTick, total := [], [], 0, [], -1, 0;
    }

    method Place(
        city: int, product: int, quantity: int, tick: int, reward: real, assignedTo: Option<int>)
      returns (order: Order)
      modifies this
      ensures (State(), order) == PlaceStep(old(State()), city, product, quantity, tick, reward, assignedTo)
    {
      var assignedTick := if assignedTo.Some? then Some(tick) else None;
      order := Order(nextId, city, product, quantity, tick, reward, assignedTo, assignedTick, None, None);
      nextId := nextId + 1;
      pending := pending + [order];
    }

    method Fulfil(id: int, agent: int, tick: int) returns (r: Option<Order>)
      requires WithinCaps(State())
      modifies this
      ensures (State(), r) == FulfilStep(old(State()), id, agent, tick)
    {
      var i := 0;
      while i < |pending| && pending[i].id != id
        invariant i <= |pending|
        invariant Locate(pending, id, i) == Locate(pending, id, 0)
      {
        i := i + 1;
      }
      if i == |pending| { return None; }
      var o := pending[i].(fulfilledTick := Some(tick), fulfilledBy := Some(agent));
      pending := pending[..i] + pending[i + 1..];
      fulfilled := Push(fulfilled, FULFILLED_CAP, o);
      if agent != -1 {
        recent := Push(recent, REWARDS_CAP, (agent, o.reward));
        lastTick := tick;
        total := total + 1;
      }
      return Some(o);
    }
  }

  class LogisticsRewardShaper {
    var consumed: nat
    var tick: nat
    var firstSeen: map<nat, nat>
    var terminalPaid: bool

    function State(): ShaperState
      reads this
    {
      ShaperState(consumed, tick, firstSeen, terminalPaid)
    }

    constructor ()
      ensures State() == NewShaper()
    {
      consumed, tick, firstSeen, terminalPaid := 0, 0, map[], false;
    }

    /** The position on the live book's counter survives a reset. */
    method Reset()
      modifies this
      ensures State() == NewShaper().(consumed := old(consumed))
    {
      firstSeen := map[];
      tick := 0;
      terminalPaid := false;
    }

    method Step(mempool: LogisticsMempool?, demand: Option<Demand>, agents: seq<int>, terminal: bool, weights: Weights)
      returns (rewards: map<int, real>)
      modifies this
      ensures var book := if mempool == null then None else Some(mempool.State());
        (State(), rewards) == ShapeStep(book, demand, old(State()), agents, terminal, weights)
    {
      rewards := ZeroRewards(agents);
      if mempool == null && demand.None? { return; }
      tick := tick + 1;
      if mempool != null {
        rewards := ApplyDispatchBonus(mempool, weights.dispatchBonus, rewards);
        rewards := ApplyDispatchPenalty(mempool, weights.dispatchPenalty, rewards);
      }
      if terminal && demand.Some? && !terminalPaid {
        rewards := ApplyFillRateBonus(demand.value, agents, weights.fillRateBonus, rewards);
        terminalPaid := true;
      }
    }

    method ApplyDispatchBonus(
        mempool: LogisticsMempool, bonus: real, before: map<int, real>)
      returns (rewards: map<int, real>)
      modifies this`consumed
      ensures consumed == mempool.total && rewards == BonusStep(mempool.State(), old(consumed), bonus, before)
    {
      rewards := before;
      var tail := Unseen(mempool.State(), consumed);
      consumed := mempool.total;
      if bonus == 0.0 || |tail| == 0 { return; }
      for i := 0 to |tail|
        invariant rewards == Credited(before, tail[..i], bonus)
      {
        assert tail[..i + 1][..i] == tail[..i];
        var agent := tail[i].0;
        if 0 <= agent && agent in rewards { rewards := rewards[agent := rewards[agent] + bonus]; }
      }
      assert tail[..|tail|] == tail;
    }

    method ApplyDispatchPenalty(mempool: LogisticsMempool, penalty: real, before: map<int, real>)
      returns (rewards: map<int, real>)
      modifies this`firstSeen
      ensures var (noted, charged) := Scanned(mempool.pending, old(firstSeen), tick, penalty, before);
        rewards == charged && firstSeen == Current(noted, AssignedIds(mempool.pending))
    {
      rewards := before;
      var active: set<nat> := {};
      ghost var pending, seen := mempool.pending, firstSeen;
      for i := 0 to |mempool.pending|
        invariant mempool.pending == pending
        invariant (firstSeen, rewards) == Scanned(pending[..i], seen, tick, penalty, before)
        invariant active == AssignedIds(pending[..i])
      {
        assert pending[..i + 1][..i] == pending[..i] && pending[..i + 1] == pending[..i] + [pending[i]];
        var o := mempool.pending[i];
        if Assigned(o) {
          active := active + {o.id};
          var agent := o.assignedTo.value;
          if o.id !in firstSeen {
            firstSeen := firstSeen[o.id := tick];
          } else if penalty != 0.0 && agent in rewards {
            rewards := rewards[agent := rewards[agent] - penalty];
          }
        }
      }
      assert pending[..|pending|] == pending;
      firstSeen := map id | id in firstSeen && id in active :: firstSeen[id];
    }

    method ApplyFillRateBonus(demand: Demand, agents: seq<int>, bonus: real, before: map<int, real>)
      returns (rewards: map<int, real>)
      requires forall k :: 0 <= k < |agents| ==> agents[k] in before
      ensures var share := FillRateShare(demand, bonus);
        rewards == if share.None? then before else Shared(before, agents, share.value)
    {
      rewards := before;
      if bonus == 0.0 || demand.requested <= 0 { return; }
      var share := bonus * (demand.served as real / demand.requested as real);
      for i := 0 to |agents|
        invariant rewards.Keys == before.Keys && rewards == Shared(before, agents[..i], share)
      {
        assert agents[..i + 1][..i] == agents[..i];
        rewards := rewards[agents[i] := rewards[agents[i]] + share];
      }
      assert agents[..|agents|] == agents;
      assert FillRateShare(demand, bonus).Some? && FillRateShare(demand, bonus).value == share;
    }
  }
}
