/** What the shaper's returned rewards add up to over whole runs of placements, assignments, fulfilments,
    shaper steps and resets in any order: a ledger of bonuses, penalties and shares in which no order earns
    two bonuses, and each earns one exactly when every step meets its conditions. */
module CarrierCreditTheorems {
  import opened Collections
  import opened CarrierCredit

  datatype Event =
    | Place(city: int, product: int, quantity: int, tick: int, reward: real, assignedTo: Option<int>)
    | Assign(position: nat, to: Option<int>, tick: int)
    | Fulfil(id: int, agent: int, tick: int)
    | Shape(agents: seq<int>, terminal: bool, demand: Option<Demand>, weights: Weights)
    | Reset

  /** One fulfilment by a real carrier. */
  datatype Credit = Credit(order: nat, agent: int, reward: real)

  /** A bonus for the fulfilment at a position of the history, a penalty for an order, or a share of
      the fill-rate bonus. */
  datatype Posting =
    | Bonus(slot: nat, agent: int, amount: real)
    | Penalty(order: nat, agent: int, amount: real)
    | Share(agent: int, amount: real)

  /** The book and the shaper, with every real fulfilment so far, every posting so far, and the
      assignments that were pending at the last step since the last reset. */
  datatype World = World(book: BookState, shaper: ShaperState, history: seq<Credit>, ledger: seq<Posting>,
    seen: set<nat>)

  // ---------- what a step posts ----------

  /** A bonus for each fulfilment from position low on whose agent is real and takes part. */
  function BonusPostings(history: seq<Credit>, low: nat, agents: seq<int>, bonus: real): seq<Posting> {
    if |history| <= low then []
    else
      var last := |history| - 1;
      var agent := history[last].agent;
      BonusPostings(history[..last], low, agents, bonus)
      + if agent >= 0 && agent in agents then [Bonus(last, agent, bonus)] else []
  }

  /** The first fulfilment that the window of a step still holds and the shaper has not passed. */
  function FirstUnseen(w: World): nat {
    Max(w.shaper.consumed, |w.history| - REWARDS_CAP)
  }

  /** The order is assigned to a real agent. */
  predicate Held(o: Order) {
    o.assignedTo.Some? && o.assignedTo.value >= 0
  }

  /** The order is assigned to an agent that takes part, and was assigned at the step before. */
  predicate Stale(o: Order, seen: set<nat>, agents: seq<int>) {
    Held(o) && o.id in seen && o.assignedTo.value in agents
  }

  function PenaltyFor(o: Order, penalty: real): Posting
    requires Held(o)
  {
    Penalty(o.id, o.assignedTo.value, penalty)
  }

  /** A penalty for each pending order that was already assigned at the step before. */
  function PenaltyPostings(pending: seq<Order>, seen: set<nat>, agents: seq<int>, penalty: real): seq<Posting> {
    if pending == [] then []
    else
      var o := pending[|pending| - 1];
      PenaltyPostings(pending[..|pending| - 1], seen, agents, penalty)
      + if Stale(o, seen, agents) && penalty != 0.0 then [PenaltyFor(o, penalty)] else []
  }

  function SharePostings(agents: seq<int>, share: real): seq<Posting> {
    if agents == [] then [] else SharePostings(agents[..|agents| - 1], share) + [Share(agents[|agents| - 1], share)]
  }

  function StepBonuses(w: World, e: Event): seq<Posting>
    requires e.Shape?
  {
    if e.weights.dispatchBonus == 0.0 then []
    else BonusPostings(w.history, FirstUnseen(w), e.agents, e.weights.dispatchBonus)
  }

  /** A bonus scaled by the part of the demand that was served. */
  function ShareOf(demand: Demand, bonus: real): real
    requires demand.requested > 0
  {
    bonus * (demand.served as real / demand.requested as real)
  }

  /** The shares of the fill-rate bonus, once an episode. */
  function StepShares(w: World, e: Event): seq<Posting>
    requires e.Shape?
  {
    if e.terminal && !w.shaper.terminalPaid && e.demand.Some? && e.demand.value.requested > 0
       && e.weights.fillRateBonus != 0.0
    then SharePostings(e.agents, ShareOf(e.demand.value, e.weights.fillRateBonus))
    else []
  }

  function Postings(w: World, e: Event): seq<Posting>
    requires e.Shape?
  {
    StepBonuses(w, e) + PenaltyPostings(w.book.pending, w.seen, e.agents, e.weights.dispatchPenalty) + StepShares(w, e)
  }

  // ---------- runs ----------

  /** What the shaper does, and what it returns. */
  function Shaped(w: World, e: Event): (ShaperState, map<int, real>)
    requires e.Shape?
  {
    ShapeStep(Some(w.book), e.demand, w.shaper, e.agents, e.terminal, e.weights)
  }

  /** An order that the dispatcher gives to an agent, or takes back. */
  function Reassigned(o: Order, to: Option<int>, tick: int): Order {
    o.(assignedTo := to, assignedTick := if to.Some? then Some(tick) else None)
  }

  function Step(w: World, e: Event): World
    requires WithinCaps(w.book)
  {
    match e
    case Place(city, product, quantity, tick, reward, assignedTo) =>
      w.(book := PlaceStep(w.book, city, product, quantity, tick, reward, assignedTo).0)
    case Assign(position, to, tick) =>
      if position >= |w.book.pending| then w
      else w.(book := w.book.(pending := w.book.pending[position := Reassigned(w.book.pending[position], to, tick)]))
    case Fulfil(id, agent, tick) =>
      var (book, r) := FulfilStep(w.book, id, agent, tick);
      w.(book := book,
         history := w.history + if r.Some? && agent != -1 then [Credit(r.value.id, agent, r.value.reward)] else [])
    case Shape(_, _, _, _) =>
      w.(shaper := Shaped(w, e).0, ledger := w.ledger + Postings(w, e),
         seen := set o | o in w.book.pending && Held(o) :: o.id)
    case Reset => w.(shaper := NewShaper().(consumed := w.shaper.consumed), seen := {})
  }

  lemma StepWithinCaps(w: World, e: Event)
    requires WithinCaps(w.book)
    ensures WithinCaps(Step(w, e).book)
  {}

  function NewWorld(): World {
    World(NewBook(), NewShaper(), [], [], {})
  }

  function Run(events: seq<Event>): (w: World)
    ensures WithinCaps(w.book)
  {
    if events == [] then NewWorld()
    else
      var before := Run(events[..|events| - 1]);
      StepWithinCaps(before, events[|events| - 1]);
      Step(before, events[|events| - 1])
  }

  /** What the steps of a run returned for one agent, added up. */
  function EarnedBy(events: seq<Event>, agent: int): real {
    if events == [] then 0.0
    else
      var w, e := Run(events[..|events| - 1]), events[|events| - 1];
      EarnedBy(events[..|events| - 1], agent)
      + if e.Shape? && agent in Shaped(w, e).1 then Shaped(w, e).1[agent] else 0.0
  }

  // ---------- the window ----------

  function Entries(history: seq<Credit>): (r: seq<(int, real)>)
    ensures |r| == |history|
  {
    seq(|history|, k requires 0 <= k < |history| => (history[k].agent, history[k].reward))
  }

  function Latest<T>(s: seq<T>, n: nat): seq<T> {
    if |s| <= n then s else s[|s| - n..]
  }

  /** The window holds the last fulfilments in order, and the counter counts them all. */
  ghost predicate WindowExact(w: World) {
    w.book.recent == Latest(Entries(w.history), REWARDS_CAP) && w.book.total == |w.history|
      && w.shaper.consumed <= w.book.total
  }

  ghost predicate Listed(pending: seq<Order>, id: int) {
    exists k :: 0 <= k < |pending| && pending[k].id == id
  }

  /** Order ids are new, and no order is both pending and fulfilled or fulfilled twice. */
  ghost predicate OrdersOnce(w: World) {
    && (forall k :: 0 <= k < |w.book.pending| ==> w.book.pending[k].id < w.book.nextId)
    && (forall j, k :: 0 <= j < k < |w.book.pending| ==> w.book.pending[j].id != w.book.pending[k].id)
    && (forall k :: 0 <= k < |w.history| ==>
      w.history[k].order < w.book.nextId && !Listed(w.book.pending, w.history[k].order))
    && (forall j, k :: 0 <= j < k < |w.history| ==> w.history[j].order != w.history[k].order)
  }

  /** The fulfilments that the ledger has a bonus for. */
  function BonusSlots(ledger: seq<Posting>): seq<nat> {
    if ledger == [] then []
    else
      var last := ledger[|ledger| - 1];
      BonusSlots(ledger[..|ledger| - 1]) + if last.Bonus? then [last.slot] else []
  }

  ghost predicate Increasing(slots: seq<nat>) {
    forall j, k :: 0 <= j < k < |slots| ==> slots[j] < slots[k]
  }

  /** Bonuses are for fulfilments already passed, each to the agent that fulfilled it, and later
      bonuses are for later fulfilments. */
  ghost predicate PaidInOrder(w: World) {
    && (forall x :: x in w.ledger && x.Bonus? ==> PaysFor(x, w.history, x.amount))
    && (forall k :: 0 <= k < |BonusSlots(w.ledger)| ==> BonusSlots(w.ledger)[k] < w.shaper.consumed)
    && Increasing(BonusSlots(w.ledger))
  }

  ghost predicate Sound(w: World) {
    && WithinCaps(w.book) && WindowExact(w) && OrdersOnce(w) && PaidInOrder(w)
    && w.shaper.firstSeen.Keys == w.seen
  }

  lemma PushLatest<T>(s: seq<T>, n: nat, x: T)
    requires n > 0
    ensures |Latest(s, n)| <= n && Push(Latest(s, n), n, x) == Latest(s + [x], n)
  {}

  lemma FulfilSound(w: World, id: int, agent: int, tick: int)
    requires Sound(w)
    ensures Sound(Step(w, Fulfil(id, agent, tick)))
  {
    var i := Locate(w.book.pending, id, 0);
    if i < |w.book.pending| {
      FulfilWindow(w, id, agent, tick);
      FulfilOrders(w, id, agent, tick);
      FulfilPaid(w, id, agent, tick);
    }
  }

  lemma FulfilWindow(w: World, id: int, agent: int, tick: int)
    requires WithinCaps(w.book) && WindowExact(w)
    ensures WindowExact(Step(w, Fulfil(id, agent, tick)))
  {
    var t := Step(w, Fulfil(id, agent, tick));
    if t.history != w.history {
      var credit := t.history[|w.history|];
      PushLatest(Entries(w.history), REWARDS_CAP, (agent, credit.reward));
      assert Entries(t.history) == Entries(w.history) + [(agent, credit.reward)];
    }
  }

  lemma FulfilOrders(w: World, id: int, agent: int, tick: int)
    requires WithinCaps(w.book) && OrdersOnce(w)
    ensures OrdersOnce(Step(w, Fulfil(id, agent, tick)))
  {
    hide Push, Locate;
    var i := Locate(w.book.pending, id, 0);
    if i < |w.book.pending| {
      WithoutOne(w.book.pending, i);
    }
  }

  lemma WithoutOne(p: seq<Order>, i: nat)
    requires i < |p| && forall j, k :: 0 <= j < k < |p| ==> p[j].id != p[k].id
    ensures var q := p[..i] + p[i + 1..];
      && (forall k :: 0 <= k < |q| ==> Listed(p, q[k].id) && q[k] in p)
      && (forall j, k :: 0 <= j < k < |q| ==> q[j].id != q[k].id)
      && (forall x: int :: Listed(q, x) ==> Listed(p, x))
      && Listed(p, p[i].id) && !Listed(q, p[i].id)
  {
    var q := p[..i] + p[i + 1..];
    assert forall k :: 0 <= k < |q| ==> q[k] == if k < i then p[k] else p[k + 1];
  }

  lemma FulfilPaid(w: World, id: int, agent: int, tick: int)
    requires WithinCaps(w.book) && PaidInOrder(w)
    ensures PaidInOrder(Step(w, Fulfil(id, agent, tick)))
  {
    hide BonusSlots;
    var t := Step(w, Fulfil(id, agent, tick));
    assert w.history <= t.history;
  }

  // ---------- a shaper step ----------

  lemma {:induction false} SlotsAppend(a: seq<Posting>, b: seq<Posting>)
    ensures BonusSlots(a + b) == BonusSlots(a) + BonusSlots(b)
  {
    if b == [] {
      assert a + b == a;
    } else {
      SlotsAppend(a, b[..|b| - 1]);
      assert (a + b)[..|a + b| - 1] == a + b[..|b| - 1];
    }
  }

  /** How many of the fulfilments from position low on have an agent that is real and takes part. */
  function Participating(history: seq<Credit>, low: nat, agents: seq<int>): nat {
    if |history| <= low then 0
    else
      var agent := history[|history| - 1].agent;
      Participating(history[..|history| - 1], low, agents) + if agent >= 0 && agent in agents then 1 else 0
  }

  /** The posting is the bonus of the fulfilment in its slot. */
  ghost predicate PaysFor(p: Posting, history: seq<Credit>, bonus: real) {
    p.Bonus? && p.slot < |history| && p.agent == history[p.slot].agent && p.amount == bonus
  }

  lemma {:induction false} BonusPostingsMeaning(history: seq<Credit>, low: nat, agents: seq<int>, bonus: real)
    ensures forall x :: x in BonusPostings(history, low, agents, bonus) ==> PaysFor(x, history, bonus)
  {
    if |history| > low {
      var last := |history| - 1;
      BonusPostingsMeaning(history[..last], low, agents, bonus);
      forall x | x in BonusPostings(history, low, agents, bonus) ensures PaysFor(x, history, bonus) {
        if x in BonusPostings(history[..last], low, agents, bonus) {
          assert PaysFor(x, history[..last], bonus);
        }
      }
    }
  }

  /** The fulfilments a step pays for: those of agents taking part, in order. */
  lemma {:induction false} BonusPostingsSlots(history: seq<Credit>, low: nat, agents: seq<int>, bonus: real)
    ensures var slots := BonusSlots(BonusPostings(history, low, agents, bonus));
      && |slots| == Participating(history, low, agents) && Increasing(slots)
      && forall k :: 0 <= k < |slots| ==> low <= slots[k] < |history|
  {
    hide BonusSlots;
    if |history| > low {
      var last := |history| - 1;
      BonusPostingsSlots(history[..last], low, agents, bonus);
      var added := if history[last].agent >= 0 && history[last].agent in agents
        then [Bonus(last, history[last].agent, bonus)] else [];
      SlotsAppend(BonusPostings(history[..last], low, agents, bonus), added);
      OneSlot(added);
    } else {
      NoSlots([]);
    }
  }

  lemma OneSlot(p: seq<Posting>)
    requires |p| <= 1 && forall k :: 0 <= k < |p| ==> p[k].Bonus?
    ensures BonusSlots(p) == if p == [] then [] else [p[0].slot]
  {}

  lemma {:induction false} NoSlots(p: seq<Posting>)
    requires forall x :: x in p ==> !x.Bonus?
    ensures BonusSlots(p) == []
  {
    if p != [] {
      assert p[|p| - 1] in p;
      NoSlots(p[..|p| - 1]);
    }
  }

  lemma {:induction false} PenaltiesOnly(pending: seq<Order>, seen: set<nat>, agents: seq<int>, penalty: real)
    ensures forall x :: x in PenaltyPostings(pending, seen, agents, penalty) ==> x.Penalty?
  {
    if pending != [] {
      PenaltiesOnly(pending[..|pending| - 1], seen, agents, penalty);
    }
  }

  lemma {:induction false} PenaltyPostingsMeaning(
      pending: seq<Order>, seen: set<nat>, agents: seq<int>, penalty: real, x: Posting)
    ensures x in PenaltyPostings(pending, seen, agents, penalty)
      <==> penalty != 0.0 && Charges(pending, seen, agents, penalty, x)
  {
    if pending != [] {
      var front, o := pending[..|pending| - 1], pending[|pending| - 1];
      PenaltyPostingsMeaning(front, seen, agents, penalty, x);
      OneMoreOrder(front, o, seen, agents, penalty, x);
      assert pending == front + [o];
    }
  }

  lemma OneMoreOrder(front: seq<Order>, o: Order, seen: set<nat>, agents: seq<int>, penalty: real, x: Posting)
    ensures Charges(front + [o], seen, agents, penalty, x)
      <==> Charges(front, seen, agents, penalty, x) || (Stale(o, seen, agents) && x == PenaltyFor(o, penalty))
  {
    assert forall q :: q in front + [o] <==> q in front || q == o;
  }

  /** The posting is the penalty of a stale order. */
  ghost predicate Charges(pending: seq<Order>, seen: set<nat>, agents: seq<int>, penalty: real, x: Posting) {
    exists o :: o in pending && Stale(o, seen, agents) && x == PenaltyFor(o, penalty)
  }

  lemma {:induction false} SharePostingsMeaning(agents: seq<int>, share: real)
    ensures |SharePostings(agents, share)| == |agents|
    ensures forall k :: 0 <= k < |agents| ==> SharePostings(agents, share)[k] == Share(agents[k], share)
  {
    if agents != [] {
      SharePostingsMeaning(agents[..|agents| - 1], share);
    }
  }

  lemma StepBonusesMeaning(w: World, e: Event)
    requires e.Shape?
    ensures forall x :: x in StepBonuses(w, e) ==> PaysFor(x, w.history, e.weights.dispatchBonus)
  {
    BonusPostingsMeaning(w.history, FirstUnseen(w), e.agents, e.weights.dispatchBonus);
  }

  lemma StepSharesMeaning(w: World, e: Event)
    requires e.Shape?
    ensures forall x :: x in StepShares(w, e) ==> x.Share?
  {
    hide SharePostings, ShareOf;
    if StepShares(w, e) != [] {
      SharePostingsMeaning(e.agents, ShareOf(e.demand.value, e.weights.fillRateBonus));
    }
  }

  function OtherPostings(w: World, e: Event): seq<Posting>
    requires e.Shape?
  {
    PenaltyPostings(w.book.pending, w.seen, e.agents, e.weights.dispatchPenalty) + StepShares(w, e)
  }

  lemma OtherPostingsMeaning(w: World, e: Event)
    requires e.Shape?
    ensures Postings(w, e) == StepBonuses(w, e) + OtherPostings(w, e)
    ensures BonusSlots(OtherPostings(w, e)) == []
  {
    hide StepBonuses, PenaltyPostings, StepShares, BonusSlots;
    PenaltiesOnly(w.book.pending, w.seen, e.agents, e.weights.dispatchPenalty);
    StepSharesMeaning(w, e);
    NoSlots(PenaltyPostings(w.book.pending, w.seen, e.agents, e.weights.dispatchPenalty));
    NoSlots(StepShares(w, e));
    SlotsAppend(PenaltyPostings(w.book.pending, w.seen, e.agents, e.weights.dispatchPenalty), StepShares(w, e));
  }

  lemma NoOtherBonus(w: World, e: Event, x: Posting)
    requires e.Shape? && x in OtherPostings(w, e)
    ensures !x.Bonus?
  {
    hide StepShares, PenaltyPostings;
    PenaltiesOnly(w.book.pending, w.seen, e.agents, e.weights.dispatchPenalty);
    StepSharesMeaning(w, e);
  }

  lemma ShapeKeepsBooks(w: World, e: Event)
    requires WithinCaps(w.book) && e.Shape?
    ensures var t := Step(w, e);
      && t.book == w.book && t.history == w.history && t.shaper.consumed == w.book.total
      && t.ledger == w.ledger + Postings(w, e) && t.seen == AssignedIds(w.book.pending)
      && t.shaper.firstSeen.Keys == AssignedIds(w.book.pending)
  {
    var zero := BonusStep(w.book, w.shaper.consumed, e.weights.dispatchBonus, ZeroRewards(e.agents));
    ScanNotes(w.book.pending, w.shaper.firstSeen, w.shaper.tick + 1, e.weights.dispatchPenalty, zero);
  }

  /** After the scan every assigned pending order is noted. */
  lemma {:induction false} ScanNotes(
      pending: seq<Order>, seen: map<nat, nat>, tick: nat, penalty: real, rewards: map<int, real>)
    ensures Scanned(pending, seen, tick, penalty, rewards).0.Keys == seen.Keys + AssignedIds(pending)
  {
    if pending != [] {
      var front, o := pending[..|pending| - 1], pending[|pending| - 1];
      ScanNotes(front, seen, tick, penalty, rewards);
      assert pending == front + [o];
      assert AssignedIds(pending) == AssignedIds(front) + if Assigned(o) then {o.id} else {};
    }
  }

  lemma ShapeSound(w: World, e: Event)
    requires Sound(w) && e.Shape?
    ensures Sound(Step(w, e))
  {
    hide BonusSlots, BonusPostings, Postings, Participating, Shaped, AssignedIds;
    ShapeKeepsBooks(w, e);
    ShapePaysInOrder(w, e);
  }

  lemma ShapePaysInOrder(w: World, e: Event)
    requires WithinCaps(w.book) && WindowExact(w) && PaidInOrder(w) && e.Shape?
    ensures PaidInOrder(Step(w, e))
  {
    hide BonusSlots, BonusPostings, Postings, OtherPostings, Participating, Shaped, AssignedIds, Latest;
    ShapeKeepsBooks(w, e);
    var bonuses, others := StepBonuses(w, e), OtherPostings(w, e);
    OtherPostingsMeaning(w, e);
    BonusPostingsMeaning(w.history, FirstUnseen(w), e.agents, e.weights.dispatchBonus);
    BonusPostingsSlots(w.history, FirstUnseen(w), e.agents, e.weights.dispatchBonus);
    NoSlots([]);
    SlotsAppend(bonuses, others);
    SlotsAppend(w.ledger, bonuses + others);
    var t := Step(w, e);
    forall x | x in t.ledger && x.Bonus? ensures PaysFor(x, t.history, x.amount) {
      assert x in w.ledger || x in bonuses || x in others;
      if x in others { NoOtherBonus(w, e, x); }
    }
  }

  lemma PlaceSound(w: World, e: Event)
    requires Sound(w) && e.Place?
    ensures Sound(Step(w, e))
  {
    var t := Step(w, e);
    var p, q := w.book.pending, t.book.pending;
    assert forall k :: 0 <= k < |q| ==> q[k].id == if k < |p| then p[k].id else w.book.nextId;
    assert forall x: int :: Listed(q, x) ==> Listed(p, x) || x == w.book.nextId;
  }

  lemma AssignSound(w: World, e: Event)
    requires Sound(w) && e.Assign?
    ensures Sound(Step(w, e))
  {
    hide BonusSlots, Latest, Entries;
    var p, q := w.book.pending, Step(w, e).book.pending;
    assert |q| == |p| && forall k :: 0 <= k < |p| ==> q[k].id == p[k].id;
    assert forall x: int :: Listed(q, x) <==> Listed(p, x);
  }

  lemma {:induction false} RunSound(events: seq<Event>)
    ensures Sound(Run(events))
  {
    if events != [] {
      var last := |events| - 1;
      RunSound(events[..last]);
      var w, e := Run(events[..last]), events[last];
      match e
      case Place(_, _, _, _, _, _) => PlaceSound(w, e);
      case Assign(_, _, _) => AssignSound(w, e);
      case Fulfil(id, agent, tick) => FulfilSound(w, id, agent, tick);
      case Shape(_, _, _, _) => ShapeSound(w, e);
      case Reset =>
    }
  }

  lemma {:induction false} SlotListed(ledger: seq<Posting>, k: nat)
    requires k < |ledger| && ledger[k].Bonus?
    ensures ledger[k].slot in BonusSlots(ledger)
    decreases |ledger|
  {
    if k < |ledger| - 1 {
      SlotListed(ledger[..|ledger| - 1], k);
    }
  }

  /** No order earns its carrier two bonuses, whatever the interleaving. */
  lemma NeverPaidTwice(events: seq<Event>, j: nat, k: nat)
    requires j < k < |Run(events).ledger| && Run(events).ledger[j].Bonus? && Run(events).ledger[k].Bonus?
    ensures var w := Run(events);
      var first, second := w.ledger[j], w.ledger[k];
      && first.slot < second.slot < |w.history|
      && first.agent == w.history[first.slot].agent && second.agent == w.history[second.slot].agent
      && w.history[first.slot].order != w.history[second.slot].order
  {
    RunSound(events);
    hide Run, BonusSlots;
    var w := Run(events);
    SlotsSplit(w.ledger, k);
    SlotListed(w.ledger[..k], j);
    assert w.ledger[j] in w.ledger && w.ledger[k] in w.ledger;
  }

  lemma SlotsSplit(ledger: seq<Posting>, k: nat)
    requires k < |ledger| && ledger[k].Bonus? && Increasing(BonusSlots(ledger))
    ensures forall s :: s in BonusSlots(ledger[..k]) ==> s < ledger[k].slot
  {
    var front, rest := ledger[..k + 1], ledger[k + 1..];
    assert ledger == front + rest && front[..k] == ledger[..k];
    SlotsAppend(front, rest);
    var slots := BonusSlots(ledger[..k]);
    assert BonusSlots(front) == slots + [ledger[k].slot];
    forall s | s in slots ensures s < ledger[k].slot {
      var i :| 0 <= i < |slots| && slots[i] == s;
      assert BonusSlots(ledger)[i] == s && BonusSlots(ledger)[|slots|] == ledger[k].slot;
    }
  }

  // ---------- which fulfilments are paid ----------

  /** The fulfilments that a step passes over without paying: all of them without a bonus, otherwise
      those the window has dropped and those of agents that do not take part. */
  function MissedAt(w: World, e: Event): int {
    if !e.Shape? then 0
    else
      var unseen := |w.history| - w.shaper.consumed;
      if e.weights.dispatchBonus == 0.0 then unseen
      else unseen - Participating(w.history, FirstUnseen(w), e.agents)
  }

  function MissedBy(events: seq<Event>): int {
    if events == [] then 0
    else MissedBy(events[..|events| - 1]) + MissedAt(Run(events[..|events| - 1]), events[|events| - 1])
  }

  /** A step with nothing to pay, or with a bonus, at most 200 fulfilments since the last step, and
      each of them by a real agent that takes part. */
  ghost predicate PaysAll(w: World, e: Event)
    requires e.Shape?
  {
    || w.shaper.consumed == |w.history|
    || (e.weights.dispatchBonus != 0.0 && |w.history| - w.shaper.consumed <= REWARDS_CAP
        && forall k :: w.shaper.consumed <= k < |w.history| ==>
          w.history[k].agent >= 0 && w.history[k].agent in e.agents)
  }

  ghost predicate AlwaysPaysAll(events: seq<Event>) {
    events == []
    || (var w, e := Run(events[..|events| - 1]), events[|events| - 1];
        AlwaysPaysAll(events[..|events| - 1]) && (e.Shape? ==> PaysAll(w, e)))
  }

  lemma {:induction false} ParticipatingBound(history: seq<Credit>, low: nat, agents: seq<int>)
    requires low <= |history|
    ensures Participating(history, low, agents) <= |history| - low
    ensures Participating(history, low, agents) == |history| - low
      <==> forall k :: low <= k < |history| ==> history[k].agent >= 0 && history[k].agent in agents
  {
    if |history| > low {
      var last := |history| - 1;
      ParticipatingBound(history[..last], low, agents);
      assert forall k :: 0 <= k < last ==> history[..last][k] == history[k];
    }
  }

  lemma MissedNothing(w: World, e: Event)
    requires e.Shape? && w.shaper.consumed <= |w.history|
    ensures MissedAt(w, e) >= 0 && (MissedAt(w, e) == 0 <==> PaysAll(w, e))
  {
    hide Participating;
    ParticipatingBound(w.history, FirstUnseen(w), e.agents);
  }

  lemma StepPays(w: World, e: Event)
    requires WithinCaps(w.book) && e.Shape?
    ensures |BonusSlots(Step(w, e).ledger)| == |BonusSlots(w.ledger)| + |w.history| - w.shaper.consumed - MissedAt(w, e)
  {
    hide BonusSlots, BonusPostings, Postings, OtherPostings, Participating, Shaped, AssignedIds;
    ShapeKeepsBooks(w, e);
    OtherPostingsMeaning(w, e);
    BonusPostingsMeaning(w.history, FirstUnseen(w), e.agents, e.weights.dispatchBonus);
    BonusPostingsSlots(w.history, FirstUnseen(w), e.agents, e.weights.dispatchBonus);
    NoSlots([]);
    SlotsAppend(StepBonuses(w, e), OtherPostings(w, e));
    SlotsAppend(w.ledger, StepBonuses(w, e) + OtherPostings(w, e));
  }

  lemma {:induction false} PaidAndMissed(events: seq<Event>)
    ensures var w := Run(events);
      && |BonusSlots(w.ledger)| + MissedBy(events) == w.shaper.consumed
      && MissedBy(events) >= 0 && (MissedBy(events) == 0 <==> AlwaysPaysAll(events))
  {
    hide OrdersOnce, PaidInOrder, Latest, FulfilStep, PlaceStep, BonusSlots, MissedAt, PaysAll, Postings, Shaped;
    if events != [] {
      var last := |events| - 1;
      var w, e := Run(events[..last]), events[last];
      PaidAndMissed(events[..last]);
      RunSound(events[..last]);
      if e.Shape? {
        ShapeKeepsBooks(w, e);
        MissedNothing(w, e);
        StepPays(w, e);
      } else {
        NothingMissed(w, e);
      }
    } else {
      NoSlots([]);
    }
  }

  lemma NothingMissed(w: World, e: Event)
    requires !e.Shape?
    ensures MissedAt(w, e) == 0
  {}

  /** Every fulfilment the shaper has passed is paid once or counted as missed, and all of them are
      paid, in order, exactly when at every step nothing was new, or there was a bonus, at most 200
      fulfilments were new and the agent of each took part. */
  lemma PaidExactlyOnce(events: seq<Event>)
    ensures var w := Run(events);
      && |BonusSlots(w.ledger)| + MissedBy(events) == w.shaper.consumed <= |w.history|
      && ((|BonusSlots(w.ledger)| == w.shaper.consumed
           && forall k :: 0 <= k < w.shaper.consumed ==> BonusSlots(w.ledger)[k] == k) <==> AlwaysPaysAll(events))
  {
    RunSound(events);
    PaidAndMissed(events);
    hide Run, MissedBy, BonusSlots, AlwaysPaysAll;
    var w := Run(events);
    if MissedBy(events) == 0 {
      AllSlots(BonusSlots(w.ledger), w.shaper.consumed);
    }
  }

  /** An order placed, fulfilled by agent 7, and passed by a step in which only agent 0 takes part: the
      counter has moved past it and nobody is paid, then or later. */
  lemma OutsiderUnpaid()
    ensures var events :=
      [Place(0, 0, 1, 0, 5.0, None), Fulfil(0, 7, 1), Shape([0], false, None, Weights(1.0, 0.0, 0.0))];
      var w := Run(events);
      w.shaper.consumed == |w.history| == 1 && w.history[0].agent == 7 && BonusSlots(w.ledger) == []
  {
    hide BonusSlots, Postings, Shaped, Participating, Run, FulfilStep;
    var place, fulfil := Place(0, 0, 1, 0, 5.0, None), Fulfil(0, 7, 1);
    var shape := Shape([0], false, None, Weights(1.0, 0.0, 0.0));
    var events := [place, fulfil, shape];
    var w := Step(NewWorld(), place);
    var x := Step(w, fulfil);
    PlacedAndFulfilled(w, x);
    RunSteps([], place);
    RunSteps([place], fulfil);
    RunSteps([place, fulfil], shape);
    assert [] + [place] == [place] && [place] + [fulfil] == [place, fulfil] && [place, fulfil] + [shape] == events;
    ShapeKeepsBooks(x, shape);
    StepPays(x, shape);
    MissedOne(x, shape);
    NoSlots([]);
  }

  lemma PlacedAndFulfilled(w: World, x: World)
    requires w == Step(NewWorld(), Place(0, 0, 1, 0, 5.0, None)) && x == Step(w, Fulfil(0, 7, 1))
    ensures WithinCaps(x.book) && x.book.total == 1 && x.shaper.consumed == 0 && x.ledger == []
    ensures |x.history| == 1 && x.history[0].agent == 7
  {}

  lemma MissedOne(x: World, e: Event)
    requires e.Shape? && e.agents == [0] && e.weights.dispatchBonus != 0.0
    requires x.shaper.consumed == 0 && |x.history| == 1 && x.history[0].agent == 7
    ensures MissedAt(x, e) == 1
  {
    assert Participating(x.history, 0, [0]) == Participating(x.history[..0], 0, [0]);
  }

  lemma RunSteps(events: seq<Event>, e: Event)
    ensures Run([]) == NewWorld() && Run(events + [e]) == Step(Run(events), e)
  {
    var all := events + [e];
    assert all[..|all| - 1] == events;
  }

  /** Strictly increasing positions below n, n of them, are all the positions. */
  lemma {:induction false} AllSlots(slots: seq<nat>, n: nat)
    requires |slots| == n && forall k :: 0 <= k < n ==> slots[k] < n
    requires forall j, k :: 0 <= j < k < n ==> slots[j] < slots[k]
    ensures forall k :: 0 <= k < n ==> slots[k] == k
  {
    if n > 0 {
      assert forall k :: 0 <= k < n - 1 ==> slots[k] < slots[n - 1];
      AllSlots(slots[..n - 1], n - 1);
      forall k | 0 <= k < n ensures slots[k] == k {
        if k < n - 1 {
          assert slots[..n - 1][k] == k;
        } else if n > 1 {
          assert slots[..n - 1][n - 2] == n - 2;
        }
      }
    }
  }

  // ---------- what the returned rewards add up to ----------

  function Delta(p: Posting, agent: int): real {
    if p.agent != agent then 0.0 else if p.Penalty? then -p.amount else p.amount
  }

  /** What the ledger comes to for one agent. */
  function Balance(ledger: seq<Posting>, agent: int): real {
    if ledger == [] then 0.0 else Balance(ledger[..|ledger| - 1], agent) + Delta(ledger[|ledger| - 1], agent)
  }

  lemma {:induction false} BalanceAppend(a: seq<Posting>, b: seq<Posting>, agent: int)
    ensures Balance(a + b, agent) == Balance(a, agent) + Balance(b, agent)
  {
    if b == [] {
      assert a + b == a;
    } else {
      BalanceAppend(a, b[..|b| - 1], agent);
      assert (a + b)[..|a + b| - 1] == a + b[..|b| - 1];
    }
  }

  lemma BalanceOne(p: Posting, agent: int)
    ensures Balance([p], agent) == Delta(p, agent)
  {
    assert [p][..0] == [];
  }

  /** The window's unseen entries pay what the bonus postings say. */
  lemma {:induction false} BonusReturned(
      history: seq<Credit>, low: nat, agents: seq<int>, bonus: real, rewards: map<int, real>, agent: int)
    requires low <= |history| && agent in rewards && forall x: int :: x in rewards <==> x in agents
    ensures Credited(rewards, Entries(history)[low..], bonus)[agent]
         == rewards[agent] + Balance(BonusPostings(history, low, agents, bonus), agent)
  {
    hide Balance, Entries;
    EmptyBalance(agent);
    EntriesTail(history, low);
    if |history| > low {
      var last := |history| - 1;
      BonusReturned(history[..last], low, agents, bonus, rewards, agent);
      var earlier, p := BonusPostings(history[..last], low, agents, bonus), Bonus(last, history[last].agent, bonus);
      BalanceAppend(earlier, [p], agent);
      BalanceOne(p, agent);
      assert earlier + [] == earlier;
    }
  }

  lemma EntriesTail(history: seq<Credit>, low: nat)
    requires low <= |history|
    ensures var entries := Entries(history)[low..];
      if |history| == low then entries == []
      else (entries[..|entries| - 1] == Entries(history[..|history| - 1])[low..]
            && entries[|entries| - 1].0 == history[|history| - 1].agent)
  {}

  ghost predicate DistinctIds(pending: seq<Order>) {
    forall j, k :: 0 <= j < k < |pending| ==> pending[j].id != pending[k].id
  }

  lemma {:induction false} PenaltyReturned(
      pending: seq<Order>, seen: map<nat, nat>, tick: nat, agents: seq<int>, penalty: real, rewards: map<int, real>,
      agent: int)
    requires DistinctIds(pending) && agent in rewards && forall x: int :: x in rewards <==> x in agents
    ensures Scanned(pending, seen, tick, penalty, rewards).1[agent]
         == rewards[agent] + Balance(PenaltyPostings(pending, seen.Keys, agents, penalty), agent)
  {
    if pending != [] {
      var front, o := pending[..|pending| - 1], pending[|pending| - 1];
      PenaltyReturned(front, seen, tick, agents, penalty, rewards, agent);
      ScanNotes(front, seen, tick, penalty, rewards);
      assert o.id !in AssignedIds(front);
      var earlier := PenaltyPostings(front, seen.Keys, agents, penalty);
      assert earlier + [] == earlier;
      if Assigned(o) {
        var p := Penalty(o.id, o.assignedTo.value, penalty);
        BalanceAppend(earlier, [p], agent);
        BalanceOne(p, agent);
      }
    }
  }

  lemma {:induction false} ShareReturned(agents: seq<int>, share: real, rewards: map<int, real>, agent: int)
    requires agent in rewards && forall k :: 0 <= k < |agents| ==> agents[k] in rewards
    ensures Shared(rewards, agents, share)[agent] == rewards[agent] + Balance(SharePostings(agents, share), agent)
  {
    if agents != [] {
      var front, last := agents[..|agents| - 1], agents[|agents| - 1];
      ShareReturned(front, share, rewards, agent);
      BalanceAppend(SharePostings(front, share), [Share(last, share)], agent);
      BalanceOne(Share(last, share), agent);
    }
  }

  /** The unseen tail of the window is the history from the first unseen fulfilment on. */
  lemma UnseenIsTail(w: World)
    requires WithinCaps(w.book) && WindowExact(w)
    ensures FirstUnseen(w) <= |w.history| && Unseen(w.book, w.shaper.consumed) == Entries(w.history)[FirstUnseen(w)..]
  {}

  lemma Participants(agents: seq<int>, rewards: map<int, real>)
    requires rewards.Keys == ZeroRewards(agents).Keys
    ensures forall x: int :: x in rewards <==> x in agents
  {}

  /** A step returns to each agent taking part what it posts for that agent. */
  lemma StepReturned(w: World, e: Event, agent: int)
    requires Sound(w) && e.Shape?
    ensures Shaped(w, e).1.Keys == ZeroRewards(e.agents).Keys
    ensures agent in Shaped(w, e).1 ==> Shaped(w, e).1[agent] == Balance(Postings(w, e), agent)
  {
    hide BonusPostings, PenaltyPostings, SharePostings, Scanned, Unseen, Credited, Shared, FillRateShare, ShareOf,
      AssignedIds, Balance, Latest, OrdersOnce, PaidInOrder, FirstUnseen;
    var zero := ZeroRewards(e.agents);
    var bonus, penalty := e.weights.dispatchBonus, e.weights.dispatchPenalty;
    var paid := BonusStep(w.book, w.shaper.consumed, bonus, zero);
    var charged := Scanned(w.book.pending, w.shaper.firstSeen, w.shaper.tick + 1, penalty, paid).1;
    Participants(e.agents, zero);
    Participants(e.agents, paid);
    Participants(e.agents, charged);
    if agent in e.agents {
      UnseenIsTail(w);
      BonusReturned(w.history, FirstUnseen(w), e.agents, bonus, zero, agent);
      PendingDistinct(w);
      PenaltyReturned(w.book.pending, w.shaper.firstSeen, w.shaper.tick + 1, e.agents, penalty, paid, agent);
      EmptyBalance(agent);
      PostingsAdd(w, e, agent);
      if e.demand.Some? {
        ShareAgrees(e.demand.value, e.weights.fillRateBonus);
        var share := FillRateShare(e.demand.value, e.weights.fillRateBonus);
        if share.Some? { ShareReturned(e.agents, share.value, charged, agent); }
      }
    }
  }

  lemma ShareAgrees(demand: Demand, bonus: real)
    ensures FillRateShare(demand, bonus).Some? <==> demand.requested > 0 && bonus != 0.0
    ensures FillRateShare(demand, bonus).Some? ==> FillRateShare(demand, bonus).value == ShareOf(demand, bonus)
  {}

  lemma PendingDistinct(w: World)
    requires OrdersOnce(w)
    ensures DistinctIds(w.book.pending)
  {}

  lemma EmptyBalance(agent: int)
    ensures Balance([], agent) == 0.0
  {}

  lemma PostingsAdd(w: World, e: Event, agent: int)
    requires e.Shape?
    ensures Balance(Postings(w, e), agent)
      == Balance(StepBonuses(w, e), agent)
         + Balance(PenaltyPostings(w.book.pending, w.seen, e.agents, e.weights.dispatchPenalty), agent)
         + Balance(StepShares(w, e), agent)
  {
    hide Balance, StepBonuses, PenaltyPostings, StepShares;
    var bonuses := StepBonuses(w, e);
    var penalties := PenaltyPostings(w.book.pending, w.seen, e.agents, e.weights.dispatchPenalty);
    BalanceAppend(bonuses, penalties, agent);
    BalanceAppend(bonuses + penalties, StepShares(w, e), agent);
  }

  /** Nothing is posted to an agent that does not take part. */
  lemma {:induction false} NotTakingPart(w: World, e: Event, agent: int)
    requires e.Shape? && agent !in e.agents
    ensures Balance(Postings(w, e), agent) == 0.0
  {
    hide Balance, FirstUnseen, FillRateShare, ShareOf;
    PostingsAdd(w, e, agent);
    EmptyBalance(agent);
    NoBonus(w.history, FirstUnseen(w), e.agents, e.weights.dispatchBonus, agent);
    NoPenalty(w.book.pending, w.seen, e.agents, e.weights.dispatchPenalty, agent);
    if e.demand.Some? {
      ShareAgrees(e.demand.value, e.weights.fillRateBonus);
      var share := FillRateShare(e.demand.value, e.weights.fillRateBonus);
      if share.Some? { NoShare(e.agents, share.value, agent); }
    }
  }

  lemma {:induction false} NoBonus(history: seq<Credit>, low: nat, agents: seq<int>, bonus: real, agent: int)
    requires agent !in agents
    ensures Balance(BonusPostings(history, low, agents, bonus), agent) == 0.0
  {
    hide Balance;
    EmptyBalance(agent);
    if |history| > low {
      var last := |history| - 1;
      NoBonus(history[..last], low, agents, bonus, agent);
      var p := Bonus(last, history[last].agent, bonus);
      BalanceAppend(BonusPostings(history[..last], low, agents, bonus), [p], agent);
      BalanceOne(p, agent);
      assert BonusPostings(history[..last], low, agents, bonus) + []
        == BonusPostings(history[..last], low, agents, bonus);
    }
  }

  lemma {:induction false} NoPenalty(pending: seq<Order>, seen: set<nat>, agents: seq<int>, penalty: real, agent: int)
    requires agent !in agents
    ensures Balance(PenaltyPostings(pending, seen, agents, penalty), agent) == 0.0
  {
    hide Balance;
    EmptyBalance(agent);
    if pending != [] {
      var front, o := pending[..|pending| - 1], pending[|pending| - 1];
      NoPenalty(front, seen, agents, penalty, agent);
      var earlier := PenaltyPostings(front, seen, agents, penalty);
      assert earlier + [] == earlier;
      if Assigned(o) {
        BalanceAppend(earlier, [PenaltyFor(o, penalty)], agent);
        BalanceOne(PenaltyFor(o, penalty), agent);
      }
    }
  }

  lemma {:induction false} NoShare(agents: seq<int>, share: real, agent: int)
    requires agent !in agents
    ensures Balance(SharePostings(agents, share), agent) == 0.0
  {
    hide Balance;
    EmptyBalance(agent);
    if agents != [] {
      var front, last := agents[..|agents| - 1], agents[|agents| - 1];
      NoShare(front, share, agent);
      BalanceAppend(SharePostings(front, share), [Share(last, share)], agent);
      BalanceOne(Share(last, share), agent);
    }
  }

  /** The rewards that the steps of a run return to an agent add up to what the ledger holds for it. */
  lemma {:induction false} EarnedIsPosted(events: seq<Event>, agent: int)
    ensures EarnedBy(events, agent) == Balance(Run(events).ledger, agent)
  {
    hide Balance, Postings, Shaped, FulfilStep, PlaceStep, Sound;
    EmptyBalance(agent);
    if events != [] {
      var last := |events| - 1;
      var w, e := Run(events[..last]), events[last];
      EarnedIsPosted(events[..last], agent);
      if e.Shape? {
        RunSound(events[..last]);
        StepReturned(w, e, agent);
        Participants(e.agents, Shaped(w, e).1);
        BalanceAppend(w.ledger, Postings(w, e), agent);
        if agent !in e.agents { NotTakingPart(w, e, agent); }
      }
    }
  }

  lemma {:induction false} BonusPosted(history: seq<Credit>, low: nat, agents: seq<int>, bonus: real, slot: nat)
    requires low <= slot < |history| && history[slot].agent >= 0 && history[slot].agent in agents
    ensures Bonus(slot, history[slot].agent, bonus) in BonusPostings(history, low, agents, bonus)
    decreases |history|
  {
    if slot < |history| - 1 {
      BonusPosted(history[..|history| - 1], low, agents, bonus, slot);
    }
  }

  lemma {:induction false} BonusPostedTo(history: seq<Credit>, low: nat, agents: seq<int>, bonus: real, x: Posting)
    requires x in BonusPostings(history, low, agents, bonus)
    ensures x.Bonus? && low <= x.slot < |history| && history[x.slot].agent >= 0 && history[x.slot].agent in agents
  {
    var last := |history| - 1;
    var earlier := BonusPostings(history[..last], low, agents, bonus);
    if x in earlier {
      BonusPostedTo(history[..last], low, agents, bonus, x);
    }
  }

  /** A step with a bonus pays for exactly the fulfilments since the last step that the window still
      holds and whose agent is real and takes part. */
  lemma PaidWhenUnseen(w: World, e: Event, slot: nat)
    requires e.Shape? && slot < |w.history|
    ensures (exists x :: x in Postings(w, e) && x.Bonus? && x.slot == slot)
      <==> e.weights.dispatchBonus != 0.0 && w.shaper.consumed <= slot && |w.history| - slot <= REWARDS_CAP
           && w.history[slot].agent >= 0 && w.history[slot].agent in e.agents
  {
    hide BonusPostings, PenaltyPostings, StepShares, BonusSlots;
    OtherPostingsMeaning(w, e);
    var agent, bonus := w.history[slot].agent, e.weights.dispatchBonus;
    if bonus != 0.0 && FirstUnseen(w) <= slot && agent >= 0 && agent in e.agents {
      BonusPosted(w.history, FirstUnseen(w), e.agents, bonus, slot);
      assert Bonus(slot, agent, bonus) in StepBonuses(w, e);
    }
    if x :| x in Postings(w, e) && x.Bonus? && x.slot == slot {
      if x in OtherPostings(w, e) {
        NoOtherBonus(w, e, x);
      } else {
        BonusPostedTo(w.history, FirstUnseen(w), e.agents, bonus, x);
      }
    }
  }

  lemma {:induction false} PaidSinceReset(events: seq<Event>, i: nat, j: nat)
    requires i <= j <= |events| && Run(events[..i]).shaper.terminalPaid && forall k :: i <= k < j ==> !events[k].Reset?
    ensures Run(events[..j]).shaper.terminalPaid
    decreases j
  {
    hide FulfilStep, PlaceStep, Postings, Scanned, BonusStep;
    if i < j {
      PaidSinceReset(events, i, j - 1);
      assert events[..j][..j - 1] == events[..j - 1];
    }
  }

  /** The fill-rate bonus is shared at most once between two resets. */
  lemma SharedOnce(events: seq<Event>, i: nat, j: nat)
    requires i < j < |events| && events[i].Shape? && events[j].Shape? && forall k :: i < k < j ==> !events[k].Reset?
    requires StepShares(Run(events[..i]), events[i]) != []
    ensures StepShares(Run(events[..j]), events[j]) == []
  {
    hide FulfilStep, PlaceStep, Postings, Scanned, BonusStep, SharePostings, FillRateShare;
    assert events[..i + 1][..i] == events[..i];
    PaidSinceReset(events, i + 1, j);
  }

  /** A step charges exactly the orders that are pending and assigned to an agent taking part, and
      that were pending and assigned at the step before, if no reset lies between. */
  lemma ChargedWhenStale(w: World, e: Event, p: Posting)
    requires WithinCaps(w.book) && e.Shape? && p.Penalty?
    ensures p in Postings(w, e)
      <==> e.weights.dispatchPenalty != 0.0 && Charges(w.book.pending, w.seen, e.agents, e.weights.dispatchPenalty, p)
    ensures Step(w, e).seen == AssignedIds(w.book.pending)
  {
    hide StepBonuses, PenaltyPostings, StepShares, Charges, Shaped;
    PenaltyPostingsMeaning(w.book.pending, w.seen, e.agents, e.weights.dispatchPenalty, p);
    StepSharesMeaning(w, e);
    StepBonusesMeaning(w, e);
    var penalties := PenaltyPostings(w.book.pending, w.seen, e.agents, e.weights.dispatchPenalty);
    assert p in Postings(w, e) <==> p in StepBonuses(w, e) || p in penalties || p in StepShares(w, e);
  }
}
