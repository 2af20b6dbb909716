/** The order book over whole runs: no order is lost or altered, each is pending or fulfilled, and the
    book's lists are the latest part of that history. */
module CarrierCreditBook {
  import opened Collections
  import opened CarrierCredit
  import opened CarrierCreditTheorems

  /** The placements of a run, in order. */
  function Placements(events: seq<Event>): (r: seq<Event>)
    ensures forall e :: e in r ==> e.Place?
  {
    if events == [] then []
    else Placements(events[..|events| - 1]) + if events[|events| - 1].Place? then [events[|events| - 1]] else []
  }

  /** An order as fulfilled. */
  function Closed(o: Order, agent: int, tick: int): Order {
    o.(fulfilledTick := Some(tick), fulfilledBy := Some(agent))
  }

  /** The orders of a run as fulfilled, by real carriers or not, in order. */
  function Fulfilled(events: seq<Event>): seq<Order> {
    if events == [] then []
    else
      var before, e := events[..|events| - 1], events[|events| - 1];
      if !e.Fulfil? then Fulfilled(before)
      else
        var pending := Run(before).book.pending;
        var i := Locate(pending, e.id, 0);
        Fulfilled(before) + if i == |pending| then [] else [Closed(pending[i], e.agent, e.tick)]
  }

  /** The credits of fulfilled orders: those of the phantom carrier -1 earn none. */
  function CreditsOf(done: seq<Order>): seq<Credit> {
    if done == [] then []
    else
      var o := done[|done| - 1];
      CreditsOf(done[..|done| - 1])
      + if o.fulfilledBy.None? || o.fulfilledBy.value == -1 then [] else [Credit(o.id, o.fulfilledBy.value, o.reward)]
  }

  /** The tick of the last fulfilment by a real carrier. */
  function LastTick(done: seq<Order>): int {
    if done == [] then -1
    else
      var o := done[|done| - 1];
      if o.fulfilledBy.None? || o.fulfilledBy.value == -1 || o.fulfilledTick.None?
      then LastTick(done[..|done| - 1]) else o.fulfilledTick.value
  }

  /** The order carries what was placed under its id. */
  ghost predicate AsPlaced(o: Order, placed: seq<Event>)
    requires forall e :: e in placed ==> e.Place?
  {
    && o.id < |placed|
    && var e := placed[o.id];
       o.city == e.city && o.product == e.product && o.quantity == e.quantity && o.placedTick == e.tick
       && o.reward == e.reward
  }

  /** Ids in increasing order. */
  ghost predicate InOrder(pending: seq<Order>) {
    forall j, k :: 0 <= j < k < |pending| ==> pending[j].id < pending[k].id
  }

  ghost predicate DoneOnce(done: seq<Order>, pending: seq<Order>) {
    && (forall j, k :: 0 <= j < k < |done| ==> done[j].id != done[k].id)
    && forall o, q :: o in done && q in pending ==> o.id != q.id
  }

  /** Each placement is pending or done, once, on the terms it was made on. */
  ghost predicate Split(pending: seq<Order>, placed: seq<Event>, done: seq<Order>)
    requires forall e :: e in placed ==> e.Place?
  {
    && |placed| == |pending| + |done| && (forall o :: o in pending || o in done ==> AsPlaced(o, placed))
    && InOrder(pending) && DoneOnce(done, pending)
  }

  /** What the book holds, given what was placed and what was fulfilled. */
  ghost predicate Keeps(w: World, placed: seq<Event>, done: seq<Order>)
    requires forall e :: e in placed ==> e.Place?
  {
    && w.book.nextId == |placed| && Split(w.book.pending, placed, done)
    && w.book.fulfilled == Latest(done, FULFILLED_CAP) && w.history == CreditsOf(done)
    && w.book.lastTick == LastTick(done)
  }

  lemma PlaceKeeps(w: World, placed: seq<Event>, done: seq<Order>, e: Event)
    requires WithinCaps(w.book) && e.Place? && (forall x :: x in placed ==> x.Place?) && Keeps(w, placed, done)
    ensures Keeps(Step(w, e), placed + [e], done)
  {
    hide Latest, CreditsOf, LastTick;
    var t := Step(w, e);
    var o := t.book.pending[|w.book.pending|];
    forall q | q in t.book.pending || q in done ensures AsPlaced(q, placed + [e]) {
      if q in w.book.pending || q in done { assert AsPlaced(q, placed); } else { assert q == o; }
    }
    forall j, k | 0 <= j < k < |t.book.pending| ensures t.book.pending[j].id < t.book.pending[k].id {
      assert w.book.pending[j] in w.book.pending;
    }
    forall x, q | x in done && q in t.book.pending ensures x.id != q.id {
      assert AsPlaced(x, placed);
    }
  }

  lemma AssignKeeps(w: World, placed: seq<Event>, done: seq<Order>, e: Event)
    requires WithinCaps(w.book) && e.Assign? && (forall x :: x in placed ==> x.Place?) && Keeps(w, placed, done)
    ensures Keeps(Step(w, e), placed, done)
  {
    hide Latest, CreditsOf, LastTick;
    if e.position < |w.book.pending| {
      var t, was := Step(w, e), w.book.pending[e.position];
      assert was in w.book.pending;
      forall q | q in t.book.pending ensures AsPlaced(q, placed) && exists o :: o in w.book.pending && o.id == q.id {
        if q !in w.book.pending { assert q == Reassigned(was, e.to, e.tick); }
      }
    }
  }

  lemma DropOne(pending: seq<Order>, i: nat)
    requires i < |pending| && InOrder(pending)
    ensures var rest := pending[..i] + pending[i + 1..];
      && InOrder(rest) && (forall o :: o in rest ==> o in pending && o.id != pending[i].id)
  {
    var rest := pending[..i] + pending[i + 1..];
    assert forall k :: 0 <= k < |rest| ==> rest[k] == pending[if k < i then k else k + 1];
  }

  lemma SplitClosed(pending: seq<Order>, placed: seq<Event>, done: seq<Order>, i: nat, agent: int, tick: int)
    requires (forall x :: x in placed ==> x.Place?) && Split(pending, placed, done) && i < |pending|
    ensures Split(pending[..i] + pending[i + 1..], placed, done + [Closed(pending[i], agent, tick)])
  {
    var o := Closed(pending[i], agent, tick);
    var more := done + [o];
    DropOne(pending, i);
    assert pending[i] in pending;
    assert AsPlaced(pending[i], placed);
    forall j, k | 0 <= j < k < |more| ensures more[j].id != more[k].id {
      if k == |done| { assert done[j] in done; }
    }
  }

  lemma FulfilKeeps(w: World, placed: seq<Event>, done: seq<Order>, e: Event)
    requires WithinCaps(w.book) && e.Fulfil? && (forall x :: x in placed ==> x.Place?) && Keeps(w, placed, done)
    ensures var i := Locate(w.book.pending, e.id, 0);
      Keeps(Step(w, e), placed,
            done + if i == |w.book.pending| then [] else [Closed(w.book.pending[i], e.agent, e.tick)])
  {
    hide Latest, Push, Locate, Split;
    var pending := w.book.pending;
    var i := Locate(pending, e.id, 0);
    if i == |pending| {
      assert done + [] == done;
    } else {
      var o := Closed(pending[i], e.agent, e.tick);
      SplitClosed(pending, placed, done, i, e.agent, e.tick);
      PushLatest(done, FULFILLED_CAP, o);
      assert (done + [o])[..|done|] == done;
    }
  }

  /** Over every run: each order placed is pending or fulfilled, once, with the terms it was placed on; pending
      orders stand in the order they were placed; the list of the fulfilled holds the last 4096; and
      exactly the fulfilments by real carriers are credited, the last of them setting the book's tick. */
  lemma {:induction false} BookOfRun(events: seq<Event>)
    ensures Keeps(Run(events), Placements(events), Fulfilled(events))
  {
    hide Keeps, Step;
    if events == [] {
      NothingKept();
    } else {
      var before, e := events[..|events| - 1], events[|events| - 1];
      BookOfRun(before);
      var w, placed, done := Run(before), Placements(before), Fulfilled(before);
      match e {
        case Place(_, _, _, _, _, _) => PlaceKeeps(w, placed, done, e);
        case Assign(_, _, _) => AssignKeeps(w, placed, done, e);
        case Fulfil(_, _, _) => FulfilKeeps(w, placed, done, e);
        case Shape(_, _, _, _) => OthersKeep(w, placed, done, e);
        case Reset => OthersKeep(w, placed, done, e);
      }
      assert placed + [] == placed;
    }
  }

  lemma NothingKept()
    ensures Keeps(NewWorld(), [], [])
  {}

  lemma OthersKeep(w: World, placed: seq<Event>, done: seq<Order>, e: Event)
    requires WithinCaps(w.book) && (e.Shape? || e.Reset?) && (forall x :: x in placed ==> x.Place?)
    requires Keeps(w, placed, done)
    ensures Keeps(Step(w, e), placed, done)
  {
    hide Shaped, Postings;
  }
}
