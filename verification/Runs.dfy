/** Whole runs of one symbol's engine: what every sequence of events keeps. */
module Runs {
  import opened Types
  import opened FlatOrderMaps
  import opened RestingOrders
  import opened Matching
  import opened MatchingTheorems
  import opened MatchingEngines

  /** A modification to quantity zero would leave an order without quantity in the book. */
  predicate EventOk(ev: Event) {
    ev.kind == ModifyOrder ==> ev.quantity > 0
  }

  /** One event; None when the engine never returns from it. */
  function Apply(q: Queue, maxOrders: nat, ev: Event): (r: Option<Queue>)
    requires WellFormed(q) && EventOk(ev)
    ensures r.Some? ==> WellFormed(r.value)
  {
    match ev.kind
    case NewOrder =>
      if MatchEvent(q, ev).stop == Stalled then None
      else
        NewOrderWellFormed(q, maxOrders, ev);
        Some(NewOrderSpec(q, maxOrders, ev).0)
    case CancelOrder =>
      CancelWellFormed(q, ev.orderId);
      Some(CancelSpec(q, ev.orderId).1)
    case ModifyOrder =>
      ModifyWellFormed(q, ev.orderId, ev.price, ev.quantity);
      Some(ModifySpec(q, ev.orderId, ev.price, ev.quantity).1)
    case _ => Some(q)
  }

  lemma NewOrderWellFormed(q: Queue, maxOrders: nat, ev: Event)
    requires WellFormed(q)
    ensures WellFormed(NewOrderSpec(q, maxOrders, ev).0)
  {
    hide Match;
    var o := MatchEvent(q, ev);
    var e := Remainder(ev, o.remaining);
    if InRange(e.price) && e.orderId !in Orders(o.book) && Legal(e.orderId) && o.remaining > 0 {
      AppendWellFormed(o.book, e);
    }
  }

  lemma CancelWellFormed(q: Queue, id: u64)
    requires WellFormed(q)
    ensures WellFormed(CancelSpec(q, id).1)
  {
    if IndexOf(q, id) < |q| {
      RemoveWellFormed(q, IndexOf(q, id));
    }
  }

  lemma ModifyWellFormed(q: Queue, id: u64, price: u64, quantity: u64)
    requires WellFormed(q) && quantity > 0
    ensures WellFormed(ModifySpec(q, id, price, quantity).1)
  {
    var i := IndexOf(q, id);
    if i < |q| && InRange(price) {
      RemoveWellFormed(q, i);
      ModifyReinserts(q, |q|, i, price, quantity);
      assert EntryOk(q[i].entry);
      AppendWellFormed(RemoveAt(q, i), q[i].entry.(price := price, quantity := quantity));
    }
  }

  function Run(q: Queue, maxOrders: nat, evs: seq<Event>): (r: Option<Queue>)
    requires WellFormed(q) && forall ev | ev in evs :: EventOk(ev)
    ensures r.Some? ==> WellFormed(r.value)
    decreases |evs|
  {
    if evs == [] then Some(q)
    else
      match Apply(q, maxOrders, evs[0])
      case None => None
      case Some(u) => Run(u, maxOrders, evs[1..])
  }

  // ---------------------------------------------------------------- never crossed

  /** A book is uncrossed when every live bid is below every live ask. */
  lemma UncrossedIff(q: Queue)
    requires WellFormed(q)
    ensures !Crossed(q) <==>
            forall i, j | 0 <= i < |q| && 0 <= j < |q| && q[i].entry.side == Bid && q[j].entry.side == Ask ::
              q[i].entry.price < q[j].entry.price
  {
    hide Best;
    BestIsExtreme(q);
    BestInRange(q, Bid);
    BestInRange(q, Ask);
  }

  /** Matching only takes liquidity away from the side it trades with. */
  lemma MatchKeepsUncrossed(q: Queue, side: Side, limit: u64, id: u64, rem: u64)
    requires WellFormed(q) && !Crossed(q)
    ensures !Crossed(Match(q, side, limit, id, rem).book)
  {
    hide Match, Best, WellFormed;
    MatchBest(q, side, limit, id, rem);
  }

  /** An order that does not trade at the opposite best price can rest without crossing the book. */
  lemma RestKeepsUncrossed(q: Queue, e: OrderEntry)
    requires WellFormed(q) && !Crossed(q) && !CanCross(q, e.side, e.price) && InRange(e.price)
    ensures !Crossed(Append(q, e))
  {
    hide Best, WellFormed, Append;
    AppendViews(q, e, Bid, 0);
    AppendViews(q, e, Ask, 0);
  }

  /** A new order leaves an uncrossed book uncrossed, whatever its price, and however it ends. */
  lemma NewOrderKeepsUncrossed(q: Queue, maxOrders: nat, ev: Event)
    requires WellFormed(q) && !Crossed(q) && MatchEvent(q, ev).stop != Stalled
    ensures !Crossed(NewOrderSpec(q, maxOrders, ev).0)
  {
    hide Match, Best, WellFormed, Append, Crossed, CanCross, Orders;
    var o := MatchEvent(q, ev);
    MatchKeepsUncrossed(q, ev.side, ev.price, ev.orderId, ev.quantity);
    MatchBest(q, ev.side, ev.price, ev.orderId, ev.quantity);
    if o.stop == Uncrossed && InRange(ev.price) {
      RestKeepsUncrossed(o.book, Remainder(ev, o.remaining));
    }
  }

  /** Taking an order out of an uncrossed book leaves it uncrossed. */
  lemma RemoveKeepsUncrossed(q: Queue, i: nat)
    requires WellFormed(q) && i < |q| && !Crossed(q)
    ensures !Crossed(RemoveAt(q, i))
    ensures forall side :: !Better(side, Best(RemoveAt(q, i), side), Best(q, side))
  {
    hide Best, Fifo, WellFormed, Total;
    var u := RemoveAt(q, i);
    RemoveWellFormed(q, i);
    forall side
      ensures !Better(side, Best(u, side), Best(q, side))
    {
      RemoveBest(q, i, side);
      BestByTotals(u, side, Best(u, side));
      BestInRange(q, side);
    }
  }

  /**
   A modification re-enters the book without matching. It leaves an uncrossed book uncrossed
   exactly when the new price does not trade at the opposite best price.
   */
  lemma ModifyCrossesIff(q: Queue, id: u64, price: u64, quantity: u64)
    requires WellFormed(q) && !Crossed(q)
    ensures var i := IndexOf(q, id);
            Crossed(ModifySpec(q, id, price, quantity).1) <==>
            i < |q| && InRange(price) &&
            Crosses(q[i].entry.side, price, Best(q, q[i].entry.side.Opposite()))
  {
    hide Best, Fifo, WellFormed, Total, IndexOf;
    var i := IndexOf(q, id);
    if i < |q| && InRange(price) {
      var u, e := RemoveAt(q, i), q[i].entry.(price := price, quantity := quantity);
      RemoveKeepsUncrossed(q, i);
      RemoveOtherBest(q, i);
      AppendViews(u, e, Bid, 0);
      AppendViews(u, e, Ask, 0);
      assert Best(u, e.side.Opposite()) == Best(q, e.side.Opposite());
    }
  }

  /** Removing an order leaves the other side's best price alone. */
  lemma RemoveOtherBest(q: Queue, i: nat)
    requires WellFormed(q) && i < |q|
    ensures Best(RemoveAt(q, i), q[i].entry.side.Opposite()) == Best(q, q[i].entry.side.Opposite())
  {
    RemoveBest(q, i, q[i].entry.side.Opposite());
  }

  /** The event does not reprice an order across the opposite best price. */
  predicate KeepsApart(q: Queue, ev: Event) {
    var i := IndexOf(q, ev.orderId);
    ev.kind == ModifyOrder && i < |q| && InRange(ev.price) ==>
      !Crosses(q[i].entry.side, ev.price, Best(q, q[i].entry.side.Opposite()))
  }

  /** Every event of the run keeps apart in the book that it meets. */
  ghost predicate AllKeepApart(q: Queue, maxOrders: nat, evs: seq<Event>)
    requires WellFormed(q) && forall ev | ev in evs :: EventOk(ev)
    decreases |evs|
  {
    evs == [] || (KeepsApart(q, evs[0]) &&
                  match Apply(q, maxOrders, evs[0])
                  case None => true
                  case Some(u) => AllKeepApart(u, maxOrders, evs[1..]))
  }

  lemma ApplyKeepsUncrossed(q: Queue, maxOrders: nat, ev: Event)
    requires WellFormed(q) && EventOk(ev) && !Crossed(q) && KeepsApart(q, ev)
    ensures Apply(q, maxOrders, ev).Some? ==> !Crossed(Apply(q, maxOrders, ev).value)
  {
    hide Best, Fifo, WellFormed, Total, IndexOf, NewOrderSpec, Crossed;
    match ev.kind
    case NewOrder =>
      if MatchEvent(q, ev).stop != Stalled {
        NewOrderKeepsUncrossed(q, maxOrders, ev);
      }
    case CancelOrder =>
      if IndexOf(q, ev.orderId) < |q| {
        RemoveKeepsUncrossed(q, IndexOf(q, ev.orderId));
      }
    case ModifyOrder => ModifyCrossesIff(q, ev.orderId, ev.price, ev.quantity);
    case _ =>
  }

  /** The book is never crossed after any run in which no modification crosses it. */
  lemma {:induction false} NeverCrossed(q: Queue, maxOrders: nat, evs: seq<Event>)
    requires WellFormed(q) && !Crossed(q)
    requires forall ev | ev in evs :: EventOk(ev)
    requires AllKeepApart(q, maxOrders, evs)
    ensures Run(q, maxOrders, evs).Some? ==> !Crossed(Run(q, maxOrders, evs).value)
    decreases |evs|
  {
    hide Crossed, Apply, WellFormed, KeepsApart;
    if evs != [] {
      ApplyKeepsUncrossed(q, maxOrders, evs[0]);
      var r := Apply(q, maxOrders, evs[0]);
      if r.Some? {
        NeverCrossed(r.value, maxOrders, evs[1..]);
      }
    }
  }

  /** New orders, cancellations and market updates alone never cross a book that starts empty. */
  lemma NeverCrossedWithoutModify(maxOrders: nat, evs: seq<Event>)
    requires forall ev | ev in evs :: ev.kind != ModifyOrder
    ensures Run([], maxOrders, evs).Some? ==> !Crossed(Run([], maxOrders, evs).value)
  {
    KeepApartWithoutModify([], maxOrders, evs);
    NeverCrossed([], maxOrders, evs);
  }

  lemma {:induction false} KeepApartWithoutModify(q: Queue, maxOrders: nat, evs: seq<Event>)
    requires WellFormed(q) && forall ev | ev in evs :: ev.kind != ModifyOrder
    ensures AllKeepApart(q, maxOrders, evs)
    decreases |evs|
  {
    hide Apply, WellFormed;
    if evs != [] {
      var r := Apply(q, maxOrders, evs[0]);
      if r.Some? {
        KeepApartWithoutModify(r.value, maxOrders, evs[1..]);
      }
    }
  }

  // ---------------------------------------------------------------- the order limit

  /** No run takes more live orders than the book was built for. */
  lemma {:induction false} OrderLimit(q: Queue, maxOrders: nat, evs: seq<Event>)
    requires WellFormed(q) && |q| <= maxOrders
    requires forall ev | ev in evs :: EventOk(ev)
    ensures Run(q, maxOrders, evs).Some? ==> |Run(q, maxOrders, evs).value| <= maxOrders
    decreases |evs|
  {
    hide WellFormed;
    if evs != [] {
      var r := Apply(q, maxOrders, evs[0]);
      if r.Some? {
        ApplySize(q, maxOrders, evs[0]);
        OrderLimit(r.value, maxOrders, evs[1..]);
      }
    }
  }

  lemma ApplySize(q: Queue, maxOrders: nat, ev: Event)
    requires WellFormed(q) && |q| <= maxOrders && EventOk(ev)
    ensures Apply(q, maxOrders, ev).Some? ==> |Apply(q, maxOrders, ev).value| <= maxOrders
  {
    hide WellFormed, Match, Fifo;
    if ev.kind == NewOrder {
      MatchResidue(q, ev.side, ev.price, ev.orderId, ev.quantity);
      ResidueSize(q, MatchEvent(q, ev).fills);
    }
  }

  lemma {:induction false} ResidueSize(q: Queue, fills: seq<Fill>)
    ensures |Residue(q, fills)| <= |q|
  {
    if q != [] {
      ResidueSize(Init(q), fills);
    }
  }

  // ---------------------------------------------------------------- no level overflows

  /** Some quantity of the new order is left after matching, and the book accepts it. */
  predicate Rests(q: Queue, maxOrders: nat, ev: Event)
    requires WellFormed(q)
  {
    var o := MatchEvent(q, ev);
    && ev.kind == NewOrder && o.stop != SelfTrade && o.remaining > 0
    && InsertSpec(o.book, maxOrders, Remainder(ev, o.remaining)).0 == BookResult.Ok
  }

  /** The event does not put a 17th order on the list of a level. */
  predicate HasPlace(q: Queue, maxOrders: nat, ev: Event)
    requires WellFormed(q)
  {
    var i := IndexOf(q, ev.orderId);
    && (Rests(q, maxOrders, ev) ==> HasRoom(q, ev.side, ev.price))
    && (ev.kind == ModifyOrder && i < |q| && InRange(ev.price) ==> HasRoom(RemoveAt(q, i), q[i].entry.side, ev.price))
  }

  ghost predicate AllHavePlaces(q: Queue, maxOrders: nat, evs: seq<Event>)
    requires WellFormed(q) && forall ev | ev in evs :: EventOk(ev)
    decreases |evs|
  {
    evs == [] || (HasPlace(q, maxOrders, evs[0]) &&
                  match Apply(q, maxOrders, evs[0])
                  case None => true
                  case Some(u) => AllHavePlaces(u, maxOrders, evs[1..]))
  }

  lemma {:induction false} ResidueListed(q: Queue, fills: seq<Fill>)
    requires AllListed(q)
    ensures AllListed(Residue(q, fills))
  {
    if q != [] {
      assert q[|q| - 1].listed;
      ResidueListed(Init(q), fills);
    }
  }

  lemma ListedAppend(q: Queue, e: OrderEntry)
    requires AllListed(q)
    ensures AllListed(Append(q, e)) <==> HasRoom(q, e.side, e.price)
  {
    assert Append(q, e)[|q|].listed == HasRoom(q, e.side, e.price);
  }

  /**
   From a book whose orders are all listed every event returns, and it leaves all orders listed if
   and only if the order that it adds, if it adds one, finds room on its list.
   */
  lemma ApplyKeepsListedIff(q: Queue, maxOrders: nat, ev: Event)
    requires WellFormed(q) && EventOk(ev) && AllListed(q)
    ensures Apply(q, maxOrders, ev).Some?
    ensures AllListed(Apply(q, maxOrders, ev).value) <==> HasPlace(q, maxOrders, ev)
  {
    hide Match, Fifo, WellFormed, IndexOf, AllListed, Append, Orders, HasRoom;
    match ev.kind
    case NewOrder =>
      var o := MatchEvent(q, ev);
      ListedNeverStalls(q, ev.side, ev.price, ev.orderId, ev.quantity);
      MatchResidue(q, ev.side, ev.price, ev.orderId, ev.quantity);
      ResidueListed(q, o.fills);
      MatchConserves(q, ev.side, ev.price, ev.orderId, ev.quantity, ev.price);
      ListedAppend(o.book, Remainder(ev, o.remaining));
      SameRoom(q, o.book, ev.side, ev.price);
    case ModifyOrder =>
      var i := IndexOf(q, ev.orderId);
      if i < |q| && InRange(ev.price) {
        ListedRemove(q, i);
        ListedAppend(RemoveAt(q, i), q[i].entry.(price := ev.price, quantity := ev.quantity));
      }
    case CancelOrder =>
      if IndexOf(q, ev.orderId) < |q| {
        ListedRemove(q, IndexOf(q, ev.orderId));
      }
    case _ =>
  }

  lemma SameRoom(q: Queue, u: Queue, side: Side, price: int)
    requires Fifo(q, side, price) == Fifo(u, side, price)
    ensures HasRoom(q, side, price) == HasRoom(u, side, price)
  {
  }

  lemma ListedRemove(q: Queue, i: nat)
    requires AllListed(q) && i < |q|
    ensures AllListed(RemoveAt(q, i))
  {
  }

  /** While no level is asked to hold more than 16 orders, every event returns and every order is listed. */
  lemma {:induction false} NeverHangs(q: Queue, maxOrders: nat, evs: seq<Event>)
    requires WellFormed(q) && AllListed(q)
    requires forall ev | ev in evs :: EventOk(ev)
    requires AllHavePlaces(q, maxOrders, evs)
    ensures Run(q, maxOrders, evs).Some? && AllListed(Run(q, maxOrders, evs).value)
    decreases |evs|
  {
    hide Apply, WellFormed, HasPlace, AllListed;
    if evs != [] {
      ApplyKeepsListedIff(q, maxOrders, evs[0]);
      NeverHangs(Apply(q, maxOrders, evs[0]).value, maxOrders, evs[1..]);
    }
  }

  // ---------------------------------------------------------------- orders outside the lists starve

  /** A trade takes a listed order and leaves every unlisted one where it is. */
  lemma TradedSparesUnlisted(q: Queue, e: OrderEntry, n: nat, r: Resting)
    requires WellFormed(q) && e.orderId in Orders(q) && Orders(q)[e.orderId] == e
    requires Fifo(q, e.side, e.price) != [] && Fifo(q, e.side, e.price)[0] == e
    requires r in q && !r.listed
    ensures r in Traded(q, e.orderId, n) && e.orderId != r.entry.orderId
  {
    hide Fifo, Orders, WellFormed, IndexOf;
    var i := IndexOf(q, e.orderId);
    IndexOfLive(q, e.orderId);
    HeadIsFirst(q, i, e.side, e.price);
    Spared(q, i, r);
    var k :| 0 <= k < |q| && q[k] == r;
    SameIdSamePlace(q, i, k);
  }

  lemma SameIdSamePlace(q: Queue, i: nat, k: nat)
    requires WellFormed(q) && i < |q| && k < |q|
    ensures q[i].entry.orderId == q[k].entry.orderId ==> i == k
  {
  }

  /** Removing or changing another order keeps this one. */
  lemma Spared(q: Queue, i: nat, r: Resting)
    requires i < |q| && r in q && r != q[i]
    ensures r in RemoveAt(q, i)
    ensures forall n: nat | n < q[i].entry.quantity :: r in ShrinkAt(q, i, n)
  {
    var k :| 0 <= k < |q| && q[k] == r;
    assert r == RemoveAt(q, i)[if k < i then k else k - 1];
    forall n: nat | n < q[i].entry.quantity
      ensures r in ShrinkAt(q, i, n)
    {
      assert ShrinkAt(q, i, n)[k] == r;
    }
  }

  /** Matching never touches an unlisted order, whether or not it stalls. */
  lemma {:induction false} MatchSparesUnlisted(q: Queue, side: Side, limit: u64, id: u64, rem: u64, r: Resting)
    requires WellFormed(q) && r in q && !r.listed
    ensures var o := Match(q, side, limit, id, rem);
            r in o.book && forall f | f in o.fills :: f.restingId != r.entry.orderId
    decreases rem
  {
    hide Match, Fifo, Best, WellFormed, Traded;
    if CanFill(q, side, limit, id, rem) {
      Unfold(q, side, limit, id, rem);
      TradedSparesUnlisted(q, Front(q, side.Opposite()), StepQuantity(q, side, rem), r);
      MatchSparesUnlisted(StepBook(q, side, rem), side, limit, id, rem - StepQuantity(q, side, rem), r);
    } else {
      Halt(q, side, limit, id, rem);
    }
  }

  /** The event cancels or modifies the order. */
  predicate Names(ev: Event, id: u64) {
    (ev.kind == CancelOrder || ev.kind == ModifyOrder) && ev.orderId == id
  }

  /** A new order that trades with the order `id`. */
  ghost predicate TradesWith(q: Queue, ev: Event, id: u64)
    requires WellFormed(q)
  {
    ev.kind == NewOrder && exists f :: f in MatchEvent(q, ev).fills && f.restingId == id
  }

  lemma ApplySparesUnlisted(q: Queue, maxOrders: nat, ev: Event, r: Resting)
    requires WellFormed(q) && EventOk(ev) && r in q && !r.listed && !Names(ev, r.entry.orderId)
    ensures !TradesWith(q, ev, r.entry.orderId)
    ensures Apply(q, maxOrders, ev).Some? ==> r in Apply(q, maxOrders, ev).value
  {
    hide Match, Fifo, WellFormed, IndexOf, Orders, HasRoom;
    match ev.kind
    case NewOrder => MatchSparesUnlisted(q, ev.side, ev.price, ev.orderId, ev.quantity, r);
    case CancelOrder | ModifyOrder =>
      if IndexOf(q, ev.orderId) < |q| {
        Spared(q, IndexOf(q, ev.orderId), r);
      }
    case _ =>
  }

  /** Some event of the run trades with the order `id`. */
  ghost predicate EverTraded(q: Queue, maxOrders: nat, evs: seq<Event>, id: u64)
    requires WellFormed(q) && forall ev | ev in evs :: EventOk(ev)
    decreases |evs|
  {
    evs != [] && (TradesWith(q, evs[0], id) ||
                  match Apply(q, maxOrders, evs[0])
                  case None => false
                  case Some(u) => EverTraded(u, maxOrders, evs[1..], id))
  }

  /**
   Starvation: an order whose level had no room for it is not traded, and stays as it is, over any
   run that does not cancel or modify it.
   */
  lemma {:induction false} UnlistedStarves(q: Queue, maxOrders: nat, evs: seq<Event>, r: Resting)
    requires WellFormed(q) && r in q && !r.listed
    requires forall ev | ev in evs :: EventOk(ev) && !Names(ev, r.entry.orderId)
    ensures !EverTraded(q, maxOrders, evs, r.entry.orderId)
    ensures Run(q, maxOrders, evs).Some? ==> r in Run(q, maxOrders, evs).value
    decreases |evs|
  {
    hide Apply, WellFormed, TradesWith;
    if evs != [] {
      ApplySparesUnlisted(q, maxOrders, evs[0], r);
      var u := Apply(q, maxOrders, evs[0]);
      if u.Some? {
        UnlistedStarves(u.value, maxOrders, evs[1..], r);
      }
    }
  }
}
