/** The matching engine: nested loops that match an incoming order while they change the book. */
module MatchingEngines {
  import opened Types
  import opened RestingOrders
  import opened OrderBooks
  import opened Matching
  import opened MatchingTheorems

  const MAX_EVENTS: nat := 16

  datatype MatchResult = Ok | STPTriggered | OrderRejected

  // ---------------------------------------------------------------- specification

  function TradeEvent(aggressor: Event, price: u64, quantity: u64): Event {
    Event(aggressor.timestamp, aggressor.symbolId, TradeExecution, Bid, price, quantity, aggressor.orderId)
  }

  function CancelEvent(aggressor: Event): Event {
    Event(aggressor.timestamp, aggressor.symbolId, CancelOrder, Bid, 0, 0, aggressor.orderId)
  }

  function Trades(aggressor: Event, fills: seq<Fill>): (es: seq<Event>)
    ensures |es| == |fills|
  {
    if fills == [] then []
    else
      var f := fills[|fills| - 1];
      Trades(aggressor, fills[..|fills| - 1]) + [TradeEvent(aggressor, f.price, f.quantity)]
  }

  /** Everything one matching operation has to report, in order. */
  function Trace(aggressor: Event, o: Outcome): seq<Event> {
    Trades(aggressor, o.fills) + if o.stop == SelfTrade then [CancelEvent(aggressor)] else []
  }

  function MatchEvent(q: Queue, aggressor: Event): Outcome
    requires WellFormed(q)
  {
    Match(q, aggressor.side, aggressor.price, aggressor.orderId, aggressor.quantity)
  }

  function Remainder(aggressor: Event, remaining: u64): OrderEntry {
    OrderEntry(aggressor.orderId, aggressor.price, remaining, aggressor.timestamp, aggressor.side)
  }

  /** The book and the result code after a new order that does not stall. */
  function NewOrderSpec(q: Queue, maxOrders: nat, aggressor: Event): (Queue, MatchResult)
    requires WellFormed(q)
  {
    var o := MatchEvent(q, aggressor);
    if o.stop == SelfTrade then (o.book, STPTriggered)
    else if o.remaining == 0 then (o.book, MatchResult.Ok)
    else
      var (r, book) := InsertSpec(o.book, maxOrders, Remainder(aggressor, o.remaining));
      (book, if r == BookResult.Ok then MatchResult.Ok else OrderRejected)
  }

  // ---------------------------------------------------------------- the classes

  /** A fixed-size event buffer. `trace` is what was pushed; only its first 16 events are kept. */
  class MatchOutput {
    var result: MatchResult
    const events: array<Event>
    var eventCount: nat
    ghost var trace: seq<Event>

    ghost predicate Valid()
      reads `eventCount, `trace, events
    {
      && events.Length == MAX_EVENTS
      && eventCount == Min(|trace|, MAX_EVENTS)
      && events[..eventCount] == trace[..eventCount]
    }

    constructor ()
      ensures Valid() && fresh(events) && result == MatchResult.Ok && trace == []
    {
      result := MatchResult.Ok;
      events := new Event[MAX_EVENTS](_ => Event(0, 0, Other, Bid, 0, 0, 0));
      eventCount := 0;
      trace := [];
    }

    method Push(e: Event)
      requires Valid()
      modifies this, events
      ensures Valid() && trace == old(trace) + [e] && result == old(result)
    {
      if eventCount < MAX_EVENTS {
        events[eventCount] := e;
        eventCount := eventCount + 1;
      }
      trace := trace + [e];
    }
  }

  class MatchingEngine {
    constructor () {}

    /** A snapshot of a level's ids in a local buffer. */
    method Snapshot(ids: seq<u64>) returns (snap: array<u64>, count: nat)
      ensures fresh(snap) && snap.Length == MAX_ORDERS_PER_LEVEL && count == Min(|ids|, MAX_ORDERS_PER_LEVEL)
      ensures snap[..count] == ids[..count]
    {
      snap := new u64[MAX_ORDERS_PER_LEVEL](_ => 0);
      count := 0;
      for i := 0 to |ids|
        invariant count == Min(i, MAX_ORDERS_PER_LEVEL) && snap[..count] == ids[..count]
      {
        if count < snap.Length {
          snap[count] := ids[i];
          count := count + 1;
        }
      }
    }

    /** Trades with one resting order: report the fill, reduce the order, reduce what is left. */
    method Execute(book: OrderBook, aggressor: Event, resting: OrderEntry, matchPrice: u64, left: u64, out: MatchOutput)
        returns (less: u64, ghost f: Fill)
      requires book.Valid() && out.Valid() && out !in book.Repr && out.events !in book.Repr
      requires resting.quantity > 0 && left > 0
      modifies book.Repr, out, out.events
      ensures book.Valid() && out.Valid() && out.result == old(out.result)
      ensures f == Fill(resting.orderId, matchPrice, Min(left, resting.quantity))
      ensures less == left - f.quantity
      ensures book.resting == ReduceSpec(old(book.resting), resting.orderId, f.quantity).1
      ensures out.trace == old(out.trace) + [TradeEvent(aggressor, f.price, f.quantity)]
    {
      hide OrderBook.Valid, WellFormed, ReduceSpec, Reduced;
      var fillQty := Min(left, resting.quantity);
      out.Push(TradeEvent(aggressor, matchPrice, fillQty));
      var reduced := book.Reduce(resting.orderId, fillQty);
      less := left - fillQty;
      f := Fill(resting.orderId, matchPrice, fillQty);
    }

    /**
     One pass of the outer loop: fill down the best opposite level, from a snapshot of its list.
     This needs no assumption that matching ends. A pass over an empty list changes nothing, so
     the outer loop would start over in the same state.
     */
    method SweepLevel(book: OrderBook, aggressor: Event, matchPrice: u64, remaining: u64, out: MatchOutput)
        returns (left: u64, stpHit: bool, ghost fills: seq<Fill>)
      requires book.Valid() && out.Valid() && out !in book.Repr && out.events !in book.Repr
      requires remaining > 0 && CanCross(book.resting, aggressor.side, aggressor.price)
      requires matchPrice == Best(book.resting, aggressor.side.Opposite())
      modifies book.Repr, out, out.events
      ensures book.Valid() && out.Valid()
      ensures var o := Match(old(book.resting), aggressor.side, aggressor.price, aggressor.orderId, remaining);
              if stpHit then o == Outcome(book.resting, fills, left, SelfTrade)
              else o == Prepend(fills, Match(book.resting, aggressor.side, aggressor.price, aggressor.orderId, left))
      ensures out.trace == old(out.trace) + Trades(aggressor, fills) + if stpHit then [CancelEvent(aggressor)] else []
      ensures out.result == if stpHit then STPTriggered else old(out.result)
      ensures !stpHit ==> if old(FifoIds(book.resting, aggressor.side.Opposite(), matchPrice)) == []
                          then left == remaining && book.resting == old(book.resting)
                          else left < remaining
      ensures !stpHit && left > 0 ==> FifoIds(book.resting, aggressor.side.Opposite(), matchPrice) == []
    {
      hide Match, Fifo, FifoIds, Best, WellFormed, Orders, ReduceSpec, OrderBook.Valid, CanFill, Trades, MatchOutput.Valid, IsSelfTrade, Prepend;
      var side, opp, id := aggressor.side, aggressor.side.Opposite(), aggressor.orderId;
      ghost var q0 := book.resting;
      ghost var all := FifoIds(q0, opp, matchPrice);
      FifoBounded(q0, opp, matchPrice);
      BestInRange(q0, opp);
      var ids := book.OrderIdsAt(matchPrice, opp);
      var snap, snapCount := Snapshot(ids);
      left, stpHit, fills := remaining, false, [];
      TradesSnoc(aggressor, [], Fill(0, 0, 0));
      PrependTwice([], [], Match(q0, side, aggressor.price, id, remaining));
      for i := 0 to snapCount
        invariant book.Valid() && out.Valid() && out.result == old(out.result)
        invariant Match(q0, side, aggressor.price, id, remaining) ==
                  Prepend(fills, Match(book.resting, side, aggressor.price, id, left))
        invariant out.trace == old(out.trace) + Trades(aggressor, fills)
        invariant left > 0 ==> FifoIds(book.resting, opp, matchPrice) == all[i..]
        invariant left > 0 && i < snapCount ==> Best(book.resting, opp) == matchPrice
        invariant if i == 0 then left == remaining && book.resting == q0 else left < remaining
        invariant snap[..snapCount] == all
      {
        if left == 0 { break; }
        var restingId := snap[i];
        assert restingId == all[i];
        FrontById(book.resting, side, aggressor.price, id, left);
        var resting := book.FindOrder(restingId);
        if resting.None? { assert false; }
        if IsSelfTrade(id, restingId) {
          PrependTwice(fills, [], Match(book.resting, side, aggressor.price, id, left));
          out.Push(CancelEvent(aggressor));
          out.result := STPTriggered;
          stpHit := true;
          return;
        }
        Turn(book.resting, side, aggressor.price, id, left, restingId, Min(left, resting.value.quantity));
        ghost var f: Fill;
        left, f := Execute(book, aggressor, resting.value, matchPrice, left, out);
        TradesSnoc(aggressor, fills, f);
        PrependTwice(fills, [f], Match(book.resting, side, aggressor.price, id, left));
        fills := fills + [f];
      }
    }

    /** The outer loop: sweep one level after another until nothing is left to match. */
    method MatchOpposite(book: OrderBook, aggressor: Event, out: MatchOutput) returns (remaining: u64, stpHit: bool)
      requires book.Valid() && out.Valid() && out !in book.Repr && out.events !in book.Repr
      requires out.trace == [] && out.result == MatchResult.Ok
      requires MatchEvent(book.resting, aggressor).stop != Stalled
      modifies book.Repr, out, out.events
      ensures book.Valid() && out.Valid()
      ensures var o := MatchEvent(old(book.resting), aggressor);
              && book.resting == o.book && remaining == o.remaining && stpHit == (o.stop == SelfTrade)
              && out.trace == Trace(aggressor, o)
              && out.result == if stpHit then STPTriggered else MatchResult.Ok
    {
      hide Match, Fifo, FifoIds, Best, WellFormed, Orders, OrderBook.Valid;
      var side, opp, id := aggressor.side, aggressor.side.Opposite(), aggressor.orderId;
      remaining, stpHit := aggressor.quantity, false;
      ghost var q0, fills := book.resting, [];
      while remaining > 0
        invariant book.Valid() && out.Valid() && out.result == MatchResult.Ok
        invariant MatchEvent(q0, aggressor) ==
                  Prepend(fills, Match(book.resting, side, aggressor.price, id, remaining))
        invariant out.trace == Trades(aggressor, fills)
      {
        BestInRange(book.resting, opp);
        if side == Bid {
          if !book.HasAsk() || book.bestAsk > aggressor.price { break; }
        } else {
          if !book.HasBid() || book.bestBid < aggressor.price { break; }
        }
        var matchPrice := if side == Bid then book.bestAsk else book.bestBid;
        EmptyListStalls(book.resting, side, aggressor.price, id, remaining);
        ghost var more;
        remaining, stpHit, more := SweepLevel(book, aggressor, matchPrice, remaining, out);
        TradesConcat(aggressor, fills, more);
        fills := fills + more;
        if stpHit { return; }
      }
      NothingToMatch(book.resting, side, aggressor.price, id, remaining);
      assert fills + [] == fills && out.trace + [] == out.trace;
    }

    /**
     The outer loop, cut off after n passes. It says that "stalled" is what it is meant to be: a
     match that stalls is not done after any number of passes, and every other match is done after
     at most one pass more than the order has quantity. From then on a stalled loop stays in the
     one state that `Match` ends in.
     */
    method MatchPasses(book: OrderBook, aggressor: Event, out: MatchOutput, n: nat)
        returns (done: bool, remaining: u64, stpHit: bool)
      requires book.Valid() && out.Valid() && out !in book.Repr && out.events !in book.Repr
      requires out.trace == []
      modifies book.Repr, out, out.events
      ensures book.Valid() && out.Valid()
      ensures var o := MatchEvent(old(book.resting), aggressor);
              && (o.stop == Stalled ==> !done)
              && (n > aggressor.quantity ==>
                    && done == (o.stop != Stalled) && stpHit == (o.stop == SelfTrade)
                    && book.resting == o.book && remaining == o.remaining && out.trace == Trace(aggressor, o))
    {
      hide Match, Fifo, FifoIds, Best, WellFormed, Orders, OrderBook.Valid, MatchOutput.Valid, Trades;
      var side, opp, id := aggressor.side, aggressor.side.Opposite(), aggressor.orderId;
      done, remaining, stpHit := false, aggressor.quantity, false;
      ghost var q0, fills, stuck := book.resting, [], false;
      TradesSnoc(aggressor, [], Fill(0, 0, 0));
      PrependTwice([], [], MatchEvent(q0, aggressor));
      var i := 0;
      while i < n && remaining > 0
        invariant i <= n && book.Valid() && out.Valid()
        invariant MatchEvent(q0, aggressor) ==
                  Prepend(fills, Match(book.resting, side, aggressor.price, id, remaining))
        invariant out.trace == Trades(aggressor, fills)
        invariant if stuck then Match(book.resting, side, aggressor.price, id, remaining) ==
                                Outcome(book.resting, [], remaining, Stalled)
                  else remaining + i <= aggressor.quantity
        invariant stuck ==> remaining > 0
        invariant !done && !stpHit
      {
        BestInRange(book.resting, opp);
        if side == Bid {
          if !book.HasAsk() || book.bestAsk > aggressor.price { done := true; break; }
        } else {
          if !book.HasBid() || book.bestBid < aggressor.price { done := true; break; }
        }
        var matchPrice := if side == Bid then book.bestAsk else book.bestBid;
        EmptyListStalls(book.resting, side, aggressor.price, id, remaining);
        stuck := FifoIds(book.resting, opp, matchPrice) == [];
        ghost var more;
        remaining, stpHit, more := SweepLevel(book, aggressor, matchPrice, remaining, out);
        TradesConcat(aggressor, fills, more);
        PrependTwice(fills, more, Match(book.resting, side, aggressor.price, id, remaining));
        fills := fills + more;
        if stpHit { return true, remaining, stpHit; }
        i := i + 1;
      }
      if remaining == 0 { done := true; }
      if done {
        NothingToMatch(book.resting, side, aggressor.price, id, remaining);
      }
      PrependTwice(fills, [], Match(book.resting, side, aggressor.price, id, remaining));
      assert out.trace + [] == out.trace;
    }

    /**
     Matches a new order and rests what is left of it. The precondition says that the outer loop
     ends; `StallsIff` characterises it by what the book holds before the call.
     */
    method ProcessNewOrder(book: OrderBook, aggressor: Event) returns (out: MatchOutput)
      requires book.Valid()
      requires MatchEvent(book.resting, aggressor).stop != Stalled
      requires InRange(aggressor.price) ==>
                 Total(book.resting, aggressor.side, aggressor.price) + aggressor.quantity <= MAX_U64
      modifies book.Repr
      ensures book.Valid() && out.Valid() && fresh(out) && fresh(out.events)
      ensures (book.resting, out.result) == NewOrderSpec(old(book.resting), book.MaxOrders(), aggressor)
      ensures out.trace == Trace(aggressor, MatchEvent(old(book.resting), aggressor))
    {
      hide Match, Fifo, FifoIds, Best, WellFormed, Orders, Total, OrderBook.Valid, Inserted;
      out := new MatchOutput();
      var remaining, stpHit := MatchOpposite(book, aggressor, out);
      if stpHit { return; }
      MatchConserves(old(book.resting), aggressor.side, aggressor.price, aggressor.orderId,
                     aggressor.quantity, aggressor.price);
      if remaining > 0 {
        var inserted := book.Insert(Remainder(aggressor, remaining));
        if inserted != BookResult.Ok {
          out.result := OrderRejected;
        }
      }
    }

    method ProcessCancel(book: OrderBook, event: Event) returns (r: BookResult)
      requires book.Valid()
      modifies book.Repr
      ensures book.Valid()
      ensures (r, book.resting) == CancelSpec(old(book.resting), event.orderId)
      ensures Cancelled(old(book.resting), event.orderId, r, book.resting)
    {
      r := book.Cancel(event.orderId);
    }

    method ProcessModify(book: OrderBook, event: Event) returns (r: BookResult)
      requires book.Valid()
      requires var i := IndexOf(book.resting, event.orderId);
               i < |book.resting| && InRange(event.price) ==>
                 Total(RemoveAt(book.resting, i), book.resting[i].entry.side, event.price) + event.quantity <= MAX_U64
      modifies book.Repr
      ensures (r, book.resting) == ModifySpec(old(book.resting), event.orderId, event.price, event.quantity)
      ensures Modified(old(book.resting), event.orderId, event.price, event.quantity, r, book.resting)
      ensures book.Stored() && (event.quantity > 0 || r != BookResult.Ok ==> book.Valid())
    {
      r := book.Modify(event.orderId, event.price, event.quantity);
    }
  }

  lemma PrependTwice(a: seq<Fill>, b: seq<Fill>, o: Outcome)
    ensures Prepend(a, Prepend(b, o)) == Prepend(a + b, o)
    ensures Prepend([], o) == o && Prepend(a, o) == o.(fills := a + o.fills) && a + [] == a
  {
    assert a + (b + o.fills) == a + b + o.fills && [] + o.fills == o.fills && a + [] == a;
  }

  lemma TradesSnoc(aggressor: Event, fills: seq<Fill>, f: Fill)
    ensures Trades(aggressor, fills + [f]) == Trades(aggressor, fills) + [TradeEvent(aggressor, f.price, f.quantity)]
    ensures Trades(aggressor, []) == []
  {
    assert (fills + [f])[..|fills|] == fills;
  }

  lemma {:induction false} TradesConcat(aggressor: Event, a: seq<Fill>, b: seq<Fill>)
    ensures Trades(aggressor, a + b) == Trades(aggressor, a) + Trades(aggressor, b)
  {
    if b == [] {
      assert a + b == a;
    } else {
      assert (a + b)[..|a + b| - 1] == a + b[..|b| - 1];
      TradesConcat(aggressor, a, b[..|b| - 1]);
    }
  }

  /** An empty list at a best price that the order trades at means that matching stalls. */
  lemma EmptyListStalls(q: Queue, side: Side, limit: u64, id: u64, rem: u64)
    requires WellFormed(q) && rem > 0 && CanCross(q, side, limit)
    ensures FifoIds(q, side.Opposite(), Best(q, side.Opposite())) == [] ==>
            Match(q, side, limit, id, rem) == Outcome(q, [], rem, Stalled)
  {
    if FifoIds(q, side.Opposite(), Best(q, side.Opposite())) == [] {
      Halt(q, side, limit, id, rem);
    }
  }

  lemma NothingToMatch(q: Queue, side: Side, limit: u64, id: u64, rem: u64)
    requires WellFormed(q) && (rem == 0 || !CanCross(q, side, limit))
    ensures Match(q, side, limit, id, rem) == Outcome(q, [], rem, if rem == 0 then Exhausted else Uncrossed)
  {
    Halt(q, side, limit, id, rem);
  }
}
