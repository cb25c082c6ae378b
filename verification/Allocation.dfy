/** Who gets what: matching described order by order, and event by event. */
module Allocation {
  import opened Types
  import opened FlatOrderMaps
  import opened RestingOrders
  import opened Matching
  import opened MatchingTheorems
  import opened MatchingEngines

  // ---------------------------------------------------------------- the ladder is complete

  lemma {:induction false} FifoMembers(q: Queue, side: Side, price: int, e: OrderEntry)
    ensures e in Fifo(q, side, price) <==> exists i :: 0 <= i < |q| && q[i].listed && IsAt(q[i], side, price) && q[i].entry == e
  {
    if q != [] {
      FifoMembers(Init(q), side, price, e);
      assert forall i | 0 <= i < |q| - 1 :: Init(q)[i] == q[i];
      if i :| 0 <= i < |q| && q[i].listed && IsAt(q[i], side, price) && q[i].entry == e {
        if i < |q| - 1 {
          assert IsAt(Init(q)[i], side, price);
        }
      }
    }
  }

  /** The ladder holds the listed orders of its side down to its last price, and no others. */
  lemma {:induction false} LadderMembers(q: Queue, side: Side, k: nat, e: OrderEntry)
    ensures e in Ladder(q, side, k) <==>
            1 <= RankOf(side, e.price) <= k && e in Fifo(q, side, e.price)
  {
    if k > 0 {
      LadderMembers(q, side, k - 1, e);
      FifoMembers(q, side, PriceAt(side, k), e);
      assert PriceAt(side, RankOf(side, e.price)) == e.price;
    }
  }

  /** The ladder runs from better to worse prices, and its ids are distinct live orders. */
  lemma {:induction false} LadderExact(q: Queue, side: Side, k: nat)
    requires WellFormed(q)
    ensures forall i | 0 <= i < |Ladder(q, side, k)| ::
              var e := Ladder(q, side, k)[i];
              e.orderId in Orders(q) && Orders(q)[e.orderId] == e && e.side == side &&
              1 <= RankOf(side, e.price) <= k
    ensures forall i, j | 0 <= i < j < |Ladder(q, side, k)| ::
              Ladder(q, side, k)[i].orderId != Ladder(q, side, k)[j].orderId &&
              !Better(side, Ladder(q, side, k)[j].price, Ladder(q, side, k)[i].price)
  {
    hide Fifo, WellFormed, Orders;
    if k > 0 {
      LadderExact(q, side, k - 1);
      FifoExact(q, side, PriceAt(side, k));
    }
  }

  /** An order that matches on this side and limit walks exactly the listed orders that it may trade with. */
  lemma LadderCrosses(q: Queue, side: Side, limit: u64, e: OrderEntry)
    requires WellFormed(q)
    ensures e in Ladder(q, side.Opposite(), LimitRank(side, limit)) <==>
            && (exists i :: 0 <= i < |q| && q[i].listed && q[i].entry == e)
            && e.side != side && (if side == Bid then e.price <= limit else e.price >= limit)
  {
    hide Ladder, Fifo, LimitRank;
    var opp := side.Opposite();
    LadderMembers(q, opp, LimitRank(side, limit), e);
    FifoMembers(q, opp, e.price, e);
    if i :| 0 <= i < |q| && q[i].listed && q[i].entry == e {
      assert EntryOk(q[i].entry);
      assert PriceAt(opp, RankOf(opp, e.price)) == e.price;
      assert IsAt(q[i], opp, e.price) <==> e.side != side;
    }
  }

  /** The ladder is in price-time order: a better price first, and at one price the older order first. */
  lemma {:induction false} LadderPriority(q: Queue, side: Side, k: nat)
    requires WellFormed(q)
    ensures forall i, j | 0 <= i < j < |Ladder(q, side, k)| ::
              var a, b := Ladder(q, side, k)[i], Ladder(q, side, k)[j];
              || (if side == Bid then a.price > b.price else a.price < b.price)
              || (a.price == b.price && IndexOf(q, a.orderId) < IndexOf(q, b.orderId) < |q|)
  {
    hide Fifo, WellFormed, Orders, IndexOf;
    if k > 0 {
      LadderPriority(q, side, k - 1);
      LadderExact(q, side, k - 1);
      FifoExact(q, side, PriceAt(side, k));
      FifoByArrival(q, side, PriceAt(side, k));
    }
  }

  // ---------------------------------------------------------------- order by order

  /** What the i-th order of the ladder gives up. */
  function Share(fills: seq<Fill>, i: nat): nat {
    if i < |fills| then fills[i].quantity else 0
  }

  /** The id map holds the order less its share, or no longer holds it if that is everything. */
  ghost predicate Settled(m: map<u64, OrderEntry>, e: OrderEntry, share: nat) {
    && share <= e.quantity
    && if share == e.quantity then e.orderId !in m
       else e.orderId in m && m[e.orderId] == e.(quantity := e.quantity - share)
  }

  /** When fill i goes to order i of a list of distinct ids, order i gives up fill i. */
  lemma {:induction false} GivenInOrder(es: seq<OrderEntry>, fills: seq<Fill>, i: nat)
    requires |fills| <= |es| && i < |es|
    requires forall j | 0 <= j < |fills| :: fills[j].restingId == es[j].orderId
    requires forall j, k | 0 <= j < k < |es| :: es[j].orderId != es[k].orderId
    ensures Given(fills, es[i].orderId) == Share(fills, i)
  {
    if fills != [] {
      if i > 0 {
        GivenInOrder(es[1..], fills[1..], i - 1);
      } else {
        GivenToOthers(fills[1..], es[0].orderId);
      }
    }
  }

  lemma {:induction false} GivenToOthers(fills: seq<Fill>, id: u64)
    requires forall j | 0 <= j < |fills| :: fills[j].restingId != id
    ensures Given(fills, id) == 0
  {
    if fills != [] {
      GivenToOthers(fills[1..], id);
    }
  }

  /** A live order after the fills: gone if it gave up everything, otherwise only smaller. */
  lemma {:induction false} ResidueOrders(q: Queue, fills: seq<Fill>, id: u64)
    requires WellFormed(q)
    ensures id in Orders(Residue(q, fills)) <==> id in Orders(q) && Given(fills, id) < Orders(q)[id].quantity
    ensures id in Orders(Residue(q, fills)) ==>
            Orders(Residue(q, fills))[id] == Orders(q)[id].(quantity := Orders(q)[id].quantity - Given(fills, id))
  {
    hide Fifo;
    if q != [] {
      InitWellFormed(q);
      AbsentBefore(q);
      ResidueOrders(Init(q), fills, id);
      assert EntryOk(q[|q| - 1].entry);
      LeftoverOrders(Residue(Init(q), fills), Last(q), fills);
    }
  }

  lemma LeftoverOrders(q: Queue, r: Resting, fills: seq<Fill>)
    ensures var e := r.entry; var given := Given(fills, e.orderId);
            Orders(q + Leftover(r, fills)) ==
            if given >= e.quantity then Orders(q) else Orders(q)[e.orderId := e.(quantity := e.quantity - given)]
  {
    OrdersConcat(q, Leftover(r, fills));
    var e, given := r.entry, Given(fills, r.entry.orderId);
    if given < e.quantity {
      SingleViews(r.(entry := e.(quantity := e.quantity - given)), Bid, 0);
    }
  }

  /**
   The final book, order by order. Unless matching stalls, every order of the ladder loses exactly
   its share; every other live order, and every order of the own side, is as it was.
   */
  lemma FinalOrders(q: Queue, side: Side, limit: u64, id: u64, rem: u64, order: u64)
    requires WellFormed(q) && Match(q, side, limit, id, rem).stop != Stalled
    requires order in Orders(q)
    ensures var o, es := Match(q, side, limit, id, rem), Ladder(q, side.Opposite(), LimitRank(side, limit));
            var e := Orders(q)[order];
            && (forall i | 0 <= i < |es| && es[i] == e :: Settled(Orders(o.book), e, Share(o.fills, i)))
            && (e !in es ==> Settled(Orders(o.book), e, 0))
  {
    hide Match, Ladder, LimitRank, Fifo, Residue, WellFormed;
    var o, es := Match(q, side, limit, id, rem), Ladder(q, side.Opposite(), LimitRank(side, limit));
    var e := Orders(q)[order];
    PriceTimePriority(q, side, limit, id, rem);
    MatchResidue(q, side, limit, id, rem);
    ResidueOrders(q, o.fills, order);
    LadderExact(q, side.Opposite(), LimitRank(side, limit));
    EntriesOk(q, order);
    forall i | 0 <= i < |es| && es[i] == e
      ensures Given(o.fills, order) == Share(o.fills, i) && Share(o.fills, i) <= e.quantity
    {
      GivenInOrder(es, o.fills, i);
    }
    if e !in es {
      GivenToOthers(o.fills, order);
    }
  }

  /**
   Self-trade prevention: the orders ahead of the aggressor's own order are filled completely, that
   order and all behind it are untouched, and the aggressor does not rest.
   */
  lemma SelfTradeOutcome(q: Queue, maxOrders: nat, aggressor: Event)
    requires WellFormed(q) && MatchEvent(q, aggressor).stop == SelfTrade
    ensures var o, es := MatchEvent(q, aggressor), Ladder(q, aggressor.side.Opposite(), LimitRank(aggressor.side, aggressor.price));
            var n := |o.fills|;
            && n < |es| && IsSelfTrade(aggressor.orderId, es[n].orderId) && !SelfTradeIn(es[..n], aggressor.orderId)
            && (forall i | 0 <= i < n :: es[i].orderId !in Orders(o.book))
            && (forall i | n <= i < |es| :: es[i].orderId in Orders(o.book) && Orders(o.book)[es[i].orderId] == es[i])
            && NewOrderSpec(q, maxOrders, aggressor) == (o.book, STPTriggered)
  {
    hide Match, Ladder, LimitRank, Fifo, WellFormed, Orders, IsSelfTrade;
    var side, limit, id, rem := aggressor.side, aggressor.price, aggressor.orderId, aggressor.quantity;
    var o, es := MatchEvent(q, aggressor), Ladder(q, side.Opposite(), LimitRank(side, limit));
    var n := |o.fills|;
    PriceTimePriority(q, side, limit, id, rem);
    LadderExact(q, side.Opposite(), LimitRank(side, limit));
    LadderPositive(q, side.Opposite(), LimitRank(side, limit));
    OffenderIs(es, id, rem, n);
    forall i | 0 <= i < |es|
      ensures if i < n then es[i].orderId !in Orders(o.book)
              else es[i].orderId in Orders(o.book) && Orders(o.book)[es[i].orderId] == es[i]
    {
      FinalOrders(q, side, limit, id, rem, es[i].orderId);
      if i < n {
        PrefixSum(es, i, n);
      } else {
        assert es[i] in es;
      }
    }
  }

  /**
   Over the ladder of the book before the call: an own order at place n or later comes up for
   trading, with no own order ahead of it and quantity left when the walk gets there.
   */
  ghost predicate OwnOrderMet(es: seq<OrderEntry>, id: u64, rem: u64, n: nat) {
    exists i :: n <= i < |es| && IsSelfTrade(id, es[i].orderId) && !SelfTradeIn(es[..i], id) && rem > Sum(es[..i])
  }

  /** Self-trade prevention triggers if and only if the walk meets an own order and no level stalls it. */
  lemma SelfTradeIff(q: Queue, aggressor: Event)
    requires WellFormed(q)
    ensures var side, limit, id, rem := aggressor.side, aggressor.price, aggressor.orderId, aggressor.quantity;
            MatchEvent(q, aggressor).stop == SelfTrade <==>
            !CanStall(q, side, limit, id, rem) &&
            OwnOrderMet(Ladder(q, side.Opposite(), LimitRank(side, limit)), id, rem, 0)
  {
    CancellationPlace(q, aggressor, 0);
  }

  /** The aggressor's cancellation was pushed, but is not among the events that the buffer keeps. */
  ghost predicate CancellationLost(q: Queue, aggressor: Event)
    requires WellFormed(q)
  {
    var o := MatchEvent(q, aggressor);
    var t := Trace(aggressor, o);
    o.stop == SelfTrade && CancelEvent(aggressor) !in t[..Min(|t|, MAX_EVENTS)]
  }

  /** The cancellation is lost if and only if, in addition, 16 orders or more are ahead of the own order. */
  lemma CancellationLostIff(q: Queue, aggressor: Event)
    requires WellFormed(q)
    ensures var side, limit, id, rem := aggressor.side, aggressor.price, aggressor.orderId, aggressor.quantity;
            CancellationLost(q, aggressor) <==>
            !CanStall(q, side, limit, id, rem) &&
            OwnOrderMet(Ladder(q, side.Opposite(), LimitRank(side, limit)), id, rem, MAX_EVENTS)
  {
    hide Match, Ladder, LimitRank, WellFormed, CanStall, OwnOrderMet;
    var o := MatchEvent(q, aggressor);
    CancellationPlace(q, aggressor, MAX_EVENTS);
    TraceExact(q, aggressor);
    var t := Trace(aggressor, o);
    var kept := t[..Min(|t|, MAX_EVENTS)];
    if o.stop == SelfTrade {
      if |o.fills| < MAX_EVENTS {
        assert kept[|o.fills|] == CancelEvent(aggressor);
      } else {
        assert forall i | 0 <= i < |kept| :: kept[i] == t[i] && t[i].kind == TradeExecution;
      }
    }
  }

  /** Prevention triggers after n or more fills exactly when the own order met is at place n or later. */
  lemma CancellationPlace(q: Queue, aggressor: Event, n: nat)
    requires WellFormed(q)
    ensures var side, limit, id, rem := aggressor.side, aggressor.price, aggressor.orderId, aggressor.quantity;
            var o := MatchEvent(q, aggressor);
            o.stop == SelfTrade && |o.fills| >= n <==>
            !CanStall(q, side, limit, id, rem) &&
            OwnOrderMet(Ladder(q, side.Opposite(), LimitRank(side, limit)), id, rem, n)
  {
    hide Match, Ladder, LimitRank, Fifo, WellFormed, IsSelfTrade, SelfTradeIn, CanStall;
    var side, limit, id, rem := aggressor.side, aggressor.price, aggressor.orderId, aggressor.quantity;
    var o, es := MatchEvent(q, aggressor), Ladder(q, side.Opposite(), LimitRank(side, limit));
    StallsIff(q, side, limit, id, rem);
    if o.stop != Stalled {
      PriceTimePriority(q, side, limit, id, rem);
      if o.stop == SelfTrade {
        OffenderIs(es, id, rem, |o.fills|);
      }
      forall i | n <= i < |es| && IsSelfTrade(id, es[i].orderId) && !SelfTradeIn(es[..i], id) && rem > Sum(es[..i])
        ensures o.stop == SelfTrade && |o.fills| == i
      {
        FilledUpTo(es, id, rem, |o.fills|, i);
      }
    }
  }

  /** The walk fills exactly the orders ahead of the first own order that it can afford to meet. */
  lemma FilledUpTo(es: seq<OrderEntry>, id: u64, rem: u64, n: nat, i: nat)
    requires n <= |es| && forall j | 0 <= j < |es| :: j < n <==> Reached(es, id, rem, j)
    requires i < |es| && IsSelfTrade(id, es[i].orderId) && !SelfTradeIn(es[..i], id) && rem > Sum(es[..i])
    ensures n == i
  {
    assert es[..i + 1][i] == es[i];
    assert !Reached(es, id, rem, i);
    if n < i {
      PrefixFacts(es, id, n, i);
      PrefixFacts(es, id, n + 1, i);
      assert Reached(es, id, rem, n);
    }
  }

  /** The first order that the walk could afford but did not fill is the aggressor's own. */
  lemma OffenderIs(es: seq<OrderEntry>, id: u64, rem: u64, n: nat)
    requires n < |es| && rem > Sum(es[..n])
    requires forall i | 0 <= i < |es| :: i < n <==> Reached(es, id, rem, i)
    ensures IsSelfTrade(id, es[n].orderId) && !SelfTradeIn(es[..n], id)
  {
    if n > 0 {
      assert Reached(es, id, rem, n - 1);
    }
    assert !Reached(es, id, rem, n);
    assert es[..n + 1] == es[..n] + [es[n]];
    assert forall j | 0 <= j < n :: es[..n][j] == es[..n + 1][j];
    var i :| 0 <= i < n + 1 && IsSelfTrade(id, es[..n + 1][i].orderId);
  }

  /** A prefix is at least as large as a shorter prefix and the order after it. */
  lemma PrefixSum(es: seq<OrderEntry>, i: nat, n: nat)
    requires i < n <= |es|
    ensures Sum(es[..i]) + es[i].quantity <= Sum(es[..n])
  {
    assert es[..n] == es[..i] + ([es[i]] + es[i + 1..n]);
    SumConcat(es[..i], [es[i]] + es[i + 1..n]);
    SumConcat([es[i]], es[i + 1..n]);
  }

  // ---------------------------------------------------------------- events that are not reported

  /**
   The output buffer drops events exactly when the ladder has a 17th order, the first 16 do not
   satisfy the aggressor, and none of them is its own.
   */
  lemma OutputTruncatedIff(q: Queue, aggressor: Event)
    requires WellFormed(q) && MatchEvent(q, aggressor).stop != Stalled
    ensures var es := Ladder(q, aggressor.side.Opposite(), LimitRank(aggressor.side, aggressor.price));
            |Trace(aggressor, MatchEvent(q, aggressor))| > MAX_EVENTS <==>
            |es| > MAX_EVENTS && aggressor.quantity > Sum(es[..MAX_EVENTS]) &&
            !SelfTradeIn(es[..MAX_EVENTS], aggressor.orderId)
  {
    hide Match, Ladder, LimitRank, Fifo, WellFormed, IsSelfTrade, SelfTradeIn;
    var side, limit, id, rem := aggressor.side, aggressor.price, aggressor.orderId, aggressor.quantity;
    var o, es := MatchEvent(q, aggressor), Ladder(q, side.Opposite(), LimitRank(side, limit));
    var n, m := |o.fills|, MAX_EVENTS;
    PriceTimePriority(q, side, limit, id, rem);
    if |es| > m {
      PrefixFacts(es, id, m - 1, m);
      PrefixFacts(es, id, m, m + 1);
      assert n > m <==> Reached(es, id, rem, m);
      assert n > m - 1 <==> Reached(es, id, rem, m - 1);
      if n < m {
        assert !Reached(es, id, rem, n);
        PrefixFacts(es, id, n, m);
        PrefixFacts(es, id, n + 1, m);
      }
    }
  }

  lemma PrefixFacts(es: seq<OrderEntry>, id: u64, i: nat, n: nat)
    requires i <= n <= |es|
    ensures Sum(es[..i]) <= Sum(es[..n])
    ensures SelfTradeIn(es[..i], id) ==> SelfTradeIn(es[..n], id)
  {
    assert es[..n] == es[..i] + es[i..n];
    SumConcat(es[..i], es[i..n]);
    if k: nat :| k < i && IsSelfTrade(id, es[..i][k].orderId) {
      assert IsSelfTrade(id, es[..n][k].orderId);
    }
  }

  // ---------------------------------------------------------------- what is reported, what rests

  lemma {:induction false} TradesExact(aggressor: Event, fills: seq<Fill>, i: nat)
    requires i < |fills|
    ensures Trades(aggressor, fills)[i] ==
            Event(aggressor.timestamp, aggressor.symbolId, TradeExecution, Bid,
                  fills[i].price, fills[i].quantity, aggressor.orderId)
  {
    if i < |fills| - 1 {
      TradesExact(aggressor, fills[..|fills| - 1], i);
    }
  }

  /**
   The trace reports every fill in order, at its price and quantity, under the aggressor's id,
   symbol and timestamp, and ends with a cancellation of the aggressor exactly when self-trade
   prevention stopped it.
   */
  lemma TraceExact(q: Queue, aggressor: Event)
    requires WellFormed(q)
    ensures var o := MatchEvent(q, aggressor);
            var t := Trace(aggressor, o);
            var ts, symbol, id := aggressor.timestamp, aggressor.symbolId, aggressor.orderId;
            && |t| == |o.fills| + (if o.stop == SelfTrade then 1 else 0)
            && (forall i | 0 <= i < |o.fills| ::
                  t[i] == Event(ts, symbol, TradeExecution, Bid, o.fills[i].price, o.fills[i].quantity, id))
            && (o.stop == SelfTrade ==> t[|o.fills|] == Event(ts, symbol, CancelOrder, Bid, 0, 0, id))
  {
    hide Match, Trades;
    var o := MatchEvent(q, aggressor);
    forall i | 0 <= i < |o.fills|
      ensures Trades(aggressor, o.fills)[i] ==
              Event(aggressor.timestamp, aggressor.symbolId, TradeExecution, Bid,
                    o.fills[i].price, o.fills[i].quantity, aggressor.orderId)
    {
      TradesExact(aggressor, o.fills, i);
    }
  }

  /** The quantity that neither traded nor rests: cancelled by self-trade prevention, or rejected. */
  function Dropped(o: Outcome, result: MatchResult): nat {
    if result == MatchResult.Ok then 0 else o.remaining
  }

  /**
   Every unit of the order is accounted for: it traded, or it rests in the aggressor's name at its
   own price and side, or it was dropped with a result code that says so.
   */
  lemma QuantityAccounted(q: Queue, maxOrders: nat, aggressor: Event)
    requires WellFormed(q) && MatchEvent(q, aggressor).stop != Stalled
    ensures var o := MatchEvent(q, aggressor);
            var (book, result) := NewOrderSpec(q, maxOrders, aggressor);
            var side, price, id := aggressor.side, aggressor.price, aggressor.orderId;
            var rested := Total(book, side, price) - Total(q, side, price);
            && aggressor.quantity == FillSum(o.fills) + rested + Dropped(o, result)
            && (result == STPTriggered <==> o.stop == SelfTrade)
            && (result == OrderRejected <==>
                  (o.stop == Uncrossed &&
                   (!InRange(price) || id in Orders(o.book) || !Legal(id) || |o.book| >= maxOrders)))
            && (if result == MatchResult.Ok && o.remaining > 0
                then Orders(book) == Orders(o.book)[id := OrderEntry(id, price, o.remaining, aggressor.timestamp, side)]
                else book == o.book)
  {
    hide Match, Fifo, Best, WellFormed, Orders, Total, Append;
    var side, price, id := aggressor.side, aggressor.price, aggressor.orderId;
    MatchConserves(q, side, price, id, aggressor.quantity, price);
    MatchBest(q, side, price, id, aggressor.quantity);
    var o := MatchEvent(q, aggressor);
    AppendViews(o.book, Remainder(aggressor, o.remaining), side, price);
  }

  // ---------------------------------------------------------------- a new order, from the book before it

  /** What the i-th order of the ladder gives up when the first n are filled. */
  function Taken(es: seq<OrderEntry>, rem: u64, n: nat, i: nat): nat
    requires i < |es|
  {
    if i < n && rem > Sum(es[..i]) then Min(es[i].quantity, rem - Sum(es[..i])) else 0
  }

  /** The order fills the whole ladder, meets no own order, and has quantity left. */
  predicate Outlasts(es: seq<OrderEntry>, id: u64, rem: u64) {
    rem > Sum(es) && !SelfTradeIn(es, id)
  }

  /** The book takes an order of this id and price, once the orders of the ladder are gone. */
  predicate Admits(q: Queue, maxOrders: nat, es: seq<OrderEntry>, id: u64, price: u64) {
    && MIN_PRICE <= price <= MAX_PRICE && id != 0 && id != MAX_U64
    && |q| < maxOrders + |es|
    && (id in Orders(q) ==> Orders(q)[id] in es)
  }

  /** Trades with the first n orders of the ladder, in order, and a cancellation if `cancelled`. */
  ghost predicate Reported(es: seq<OrderEntry>, ev: Event, n: nat, cancelled: bool, t: seq<Event>) {
    && |t| == n + (if cancelled then 1 else 0)
    && n <= |es| && (forall i | 0 <= i < |es| :: i < n <==> Reached(es, ev.orderId, ev.quantity, i))
    && (forall i | 0 <= i < n ::
          t[i].kind == TradeExecution && t[i].price == es[i].price && t[i].quantity == Taken(es, ev.quantity, n, i))
    && (cancelled ==> t[n].kind == CancelOrder)
    && (forall e | e in t ::
          e.timestamp == ev.timestamp && e.symbolId == ev.symbolId && e.orderId == ev.orderId)
  }

  /** Every order of the ladder lost what it gave up, every other live order is as it was. */
  ghost predicate Depleted(q: Queue, es: seq<OrderEntry>, rem: u64, n: nat, m: map<u64, OrderEntry>, order: u64) {
    order in Orders(q) ==>
      var e := Orders(q)[order];
      && (forall i | 0 <= i < |es| && es[i] == e :: Settled(m, e, Taken(es, rem, n, i)))
      && (e !in es ==> Settled(m, e, 0))
  }

  /**
   All that a new order does, said of the book before it: what is reported, which result code comes
   back, what becomes of every live order, and what rests.
   */
  ghost predicate Processed(q: Queue, maxOrders: nat, ev: Event, u: Queue, result: MatchResult, t: seq<Event>) {
    var es := Ladder(q, ev.side.Opposite(), LimitRank(ev.side, ev.price));
    var id, rem := ev.orderId, ev.quantity;
    var cancelled, rests := result == STPTriggered, result == MatchResult.Ok && Outlasts(es, id, rem);
    var n := |t| - if cancelled then 1 else 0;
    && n >= 0 && Reported(es, ev, n, cancelled, t)
    && (cancelled <==> OwnOrderMet(es, id, rem, 0))
    && (result == OrderRejected <==> Outlasts(es, id, rem) && !Admits(q, maxOrders, es, id, ev.price))
    && (forall order :: !(rests && order == id) ==> Depleted(q, es, rem, n, Orders(u), order))
    && Orders(u).Keys <= Orders(q).Keys + (if rests then {id} else {})
    && (rests ==> id in Orders(u) &&
                  Orders(u)[id] == OrderEntry(id, ev.price, rem - Sum(es), ev.timestamp, ev.side))
    && (forall p :: FifoIds(u, ev.side, p) == FifoIds(q, ev.side, p) +
                    if rests && p == ev.price && |FifoIds(q, ev.side, p)| < 16 then [id] else [])
  }

  /** Matching ends with quantity left and nothing to trade with exactly when the order outlasts the ladder. */
  lemma OutlastsIff(q: Queue, ev: Event)
    requires WellFormed(q) && MatchEvent(q, ev).stop != Stalled
    ensures var o, es := MatchEvent(q, ev), Ladder(q, ev.side.Opposite(), LimitRank(ev.side, ev.price));
            && (o.stop == Uncrossed <==> Outlasts(es, ev.orderId, ev.quantity))
            && (o.stop == Uncrossed ==> |o.fills| == |es| && o.remaining == ev.quantity - Sum(es))
  {
    hide Match, Ladder, LimitRank, Fifo, WellFormed, Reached, Outlasts;
    var id, rem := ev.orderId, ev.quantity;
    var o, es := MatchEvent(q, ev), Ladder(q, ev.side.Opposite(), LimitRank(ev.side, ev.price));
    PriceTimePriority(q, ev.side, ev.price, id, rem);
    MatchConserves(q, ev.side, ev.price, id, rem, ev.price);
    AllReachedIff(es, id, rem, |o.fills|);
    if o.stop == Uncrossed {
      FillSumIs(es, o.fills, rem);
    }
  }

  /** The walk that fills every order of the list, with quantity left, is that of an order that outlasts it. */
  lemma AllReachedIff(es: seq<OrderEntry>, id: u64, rem: u64, n: nat)
    requires n <= |es| && forall i | 0 <= i < |es| :: i < n <==> Reached(es, id, rem, i)
    ensures n == |es| && rem > Sum(es) <==> Outlasts(es, id, rem)
  {
    hide IsSelfTrade, SelfTradeIn;
    assert es[..|es|] == es;
    if n < |es| {
      PrefixFacts(es, id, n, |es|);
      PrefixFacts(es, id, n + 1, |es|);
      assert !Reached(es, id, rem, n);
    } else if es != [] {
      assert Reached(es, id, rem, n - 1);
    } else {
      NoOwnOrder(id);
    }
  }

  lemma NoOwnOrder(id: u64)
    ensures !SelfTradeIn([], id)
  {
  }

  /** When the fills consume the whole list, they add up to it. */
  lemma {:induction false} FillSumIs(es: seq<OrderEntry>, fills: seq<Fill>, rem: u64)
    requires |fills| == |es| && rem > Sum(es)
    requires forall i | 0 <= i < |fills| :: rem > Sum(es[..i]) && fills[i].quantity == Min(es[i].quantity, rem - Sum(es[..i]))
    ensures FillSum(fills) == Sum(es)
  {
    if es != [] {
      PrefixSum(es, 0, |es|);
      assert es[..|es|] == es && fills[0].quantity == es[0].quantity;
      var left := rem - es[0].quantity;
      forall i | 0 <= i < |fills[1..]|
        ensures left > Sum(es[1..][..i]) && fills[1..][i].quantity == Min(es[1..][i].quantity, left - Sum(es[1..][..i]))
      {
        assert es[..i + 1][1..] == es[1..][..i] && es[..i + 1][0] == es[0];
        assert fills[1..][i] == fills[i + 1] && rem > Sum(es[..i + 1]);
      }
      FillSumIs(es[1..], fills[1..], left);
    }
  }

  lemma MatchReports(q: Queue, ev: Event)
    requires WellFormed(q) && MatchEvent(q, ev).stop != Stalled
    ensures var o, es := MatchEvent(q, ev), Ladder(q, ev.side.Opposite(), LimitRank(ev.side, ev.price));
            Reported(es, ev, |o.fills|, o.stop == SelfTrade, Trace(ev, o))
  {
    hide Match, Ladder, LimitRank, WellFormed, Trace, Reached;
    var o, es := MatchEvent(q, ev), Ladder(q, ev.side.Opposite(), LimitRank(ev.side, ev.price));
    var t, n := Trace(ev, o), |o.fills|;
    PriceTimePriority(q, ev.side, ev.price, ev.orderId, ev.quantity);
    TraceExact(q, ev);
    forall i | 0 <= i < n
      ensures t[i].kind == TradeExecution && t[i].price == es[i].price && t[i].quantity == Taken(es, ev.quantity, n, i)
    {
      assert o.fills[i] == Fill(es[i].orderId, es[i].price, Min(es[i].quantity, ev.quantity - Sum(es[..i])));
    }
    forall i | 0 <= i < |t|
      ensures t[i].timestamp == ev.timestamp && t[i].symbolId == ev.symbolId && t[i].orderId == ev.orderId
    {
      assert i < n || i == n;
    }
  }

  lemma MatchDepletes(q: Queue, ev: Event, order: u64)
    requires WellFormed(q) && MatchEvent(q, ev).stop != Stalled
    ensures var o, es := MatchEvent(q, ev), Ladder(q, ev.side.Opposite(), LimitRank(ev.side, ev.price));
            && Depleted(q, es, ev.quantity, |o.fills|, Orders(o.book), order)
            && (order in Orders(o.book) ==> order in Orders(q))
  {
    hide Match, Ladder, LimitRank, WellFormed, Reached, Orders, Settled, Residue;
    var o, es := MatchEvent(q, ev), Ladder(q, ev.side.Opposite(), LimitRank(ev.side, ev.price));
    var n := |o.fills|;
    MatchResidue(q, ev.side, ev.price, ev.orderId, ev.quantity);
    ResidueOrders(q, o.fills, order);
    if order in Orders(q) {
      FinalOrders(q, ev.side, ev.price, ev.orderId, ev.quantity, order);
      PriceTimePriority(q, ev.side, ev.price, ev.orderId, ev.quantity);
      forall i | 0 <= i < |es|
        ensures Share(o.fills, i) == Taken(es, ev.quantity, n, i)
      {
      }
    }
  }

  /** The ids of a list. */
  function IdSet(es: seq<OrderEntry>): set<u64> {
    set e | e in es :: e.orderId
  }

  lemma {:induction false} IdSetSize(es: seq<OrderEntry>)
    requires forall i, j | 0 <= i < j < |es| :: es[i].orderId != es[j].orderId
    ensures |IdSet(es)| == |es|
  {
    if es != [] {
      IdSetSize(es[1..]);
      assert IdSet(es) == {es[0].orderId} + IdSet(es[1..]);
      assert forall j | 0 <= j < |es[1..]| :: es[1..][j] == es[j + 1];
    }
  }

  /** After an order that outlasts the ladder, the live orders are those that were not on it. */
  lemma LadderGone(q: Queue, ev: Event)
    requires WellFormed(q) && MatchEvent(q, ev).stop == Uncrossed
    ensures var o, es := MatchEvent(q, ev), Ladder(q, ev.side.Opposite(), LimitRank(ev.side, ev.price));
            && |o.book| + |es| == |q|
            && (forall id :: id in Orders(o.book) <==> id in Orders(q) && Orders(q)[id] !in es)
  {
    hide Match, Ladder, LimitRank, WellFormed, Orders, Taken, IdSet;
    var o, es := MatchEvent(q, ev), Ladder(q, ev.side.Opposite(), LimitRank(ev.side, ev.price));
    LadderExact(q, ev.side.Opposite(), LimitRank(ev.side, ev.price));
    LadderPositive(q, ev.side.Opposite(), LimitRank(ev.side, ev.price));
    OutlastsIff(q, ev);
    forall i | 0 <= i < |es|
      ensures Taken(es, ev.quantity, |es|, i) == es[i].quantity
    {
      TakesAll(es, ev.quantity, i);
    }
    forall id
      ensures id in Orders(o.book) <==> id in Orders(q) && Orders(q)[id] !in es
      ensures id in Orders(q) ==> Orders(q)[id].orderId == id
    {
      MatchDepletes(q, ev, id);
      if id in Orders(q) {
        EntriesOk(q, id);
      }
    }
    OrdersSize(q);
    OrdersSize(o.book);
    IdSetSize(es);
    IdsSplit(Orders(q), Orders(o.book), es);
  }

  lemma TakesAll(es: seq<OrderEntry>, rem: u64, i: nat)
    requires i < |es| && rem > Sum(es)
    ensures Taken(es, rem, |es|, i) == es[i].quantity
  {
    assert es[..|es|] == es;
    PrefixSum(es, i, |es|);
  }

  lemma IdsSplit(m: map<u64, OrderEntry>, n: map<u64, OrderEntry>, es: seq<OrderEntry>)
    requires forall e | e in es :: e.orderId in m && m[e.orderId] == e
    requires forall id | id in m :: m[id].orderId == id
    requires forall id :: id in n <==> id in m && m[id] !in es
    ensures |m| == |n| + |IdSet(es)|
  {
    assert m.Keys == n.Keys + IdSet(es) && n.Keys !! IdSet(es);
    assert |m.Keys| == |m| && |n.Keys| == |n|;
  }

  /** Filing another order does not change what became of this one. */
  lemma DepletedStill(q: Queue, es: seq<OrderEntry>, rem: u64, n: nat, m: map<u64, OrderEntry>, order: u64, e: OrderEntry)
    requires WellFormed(q) && Depleted(q, es, rem, n, m, order)
    ensures order != e.orderId ==> Depleted(q, es, rem, n, m[e.orderId := e], order)
  {
    hide WellFormed, Orders;
    if order in Orders(q) {
      EntriesOk(q, order);
    }
  }

  lemma BookAfter(q: Queue, maxOrders: nat, ev: Event)
    requires WellFormed(q) && MatchEvent(q, ev).stop != Stalled
    ensures var o, (u, result) := MatchEvent(q, ev), NewOrderSpec(q, maxOrders, ev);
            && u == (if result == MatchResult.Ok && o.stop == Uncrossed then Append(o.book, Remainder(ev, o.remaining))
                     else o.book)
            && Orders(Append(o.book, Remainder(ev, o.remaining))) ==
               Orders(o.book)[ev.orderId := Remainder(ev, o.remaining)]
  {
    hide Match, WellFormed, Orders, Append, Best, CanCross;
    MatchBest(q, ev.side, ev.price, ev.orderId, ev.quantity);
    AppendViews(MatchEvent(q, ev).book, Remainder(ev, MatchEvent(q, ev).remaining), Bid, 0);
  }

  /** A new order that does not stall does exactly what `Processed` says. */
  lemma NewOrderEffect(q: Queue, maxOrders: nat, ev: Event)
    requires WellFormed(q) && MatchEvent(q, ev).stop != Stalled
    ensures var (u, result) := NewOrderSpec(q, maxOrders, ev);
            Processed(q, maxOrders, ev, u, result, Trace(ev, MatchEvent(q, ev)))
  {
    hide Match, Ladder, LimitRank, WellFormed, Orders, Reported, Depleted, Trace, Fifo, OwnOrderMet, CanStall, SelfTradeIn, Append, Total, Inserted;
    var o, es := MatchEvent(q, ev), Ladder(q, ev.side.Opposite(), LimitRank(ev.side, ev.price));
    var (u, result) := NewOrderSpec(q, maxOrders, ev);
    var id, e := ev.orderId, Remainder(ev, o.remaining);
    MatchReports(q, ev);
    TraceExact(q, ev);
    SelfTradeIff(q, ev);
    StallsIff(q, ev.side, ev.price, id, ev.quantity);
    OutlastsIff(q, ev);
    QuantityAccounted(q, maxOrders, ev);
    if o.stop == Uncrossed {
      LadderGone(q, ev);
    }
    forall order
      ensures Depleted(q, es, ev.quantity, |o.fills|, Orders(o.book), order)
      ensures order in Orders(o.book) ==> order in Orders(q)
    {
      MatchDepletes(q, ev, order);
    }
    var m, n := Orders(o.book)[id := e], |o.fills|;
    forall order | order != id
      ensures Depleted(q, es, ev.quantity, n, m, order)
    {
      DepletedStill(q, es, ev.quantity, |o.fills|, Orders(o.book), order, e);
    }
    forall p
      ensures FifoIds(o.book, ev.side, p) == FifoIds(q, ev.side, p)
      ensures FifoIds(Append(o.book, e), ev.side, p) == FifoIds(o.book, ev.side, p) +
              if p == ev.price && |FifoIds(o.book, ev.side, p)| < 16 then [id] else []
    {
      MatchConserves(q, ev.side, ev.price, id, ev.quantity, p);
      AppendViews(o.book, e, ev.side, p);
    }
    var rests := result == MatchResult.Ok && Outlasts(es, id, ev.quantity);
    BookAfter(q, maxOrders, ev);
    assert rests ==> Orders(u) == m;
    assert forall order | !(rests && order == id) :: Depleted(q, es, ev.quantity, n, Orders(u), order);
  }
}
