/**
 Price-time matching of one incoming order against the abstract book.

 `Match` fills one resting order at a time: the oldest listed order at the best opposite price.
 `Ladder` is the opposite side as one list in price-time order, and `Walk` fills down such a list;
 the theorems of the next file relate the two.
 */
module Matching {
  import opened Types
  import opened FlatOrderMaps
  import opened RestingOrders

  datatype Fill = Fill(restingId: u64, price: u64, quantity: u64)

  /**
   Why matching stopped. `Stalled` is the engine's endless loop: the best level still has a
   total, but its list is empty, because it once held more orders than fit the list.
   */
  datatype Stop = Exhausted | Uncrossed | SelfTrade | Stalled

  datatype Outcome = Outcome(book: Queue, fills: seq<Fill>, remaining: u64, stop: Stop)

  // ---------------------------------------------------------------- rules

  /** The participant is the top 16 bits of an order id. */
  function ParticipantOf(id: u64): nat {
    id / 0x1_0000_0000_0000
  }

  function MakeOrderId(participant: nat, sequence: u64): u64
    requires participant < 0x1_0000
  {
    participant * 0x1_0000_0000_0000 + sequence % 0x1_0000_0000_0000
  }

  lemma ParticipantRoundTrip(participant: nat, sequence: u64)
    requires participant < 0x1_0000
    ensures ParticipantOf(MakeOrderId(participant, sequence)) == participant
  {
  }

  predicate IsSelfTrade(aggressor: u64, resting: u64) {
    ParticipantOf(aggressor) != 0 && ParticipantOf(aggressor) == ParticipantOf(resting)
  }

  /** Every id is made from one participant of 16 bits and one sequence number of 48 bits. */
  lemma IdParts(id: u64)
    ensures var p, n := id / 0x1_0000_0000_0000, id % 0x1_0000_0000_0000;
            p < 0x1_0000 && MakeOrderId(p, n) == id
  {
  }

  /** Two orders self-trade exactly when they were made for the same participant, other than 0. */
  lemma SelfTradeByParticipant(p: nat, n: u64, p': nat, n': u64)
    requires p < 0x1_0000 && p' < 0x1_0000
    ensures IsSelfTrade(MakeOrderId(p, n), MakeOrderId(p', n')) <==> p == p' && p != 0
  {
    ParticipantRoundTrip(p, n);
    ParticipantRoundTrip(p', n');
  }

  /** Whether an order on `side` with limit `limit` trades at the opposite price `price`. */
  predicate Crosses(side: Side, limit: u64, price: int) {
    if side == Bid then price <= limit else price >= limit
  }

  /** The oldest listed order at the best price of a side. */
  function Front(q: Queue, side: Side): (e: OrderEntry)
    requires WellFormed(q) && Fifo(q, side, Best(q, side)) != []
    ensures EntryOk(e) && e.side == side && e.price == Best(q, side)
    ensures e.orderId in Orders(q) && Orders(q)[e.orderId] == e
  {
    FifoExact(q, side, Best(q, side));
    var e := Fifo(q, side, Best(q, side))[0];
    EntriesOk(q, e.orderId);
    e
  }

  lemma EntriesOk(q: Queue, id: u64)
    requires WellFormed(q) && id in Orders(q)
    ensures EntryOk(Orders(q)[id]) && Orders(q)[id].orderId == id
  {
    var i := OrdersSound(q, id);
  }

  /** The book after `n` of a live order has traded. */
  function Traded(q: Queue, id: u64, n: nat): (u: Queue)
    requires WellFormed(q)
    ensures WellFormed(u)
  {
    var i := IndexOf(q, id);
    if i < |q| && n >= q[i].entry.quantity then
      RemoveWellFormed(q, i);
      ReduceSpec(q, id, n).1
    else if i < |q| then
      ShrinkWellFormed(q, i, n);
      ReduceSpec(q, id, n).1
    else q
  }

  /** Matches `rem` of order `id`, one resting order at a time. */
  function Match(q: Queue, side: Side, limit: u64, id: u64, rem: u64): (o: Outcome)
    requires WellFormed(q)
    ensures WellFormed(o.book) && o.remaining <= rem
    decreases rem
  {
    var opp := side.Opposite();
    var best := Best(q, opp);
    if rem == 0 then Outcome(q, [], 0, Exhausted)
    else if best == NoPrice(opp) || !Crosses(side, limit, best) then Outcome(q, [], rem, Uncrossed)
    else if Fifo(q, opp, best) == [] then Outcome(q, [], rem, Stalled)
    else
      var e := Front(q, opp);
      if IsSelfTrade(id, e.orderId) then Outcome(q, [], rem, SelfTrade)
      else
        var n := Min(rem, e.quantity);
        Prepend([Fill(e.orderId, best, n)], Match(Traded(q, e.orderId, n), side, limit, id, rem - n))
  }

  function Prepend(fills: seq<Fill>, o: Outcome): Outcome {
    o.(fills := fills + o.fills)
  }

  // ---------------------------------------------------------------- the opposite side as a list

  /** How many prices of the opposite side an order with this limit trades at. */
  function LimitRank(side: Side, limit: u64): (k: nat)
    ensures k <= MAX_PRICE
    ensures forall j | 1 <= j <= MAX_PRICE :: j <= k <==> Crosses(side, limit, PriceAt(side.Opposite(), j))
  {
    if side == Bid then Min(limit, MAX_PRICE)
    else if limit == 0 then MAX_PRICE
    else if limit > MAX_PRICE then 0
    else MAX_PRICE + 1 - limit
  }

  /** The listed orders at the k best prices of a side, in price-time order. */
  function Ladder(q: Queue, side: Side, k: nat): seq<OrderEntry> {
    if k == 0 then [] else Ladder(q, side, k - 1) + Fifo(q, side, PriceAt(side, k))
  }

  /** Fills `rem` of order `id` down a list. */
  function Walk(es: seq<OrderEntry>, id: u64, rem: u64): (seq<Fill>, u64, Stop) {
    if rem == 0 then ([], 0, Exhausted)
    else if es == [] then ([], rem, Uncrossed)
    else if IsSelfTrade(id, es[0].orderId) then ([], rem, SelfTrade)
    else
      var n := Min(rem, es[0].quantity);
      var (fills, left, stop) := Walk(es[1..], id, rem - n);
      ([Fill(es[0].orderId, es[0].price, n)] + fills, left, stop)
  }

  /** Orders are live at this price that its list does not hold. */
  predicate Unlisted(q: Queue, side: Side, price: int) {
    Total(q, side, price) > Sum(Fifo(q, side, price))
  }

  predicate SelfTradeIn(es: seq<OrderEntry>, id: u64) {
    exists i :: 0 <= i < |es| && IsSelfTrade(id, es[i].orderId)
  }

  // ---------------------------------------------------------------- one step

  /** No order rests at a price better than the best. */
  lemma NothingBetter(q: Queue, side: Side, price: int)
    requires WellFormed(q) && Better(side, price, Best(q, side))
    ensures Total(q, side, price) == 0 && Fifo(q, side, price) == []
  {
    BestExact(q, side);
    TotalPositive(q, side, price);
    FifoNeedsTotal(q, side, price);
  }

  lemma {:induction false} FifoNeedsTotal(q: Queue, side: Side, price: int)
    requires WellFormed(q)
    ensures Fifo(q, side, price) != [] ==> Total(q, side, price) > 0
  {
    if q != [] {
      InitWellFormed(q);
      FifoNeedsTotal(Init(q), side, price);
      assert EntryOk(q[|q| - 1].entry);
    }
  }

  /** The list after its first order gave up n. */
  function AfterHead(es: seq<OrderEntry>, n: nat): seq<OrderEntry>
    requires es != [] && n <= es[0].quantity
  {
    if n == es[0].quantity then es[1..] else [es[0].(quantity := es[0].quantity - n)] + es[1..]
  }

  /** The effect of one trade on the levels: only the traded order's level changes, at its head. */
  lemma TradedLevels(q: Queue, e: OrderEntry, n: nat, side: Side, price: int)
    requires WellFormed(q) && e.orderId in Orders(q) && Orders(q)[e.orderId] == e && 0 < n <= e.quantity
    requires Fifo(q, e.side, e.price) != [] && Fifo(q, e.side, e.price)[0] == e
    ensures var u, here := Traded(q, e.orderId, n), e.side == side && e.price == price;
            && Total(u, side, price) == Total(q, side, price) - (if here then n else 0)
            && Fifo(u, side, price) ==
               if here then AfterHead(Fifo(q, side, price), n) else Fifo(q, side, price)
  {
    hide Fifo, Total, Orders, WellFormed, IndexOf;
    var i := IndexOf(q, e.orderId);
    IndexOfLive(q, e.orderId);
    RemoveViews(q, i, side, price);
    if e.side == side && e.price == price {
      HeadIsFirst(q, i, side, price);
    }
    if n < e.quantity {
      ShrinkViews(q, i, n, side, price);
    }
  }
}
