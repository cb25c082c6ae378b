/**
 The abstract order book: the live orders of one symbol, oldest first.

 Everything the array-based book caches (the id map, the total and the FIFO list of every price
 level, the best prices) is a function of this one sequence.
 */
module RestingOrders {
  import opened Types
  import opened FlatOrderMaps
  import opened PriceLevels

  /** A live order. It is unlisted when its level's FIFO list was full as it arrived. */
  datatype Resting = Resting(entry: OrderEntry, listed: bool)

  type Queue = seq<Resting>

  // ---------------------------------------------------------------- views of the queue

  function Last(q: Queue): Resting
    requires q != []
  {
    q[|q| - 1]
  }

  function Init(q: Queue): Queue
    requires q != []
  {
    q[..|q| - 1]
  }

  predicate IsAt(r: Resting, side: Side, price: int) {
    r.entry.side == side && r.entry.price == price
  }

  /** The id map. */
  function Orders(q: Queue): map<u64, OrderEntry> {
    if q == [] then map[] else Orders(Init(q))[Last(q).entry.orderId := Last(q).entry]
  }

  /** The quantity resting at a price, listed or not. */
  function Total(q: Queue, side: Side, price: int): nat {
    if q == [] then 0
    else Total(Init(q), side, price) + if IsAt(Last(q), side, price) then Last(q).entry.quantity else 0
  }

  /** The listed orders at a price, oldest first. */
  function Fifo(q: Queue, side: Side, price: int): seq<OrderEntry> {
    if q == [] then []
    else Fifo(Init(q), side, price) +
         if Last(q).listed && IsAt(Last(q), side, price) then [Last(q).entry] else []
  }

  function Ids(es: seq<OrderEntry>): (ids: seq<u64>)
    ensures |ids| == |es| && forall i | 0 <= i < |es| :: ids[i] == es[i].orderId
  {
    seq(|es|, i requires 0 <= i < |es| => es[i].orderId)
  }

  function FifoIds(q: Queue, side: Side, price: int): seq<u64> {
    Ids(Fifo(q, side, price))
  }

  // ---------------------------------------------------------------- best prices

  predicate Better(side: Side, a: int, b: int) {
    if side == Bid then a > b else a < b
  }

  /** What a cached best price holds when its side is empty. */
  function NoPrice(side: Side): u64 {
    if side == Bid then 0 else MAX_PRICE + 1
  }

  /** The best price of any live order. */
  function Best(q: Queue, side: Side): u64 {
    if q == [] then NoPrice(side)
    else if Last(q).entry.side == side && Better(side, Last(q).entry.price, Best(Init(q), side))
    then Last(q).entry.price
    else Best(Init(q), side)
  }

  /** The k-th best price of a side, counting from 1. */
  function PriceAt(side: Side, k: int): int {
    if side == Ask then k else MAX_PRICE + 1 - k
  }

  /** The inverse of PriceAt; an empty side's best price ranks below every level. */
  function RankOf(side: Side, price: u64): int {
    if side == Ask then price else MAX_PRICE + 1 - price
  }

  predicate Crossed(q: Queue) {
    Best(q, Bid) >= Best(q, Ask)
  }

  // ---------------------------------------------------------------- well-formedness

  predicate EntryOk(e: OrderEntry) {
    InRange(e.price) && e.quantity > 0 && Legal(e.orderId)
  }

  ghost predicate WellFormed(q: Queue) {
    && (forall i | 0 <= i < |q| :: EntryOk(q[i].entry))
    && (forall i, j | 0 <= i < j < |q| :: q[i].entry.orderId != q[j].entry.orderId)
    && (forall side, price :: |Fifo(q, side, price)| <= MAX_ORDERS_PER_LEVEL)
  }

  // ---------------------------------------------------------------- updates

  /** Whether the FIFO list of a level has a free place. */
  predicate HasRoom(q: Queue, side: Side, price: int) {
    |Fifo(q, side, price)| < MAX_ORDERS_PER_LEVEL
  }

  function Append(q: Queue, e: OrderEntry): Queue {
    q + [Resting(e, HasRoom(q, e.side, e.price))]
  }

  /** The position of an order, or |q| if it is not live. */
  function IndexOf(q: Queue, id: u64): (i: nat)
    ensures i <= |q|
    ensures i < |q| ==> q[i].entry.orderId == id
    ensures i == |q| ==> forall j | 0 <= j < |q| :: q[j].entry.orderId != id
  {
    if q == [] then 0
    else
      var i := IndexOf(Init(q), id);
      assert forall j | 0 <= j < |q| - 1 :: q[j] == Init(q)[j];
      if i < |q| - 1 then i else if Last(q).entry.orderId == id then |q| - 1 else |q|
  }

  function RemoveAt(q: Queue, i: nat): Queue
    requires i < |q|
  {
    q[..i] + q[i + 1..]
  }

  /** Takes `n` from the quantity of the i-th order, which keeps its place in the queue. */
  function ShrinkAt(q: Queue, i: nat, n: nat): Queue
    requires i < |q| && n < q[i].entry.quantity
  {
    q[i := q[i].(entry := q[i].entry.(quantity := q[i].entry.quantity - n))]
  }

  // ---------------------------------------------------------------- operations

  datatype BookResult = Ok | PriceOutOfRange | OrderNotFound | OrderAlreadyExists

  function InsertSpec(q: Queue, maxOrders: nat, e: OrderEntry): (BookResult, Queue) {
    if !InRange(e.price) then (PriceOutOfRange, q)
    else if e.orderId in Orders(q) then (OrderAlreadyExists, q)
    else if !Legal(e.orderId) || |q| >= maxOrders then (OrderAlreadyExists, q)
    else (Ok, Append(q, e))
  }

  function CancelSpec(q: Queue, id: u64): (BookResult, Queue) {
    var i := IndexOf(q, id);
    if i == |q| then (OrderNotFound, q) else (Ok, RemoveAt(q, i))
  }

  /** A modified order leaves its place and joins its new level as the youngest order. */
  function ModifySpec(q: Queue, id: u64, price: u64, quantity: u64): (BookResult, Queue) {
    var i := IndexOf(q, id);
    if !InRange(price) then (PriceOutOfRange, q)
    else if i == |q| then (OrderNotFound, q)
    else (Ok, Append(RemoveAt(q, i), q[i].entry.(price := price, quantity := quantity)))
  }

  function ReduceSpec(q: Queue, id: u64, n: nat): (BookResult, Queue) {
    var i := IndexOf(q, id);
    if i == |q| then (OrderNotFound, q)
    else if n >= q[i].entry.quantity then (Ok, RemoveAt(q, i))
    else (Ok, ShrinkAt(q, i, n))
  }

  // ---------------------------------------------------------------- facts about the views

  lemma EmptyWellFormed()
    ensures WellFormed([])
  {
  }

  lemma InitWellFormed(q: Queue)
    requires WellFormed(q) && q != []
    ensures WellFormed(Init(q))
  {
    forall side, price
      ensures |Fifo(Init(q), side, price)| <= MAX_ORDERS_PER_LEVEL
    {
      assert |Fifo(q, side, price)| <= MAX_ORDERS_PER_LEVEL;
    }
  }

  /** Every entry of the id map is a live order, filed under its own id. */
  lemma {:induction false} OrdersSound(q: Queue, id: u64) returns (i: nat)
    requires id in Orders(q)
    ensures i < |q| && q[i].entry == Orders(q)[id] && q[i].entry.orderId == id
  {
    if Last(q).entry.orderId == id {
      i := |q| - 1;
    } else {
      i := OrdersSound(Init(q), id);
    }
  }

  /** Every live order is in the id map. */
  lemma {:induction false} OrdersComplete(q: Queue, i: nat)
    requires WellFormed(q) && i < |q|
    ensures q[i].entry.orderId in Orders(q) && Orders(q)[q[i].entry.orderId] == q[i].entry
  {
    if i < |q| - 1 {
      InitWellFormed(q);
      OrdersComplete(Init(q), i);
      assert q[i].entry.orderId != q[|q| - 1].entry.orderId;
    }
  }

  lemma FifoBounded(q: Queue, side: Side, price: int)
    requires WellFormed(q)
    ensures |FifoIds(q, side, price)| <= MAX_ORDERS_PER_LEVEL
  {
    assert |Fifo(q, side, price)| <= MAX_ORDERS_PER_LEVEL;
  }

  /** The youngest order's id is not used by an older one. */
  lemma AbsentBefore(q: Queue)
    requires WellFormed(q) && q != []
    ensures Last(q).entry.orderId !in Orders(Init(q))
  {
    var id := Last(q).entry.orderId;
    if id in Orders(Init(q)) {
      var i := OrdersSound(Init(q), id);
      assert false;
    }
  }

  /** The id map has one entry per live order. */
  lemma {:induction false} OrdersSize(q: Queue)
    requires WellFormed(q)
    ensures |Orders(q)| == |q|
  {
    if q != [] {
      InitWellFormed(q);
      OrdersSize(Init(q));
      AbsentBefore(q);
      assert Orders(q).Keys == Orders(Init(q)).Keys + {Last(q).entry.orderId};
      assert |Orders(q).Keys| == |Orders(Init(q)).Keys| + 1;
    }
  }

  /** A FIFO list holds distinct live orders of its own level. */
  lemma {:induction false} FifoExact(q: Queue, side: Side, price: int)
    requires WellFormed(q)
    ensures forall i | 0 <= i < |Fifo(q, side, price)| ::
              var e := Fifo(q, side, price)[i];
              e.orderId in Orders(q) && Orders(q)[e.orderId] == e && e.side == side && e.price == price
    ensures forall i, j | 0 <= i < j < |Fifo(q, side, price)| ::
              Fifo(q, side, price)[i].orderId != Fifo(q, side, price)[j].orderId
  {
    if q != [] {
      InitWellFormed(q);
      FifoExact(Init(q), side, price);
      AbsentBefore(q);
    }
  }

  /** A FIFO list is in the order of arrival. */
  lemma {:induction false} FifoByArrival(q: Queue, side: Side, price: int)
    requires WellFormed(q)
    ensures forall i, j | 0 <= i < j < |Fifo(q, side, price)| ::
              IndexOf(q, Fifo(q, side, price)[i].orderId) < IndexOf(q, Fifo(q, side, price)[j].orderId) < |q|
  {
    if q != [] {
      InitWellFormed(q);
      FifoByArrival(Init(q), side, price);
      FifoLive(Init(q), side, price);
      AbsentBefore(q);
      forall id | id in Orders(Init(q))
        ensures IndexOf(q, id) == IndexOf(Init(q), id) < |q| - 1
      {
        IndexOfLive(Init(q), id);
      }
      assert IndexOf(q, Last(q).entry.orderId) == |q| - 1 by {
        IndexOfLive(Init(q), Last(q).entry.orderId);
      }
    }
  }

  /** A level has a positive total exactly when some live order rests there. */
  lemma {:induction false} TotalPositive(q: Queue, side: Side, price: int)
    requires WellFormed(q)
    ensures Total(q, side, price) > 0 <==> exists i :: 0 <= i < |q| && IsAt(q[i], side, price)
  {
    if q != [] {
      InitWellFormed(q);
      TotalPositive(Init(q), side, price);
      assert forall i | 0 <= i < |Init(q)| :: Init(q)[i] == q[i];
      if IsAt(q[|q| - 1], side, price) {
        assert EntryOk(q[|q| - 1].entry);
      } else if i :| 0 <= i < |q| && IsAt(q[i], side, price) {
        assert IsAt(Init(q)[i], side, price);
      }
    }
  }

  /** The best price is the price of a live order, and none is better. */
  lemma {:induction false} BestExact(q: Queue, side: Side)
    requires WellFormed(q)
    ensures Best(q, side) == NoPrice(side) || exists i :: 0 <= i < |q| && IsAt(q[i], side, Best(q, side))
    ensures forall i | 0 <= i < |q| && q[i].entry.side == side ::
              !Better(side, q[i].entry.price, Best(q, side)) && Best(q, side) != NoPrice(side)
  {
    if q != [] {
      InitWellFormed(q);
      BestExact(Init(q), side);
      assert EntryOk(q[|q| - 1].entry);
      if Best(Init(q), side) != NoPrice(side) {
        var i :| 0 <= i < |Init(q)| && IsAt(Init(q)[i], side, Best(Init(q), side));
        assert IsAt(q[i], side, Best(Init(q), side));
      }
      if Best(q, side) != Best(Init(q), side) {
        assert IsAt(q[|q| - 1], side, Best(q, side));
      }
      forall i | 0 <= i < |q| && q[i].entry.side == side
        ensures !Better(side, q[i].entry.price, Best(q, side)) && Best(q, side) != NoPrice(side)
      {
        if i < |q| - 1 {
          assert Init(q)[i] == q[i];
        }
      }
    }
  }

  /** The best bid is the highest price of a live bid, or 0; the best ask is the lowest, or MAX_PRICE + 1. */
  lemma BestIsExtreme(q: Queue)
    requires WellFormed(q)
    ensures forall i | 0 <= i < |q| ::
              if q[i].entry.side == Bid then 0 < q[i].entry.price <= Best(q, Bid)
              else Best(q, Ask) <= q[i].entry.price < MAX_PRICE + 1
    ensures Best(q, Bid) == 0 || exists i :: 0 <= i < |q| && IsAt(q[i], Bid, Best(q, Bid))
    ensures Best(q, Ask) == MAX_PRICE + 1 || exists i :: 0 <= i < |q| && IsAt(q[i], Ask, Best(q, Ask))
  {
    hide Best;
    BestExact(q, Bid);
    BestExact(q, Ask);
    forall i | 0 <= i < |q|
      ensures EntryOk(q[i].entry)
    {
    }
  }

  lemma BestInRange(q: Queue, side: Side)
    requires WellFormed(q)
    ensures Best(q, side) == NoPrice(side) || InRange(Best(q, side))
  {
    BestByTotals(q, side, Best(q, side));
  }

  /** The best price is the best of the prices with a non-zero total, or none if there are none. */
  ghost predicate BestOfTotals(q: Queue, side: Side, b: int) {
    && (b == NoPrice(side) || (InRange(b) && Total(q, side, b) > 0))
    && (forall p | InRange(p) && Better(side, p, b) :: Total(q, side, p) == 0)
  }

  lemma BestByTotals(q: Queue, side: Side, b: int)
    requires WellFormed(q)
    ensures BestOfTotals(q, side, b) <==> b == Best(q, side)
  {
    var best := Best(q, side);
    BestExact(q, side);
    TotalPositive(q, side, best);
    TotalPositive(q, side, b);
    forall p | InRange(p) && Better(side, p, best)
      ensures Total(q, side, p) == 0
    {
      TotalPositive(q, side, p);
    }
    if best != NoPrice(side) {
      var i :| 0 <= i < |q| && IsAt(q[i], side, best);
      assert EntryOk(q[i].entry);
    }
    assert BestOfTotals(q, side, best);
  }

  // ---------------------------------------------------------------- concatenation

  lemma ConcatLast(a: Queue, b: Queue)
    requires b != []
    ensures Init(a + b) == a + Init(b) && Last(a + b) == Last(b)
  {
  }

  lemma {:induction false} TotalConcat(a: Queue, b: Queue, side: Side, price: int)
    ensures Total(a + b, side, price) == Total(a, side, price) + Total(b, side, price)
  {
    if b == [] {
      assert a + b == a;
    } else {
      ConcatLast(a, b);
      TotalConcat(a, Init(b), side, price);
    }
  }

  lemma {:induction false} FifoConcat(a: Queue, b: Queue, side: Side, price: int)
    ensures Fifo(a + b, side, price) == Fifo(a, side, price) + Fifo(b, side, price)
  {
    if b == [] {
      assert a + b == a;
    } else {
      ConcatLast(a, b);
      FifoConcat(a, Init(b), side, price);
    }
  }

  lemma {:induction false} OrdersConcat(a: Queue, b: Queue)
    ensures Orders(a + b) == Orders(a) + Orders(b)
  {
    if b == [] {
      assert a + b == a;
    } else {
      ConcatLast(a, b);
      OrdersConcat(a, Init(b));
    }
  }

  /** The views of one order on its own. */
  lemma SingleViews(r: Resting, side: Side, price: int)
    ensures Orders([r]) == map[r.entry.orderId := r.entry]
    ensures Total([r], side, price) == if IsAt(r, side, price) then r.entry.quantity else 0
    ensures Fifo([r], side, price) == if r.listed && IsAt(r, side, price) then [r.entry] else []
  {
    assert Init([r]) == [];
  }

  /** The views of a queue, split around its i-th order. */
  lemma SplitViews(a: Queue, r: Resting, b: Queue, side: Side, price: int)
    ensures Total(a + [r] + b, side, price) ==
            Total(a, side, price) + (if IsAt(r, side, price) then r.entry.quantity else 0) + Total(b, side, price)
    ensures Fifo(a + [r] + b, side, price) ==
            Fifo(a, side, price) + (if r.listed && IsAt(r, side, price) then [r.entry] else []) + Fifo(b, side, price)
    ensures Orders(a + [r] + b) == Orders(a)[r.entry.orderId := r.entry] + Orders(b)
  {
    TotalConcat(a + [r], b, side, price);
    TotalConcat(a, [r], side, price);
    FifoConcat(a + [r], b, side, price);
    FifoConcat(a, [r], side, price);
    OrdersConcat(a + [r], b);
    OrdersConcat(a, [r]);
    SingleViews(r, side, price);
  }

  /** An order is live exactly when it has a position. */
  lemma IndexOfLive(q: Queue, id: u64)
    requires WellFormed(q)
    ensures id in Orders(q) <==> IndexOf(q, id) < |q|
    ensures id in Orders(q) ==> Orders(q)[id] == q[IndexOf(q, id)].entry
  {
    var i := IndexOf(q, id);
    if i < |q| {
      OrdersComplete(q, i);
    } else if id in Orders(q) {
      var j := OrdersSound(q, id);
    }
  }

  // ---------------------------------------------------------------- effects of the updates

  lemma AppendViews(q: Queue, e: OrderEntry, side: Side, price: int)
    ensures Orders(Append(q, e)) == Orders(q)[e.orderId := e]
    ensures Total(Append(q, e), side, price) ==
            Total(q, side, price) + if e.side == side && e.price == price then e.quantity else 0
    ensures Fifo(Append(q, e), side, price) ==
            Fifo(q, side, price) + if e.side == side && e.price == price && HasRoom(q, side, price) then [e] else []
    ensures Best(Append(q, e), side) ==
            if e.side == side && Better(side, e.price, Best(q, side)) then e.price else Best(q, side)
  {
    var u := Append(q, e);
    assert Init(u) == q;
  }

  lemma AppendWellFormed(q: Queue, e: OrderEntry)
    requires WellFormed(q) && EntryOk(e) && e.orderId !in Orders(q)
    ensures WellFormed(Append(q, e))
  {
    IndexOfLive(q, e.orderId);
    forall side, price
      ensures |Fifo(Append(q, e), side, price)| <= MAX_ORDERS_PER_LEVEL
    {
      AppendViews(q, e, side, price);
      assert |Fifo(q, side, price)| <= MAX_ORDERS_PER_LEVEL;
    }
  }

  /** Removing an order takes it, and nothing else, out of every view. */
  lemma RemoveViews(q: Queue, i: nat, side: Side, price: int)
    requires WellFormed(q) && i < |q|
    ensures Orders(RemoveAt(q, i)) == Orders(q) - {q[i].entry.orderId}
    ensures Total(q, side, price) ==
            Total(RemoveAt(q, i), side, price) + if IsAt(q[i], side, price) then q[i].entry.quantity else 0
    ensures Fifo(q, side, price) == Fifo(q[..i], side, price) +
            (if q[i].listed && IsAt(q[i], side, price) then [q[i].entry] else []) + Fifo(q[i + 1..], side, price)
    ensures Fifo(RemoveAt(q, i), side, price) == Fifo(q[..i], side, price) + Fifo(q[i + 1..], side, price)
  {
    hide Total, Fifo, Orders, WellFormed;
    var a, r, b := q[..i], q[i], q[i + 1..];
    assert q == a + [r] + b;
    SplitViews(a, r, b, side, price);
    TotalConcat(a, b, side, price);
    FifoConcat(a, b, side, price);
    OrdersConcat(a, b);
    IdOnlyOnce(q, i);
  }

  /** The i-th id does not occur before or after position i. */
  lemma IdOnlyOnce(q: Queue, i: nat)
    requires WellFormed(q) && i < |q|
    ensures q[i].entry.orderId !in Orders(q[..i]) && q[i].entry.orderId !in Orders(q[i + 1..])
  {
    var id := q[i].entry.orderId;
    if id in Orders(q[..i]) {
      var j := OrdersSound(q[..i], id);
      assert false;
    }
    if id in Orders(q[i + 1..]) {
      var j := OrdersSound(q[i + 1..], id);
      assert false;
    }
  }

  lemma RemoveWellFormed(q: Queue, i: nat)
    requires WellFormed(q) && i < |q|
    ensures WellFormed(RemoveAt(q, i))
  {
    var u := RemoveAt(q, i);
    assert forall j | 0 <= j < |u| :: u[j] == q[if j < i then j else j + 1];
    forall side, price
      ensures |Fifo(u, side, price)| <= MAX_ORDERS_PER_LEVEL
    {
      RemoveViews(q, i, side, price);
      assert |Fifo(q, side, price)| <= MAX_ORDERS_PER_LEVEL;
    }
  }

  /** In terms of ids, removing an order from a FIFO list is the array's remove. */
  lemma RemoveFifoIds(q: Queue, i: nat, side: Side, price: int)
    requires WellFormed(q) && i < |q|
    ensures FifoIds(RemoveAt(q, i), side, price) ==
            if IsAt(q[i], side, price) then RemoveFirst(FifoIds(q, side, price), q[i].entry.orderId)
            else FifoIds(q, side, price)
  {
    RemoveViews(q, i, side, price);
    var a, b := Fifo(q[..i], side, price), Fifo(q[i + 1..], side, price);
    if !IsAt(q[i], side, price) {
      assert a + [] + b == a + b;
    } else if q[i].listed {
      ListedOnce(q, i, side, price);
      RemoveFromIds(a, q[i].entry, b);
    } else {
      assert a + [] + b == a + b;
      NotListed(q, i, side, price);
      RemoveFirstAbsent(FifoIds(q, side, price), q[i].entry.orderId);
    }
  }

  lemma RemoveFromIds(a: seq<OrderEntry>, e: OrderEntry, b: seq<OrderEntry>)
    requires e.orderId !in Ids(a)
    ensures RemoveFirst(Ids(a + [e] + b), e.orderId) == Ids(a + b)
  {
    var ids := Ids(a + [e] + b);
    assert ids[..|a|] == Ids(a);
    RemoveFirstAt(ids, e.orderId, |a|);
  }

  /** A listed order is not listed a second time ahead of itself. */
  lemma ListedOnce(q: Queue, i: nat, side: Side, price: int)
    requires WellFormed(q) && i < |q|
    ensures q[i].entry.orderId !in Ids(Fifo(q[..i], side, price))
  {
    IdOnlyOnce(q, i);
    FifoLive(q[..i], side, price);
  }

  /** An unlisted order is in no FIFO list. */
  lemma NotListed(q: Queue, i: nat, side: Side, price: int)
    requires WellFormed(q) && i < |q|
    ensures q[i].entry.orderId in FifoIds(q, side, price) ==> q[i].listed
  {
    RemoveViews(q, i, side, price);
    IdOnlyOnce(q, i);
    FifoLive(q[..i], side, price);
    FifoLive(q[i + 1..], side, price);
  }

  /** The order at the head of a FIFO list has no listed order of its level ahead of it. */
  lemma HeadIsFirst(q: Queue, i: nat, side: Side, price: int)
    requires WellFormed(q) && i < |q|
    requires Fifo(q, side, price) != [] && Fifo(q, side, price)[0] == q[i].entry
    ensures q[i].listed && Fifo(q[..i], side, price) == []
  {
    var a := Fifo(q[..i], side, price);
    RemoveViews(q, i, side, price);
    assert FifoIds(q, side, price)[0] == q[i].entry.orderId;
    NotListed(q, i, side, price);
    assert a == [] || Ids(a)[0] == q[i].entry.orderId;
    ListedOnce(q, i, side, price);
  }

  /** Every listed id belongs to some order of the queue. */
  lemma {:induction false} FifoLive(q: Queue, side: Side, price: int)
    ensures forall k | 0 <= k < |Fifo(q, side, price)| :: Fifo(q, side, price)[k].orderId in Orders(q)
  {
    if q != [] {
      FifoLive(Init(q), side, price);
    }
  }

  /** Shrinking an order changes its quantity, and nothing else, in every view. */
  lemma ShrinkViews(q: Queue, i: nat, n: nat, side: Side, price: int)
    requires WellFormed(q) && i < |q| && n < q[i].entry.quantity
    ensures var e := q[i].entry.(quantity := q[i].entry.quantity - n);
            && Orders(ShrinkAt(q, i, n)) == Orders(q)[e.orderId := e]
            && Total(q, side, price) == Total(ShrinkAt(q, i, n), side, price) + (if IsAt(q[i], side, price) then n else 0)
            && Fifo(q, side, price) == Fifo(q[..i], side, price) +
               (if q[i].listed && IsAt(q[i], side, price) then [q[i].entry] else []) + Fifo(q[i + 1..], side, price)
            && Fifo(ShrinkAt(q, i, n), side, price) == Fifo(q[..i], side, price) +
               (if q[i].listed && IsAt(q[i], side, price) then [e] else []) + Fifo(q[i + 1..], side, price)
  {
    hide Total, Fifo, Orders, WellFormed;
    var a, r, b, u := q[..i], q[i], q[i + 1..], ShrinkAt(q, i, n);
    assert q == a + [r] + b;
    assert u == a + [u[i]] + b;
    SplitViews(a, r, b, side, price);
    SplitViews(a, u[i], b, side, price);
    assert Orders(u) == Orders(q)[r.entry.orderId := u[i].entry] by { IdOnlyOnce(q, i); }
  }

  lemma ShrinkFifoIds(q: Queue, i: nat, n: nat, side: Side, price: int)
    requires WellFormed(q) && i < |q| && n < q[i].entry.quantity
    ensures FifoIds(ShrinkAt(q, i, n), side, price) == FifoIds(q, side, price)
  {
    ShrinkViews(q, i, n, side, price);
  }

  lemma ShrinkWellFormed(q: Queue, i: nat, n: nat)
    requires WellFormed(q) && i < |q| && n < q[i].entry.quantity
    ensures WellFormed(ShrinkAt(q, i, n))
  {
    forall side, price
      ensures |Fifo(ShrinkAt(q, i, n), side, price)| <= MAX_ORDERS_PER_LEVEL
    {
      ShrinkViews(q, i, n, side, price);
      assert |Fifo(q, side, price)| <= MAX_ORDERS_PER_LEVEL;
    }
  }

  /** Shrinking an order leaves the best prices alone. */
  lemma ShrinkBest(q: Queue, i: nat, n: nat, side: Side)
    requires WellFormed(q) && i < |q| && n < q[i].entry.quantity
    ensures Best(ShrinkAt(q, i, n), side) == Best(q, side)
  {
    var u := ShrinkAt(q, i, n);
    ShrinkWellFormed(q, i, n);
    BestByTotals(q, side, Best(q, side));
    BestByTotals(u, side, Best(q, side));
    forall p
      ensures Total(u, side, p) == 0 <==> Total(q, side, p) == 0
    {
      ShrinkViews(q, i, n, side, p);
      if IsAt(q[i], side, p) {
        assert IsAt(u[i], side, p);
        TotalPositive(u, side, p);
      }
    }
  }

  // ---------------------------------------------------------------- facts about the operations

  /**
   A modified order keeps its id, side and timestamp and joins its new level as the youngest order,
   provided that the level's list has room without it. No other order changes or moves.
   */
  lemma ModifyEffect(q: Queue, id: u64, price: u64, quantity: u64, side: Side, p: int)
    requires WellFormed(q) && IndexOf(q, id) < |q| && InRange(price)
    ensures var (r, u) := ModifySpec(q, id, price, quantity);
            var before := q[IndexOf(q, id)].entry;
            var after := before.(price := price, quantity := quantity);
            var others := RemoveAt(q, IndexOf(q, id));
            && r == Ok && Orders(u) == Orders(q)[id := after] && |u| == |q|
            && FifoIds(others, side, p) == (if before.side == side && before.price == p
                                            then RemoveFirst(FifoIds(q, side, p), id) else FifoIds(q, side, p))
            && Fifo(u, side, p) == Fifo(others, side, p) +
               if before.side == side && price == p && HasRoom(others, side, p) then [after] else []
  {
    hide Fifo, Orders, WellFormed, IndexOf, RemoveAt, Append, HasRoom;
    IndexOfLive(q, id);
    var i := IndexOf(q, id);
    var e := q[i].entry.(price := price, quantity := quantity);
    RemoveViews(q, i, side, p);
    RemoveFifoIds(q, i, side, p);
    AppendViews(RemoveAt(q, i), e, side, p);
    assert Orders(q)[id := e] == (Orders(q) - {id})[id := e];
    UpdateSizes(q, i, e);
  }

  lemma UpdateSizes(q: Queue, i: nat, e: OrderEntry)
    requires i < |q|
    ensures |Append(RemoveAt(q, i), e)| == |q|
  {
  }

  // ---------------------------------------------------------------- each operation, on every input

  /** The order `e` rests at this price. */
  predicate RestsAt(m: map<u64, OrderEntry>, id: u64, side: Side, price: int) {
    id in m && m[id].side == side && m[id].price == price
  }

  /** What the order has at this price. */
  function QuantityOf(m: map<u64, OrderEntry>, id: u64, side: Side, price: int): nat {
    if RestsAt(m, id, side, price) then m[id].quantity else 0
  }

  /** The level after the order `id` has left it, wherever it rested, if it did. */
  ghost predicate Left(q: Queue, id: u64, u: Queue, side: Side, price: int) {
    && FifoIds(u, side, price) == RemoveFirst(FifoIds(q, side, price), id)
    && id !in FifoIds(u, side, price)
    && Total(u, side, price) == Total(q, side, price) - QuantityOf(Orders(q), id, side, price)
  }

  /**
   An insertion is refused for a price out of range, and for an id that is live or reserved or a
   book that is full; otherwise the order joins the map, its level's total and, if its level lists
   fewer than 16 orders, the tail of its list.
   */
  ghost predicate Inserted(q: Queue, maxOrders: nat, e: OrderEntry, r: BookResult, u: Queue) {
    && (r == PriceOutOfRange <==> e.price < MIN_PRICE || e.price > MAX_PRICE)
    && (r == OrderAlreadyExists <==>
          MIN_PRICE <= e.price <= MAX_PRICE &&
          (e.orderId in Orders(q) || e.orderId == 0 || e.orderId == MAX_U64 || |q| >= maxOrders))
    && r != OrderNotFound
    && (r != Ok ==> u == q)
    && (r == Ok ==>
          && Orders(u) == Orders(q)[e.orderId := e]
          && forall side, p ::
               var here := side == e.side && p == e.price;
               && Total(u, side, p) == Total(q, side, p) + (if here then e.quantity else 0)
               && FifoIds(u, side, p) == FifoIds(q, side, p) +
                  if here && |FifoIds(q, side, p)| < 16 then [e.orderId] else [])
  }

  /** A cancellation removes exactly the named order, and fails exactly when it is not live. */
  ghost predicate Cancelled(q: Queue, id: u64, r: BookResult, u: Queue) {
    && (r == Ok <==> id in Orders(q)) && (r == OrderNotFound <==> id !in Orders(q))
    && Orders(u) == Orders(q) - {id}
    && (forall side, price :: Left(q, id, u, side, price))
    && (id !in Orders(q) ==> u == q)
  }

  /**
   A modification fails for a price out of range, or else for an id that is not live, and then
   changes nothing. Otherwise the order keeps its id, side and timestamp; it leaves its level, and
   joins its new one as `Inserted` says.
   */
  ghost predicate Modified(q: Queue, id: u64, price: u64, quantity: u64, r: BookResult, u: Queue) {
    && (r == PriceOutOfRange <==> price < MIN_PRICE || price > MAX_PRICE)
    && (r == OrderNotFound <==> MIN_PRICE <= price <= MAX_PRICE && id !in Orders(q))
    && r != OrderAlreadyExists
    && (r != Ok ==> u == q)
    && (r == Ok ==>
          var before := Orders(q)[id];
          && Orders(u) == Orders(q)[id := OrderEntry(id, price, quantity, before.timestamp, before.side)]
          && forall side, p ::
               var here, others := side == before.side && p == price, RemoveFirst(FifoIds(q, side, p), id);
               && Total(u, side, p) ==
                  Total(q, side, p) - QuantityOf(Orders(q), id, side, p) + (if here then quantity else 0)
               && id !in others
               && FifoIds(u, side, p) == others + if here && |others| < 16 then [id] else [])
  }

  /**
   A reduction fails exactly when the order is not live. It takes the quantity off the order and its
   level; an order with nothing left is removed, any other keeps its place.
   */
  ghost predicate Reduced(q: Queue, id: u64, n: nat, r: BookResult, u: Queue) {
    && (r == Ok <==> id in Orders(q)) && (r == OrderNotFound <==> id !in Orders(q))
    && (id !in Orders(q) ==> u == q)
    && (id in Orders(q) ==>
          var e := Orders(q)[id];
          if n >= e.quantity then
            Orders(u) == Orders(q) - {id} && forall side, price :: Left(q, id, u, side, price)
          else
            && Orders(u) == Orders(q)[id := e.(quantity := e.quantity - n)]
            && forall side, price ::
                 && FifoIds(u, side, price) == FifoIds(q, side, price)
                 && Total(u, side, price) == Total(q, side, price) - if RestsAt(Orders(q), id, side, price) then n else 0)
  }

  lemma RemoveLeaves(q: Queue, i: nat, side: Side, price: int)
    requires WellFormed(q) && i < |q|
    ensures Left(q, q[i].entry.orderId, RemoveAt(q, i), side, price)
  {
    hide Fifo, Orders, Total, WellFormed, RemoveFirst, RemoveAt;
    var id, u := q[i].entry.orderId, RemoveAt(q, i);
    OrdersComplete(q, i);
    RemoveViews(q, i, side, price);
    RemoveFifoIds(q, i, side, price);
    FifoLive(u, side, price);
    if !IsAt(q[i], side, price) {
      NotAtLevel(q, id, side, price);
      RemoveFirstAbsent(FifoIds(q, side, price), id);
    }
  }

  /** An id is only in the list of the level that its order rests at. */
  lemma NotAtLevel(q: Queue, id: u64, side: Side, price: int)
    requires WellFormed(q) && !RestsAt(Orders(q), id, side, price)
    ensures id !in FifoIds(q, side, price)
  {
    FifoExact(q, side, price);
  }

  lemma NothingLeaves(q: Queue, id: u64, side: Side, price: int)
    requires WellFormed(q) && id !in Orders(q)
    ensures Left(q, id, q, side, price)
  {
    NotAtLevel(q, id, side, price);
    RemoveFirstAbsent(FifoIds(q, side, price), id);
  }

  lemma InsertEffect(q: Queue, maxOrders: nat, e: OrderEntry)
    requires WellFormed(q)
    ensures var (r, u) := InsertSpec(q, maxOrders, e); Inserted(q, maxOrders, e, r, u)
  {
    hide Fifo, Orders, Total, WellFormed, Append;
    var (r, u) := InsertSpec(q, maxOrders, e);
    forall side, p
      ensures r == Ok ==>
                var here := side == e.side && p == e.price;
                && Orders(u) == Orders(q)[e.orderId := e]
                && Total(u, side, p) == Total(q, side, p) + (if here then e.quantity else 0)
                && FifoIds(u, side, p) == FifoIds(q, side, p) +
                   if here && |FifoIds(q, side, p)| < 16 then [e.orderId] else []
    {
      AppendViews(q, e, side, p);
    }
    AppendViews(q, e, Bid, 0);
  }

  lemma CancelEffect(q: Queue, id: u64)
    requires WellFormed(q)
    ensures var (r, u) := CancelSpec(q, id); Cancelled(q, id, r, u)
  {
    hide Fifo, Orders, Total, WellFormed, IndexOf, RemoveAt, Left;
    var i := IndexOf(q, id);
    IndexOfLive(q, id);
    if i < |q| {
      RemoveViews(q, i, Bid, 0);
    }
    forall side, price
      ensures Left(q, id, CancelSpec(q, id).1, side, price)
    {
      if i < |q| {
        RemoveLeaves(q, i, side, price);
      } else {
        NothingLeaves(q, id, side, price);
      }
    }
  }

  lemma ModifyOutcome(q: Queue, id: u64, price: u64, quantity: u64)
    requires WellFormed(q)
    ensures var (r, u) := ModifySpec(q, id, price, quantity); Modified(q, id, price, quantity, r, u)
  {
    hide Fifo, Orders, Total, WellFormed, IndexOf, RemoveAt, Append, RemoveFirst;
    var i := IndexOf(q, id);
    IndexOfLive(q, id);
    if i < |q| && InRange(price) {
      var u, e := RemoveAt(q, i), q[i].entry.(price := price, quantity := quantity);
      ModifyEffect(q, id, price, quantity, Bid, 0);
      forall side, p
        ensures Left(q, id, u, side, p)
        ensures var here := side == e.side && p == price;
                && Total(Append(u, e), side, p) == Total(u, side, p) + (if here then quantity else 0)
                && FifoIds(Append(u, e), side, p) == FifoIds(u, side, p) +
                   if here && |FifoIds(u, side, p)| < 16 then [id] else []
      {
        RemoveLeaves(q, i, side, p);
        AppendViews(u, e, side, p);
      }
    }
  }

  lemma ReduceEffect(q: Queue, id: u64, n: nat)
    requires WellFormed(q)
    ensures var (r, u) := ReduceSpec(q, id, n); Reduced(q, id, n, r, u)
  {
    hide Fifo, Orders, Total, WellFormed, IndexOf, RemoveAt, ShrinkAt, Left;
    var i := IndexOf(q, id);
    IndexOfLive(q, id);
    if i < |q| && n < q[i].entry.quantity {
      ShrinkViews(q, i, n, Bid, 0);
      forall side, price
        ensures FifoIds(ShrinkAt(q, i, n), side, price) == FifoIds(q, side, price)
        ensures Total(ShrinkAt(q, i, n), side, price) == Total(q, side, price) - if IsAt(q[i], side, price) then n else 0
      {
        ShrinkFifoIds(q, i, n, side, price);
        ShrinkViews(q, i, n, side, price);
      }
    } else if i < |q| {
      RemoveViews(q, i, Bid, 0);
      forall side, price
        ensures Left(q, id, RemoveAt(q, i), side, price)
      {
        RemoveLeaves(q, i, side, price);
      }
    }
  }

  /** While all orders are listed, each is in the list of its own level, once, and in no other. */
  lemma ListedExactlyOnce(q: Queue, i: nat)
    requires WellFormed(q) && AllListed(q) && i < |q|
    ensures var e := q[i].entry;
            && (exists k :: 0 <= k < |Fifo(q, e.side, e.price)| && Fifo(q, e.side, e.price)[k] == e &&
                            forall j | 0 <= j < |Fifo(q, e.side, e.price)| && j != k ::
                              Fifo(q, e.side, e.price)[j].orderId != e.orderId)
            && (forall side, p | side != e.side || p != e.price :: e !in Fifo(q, side, p))
  {
    hide Fifo, WellFormed;
    var e := q[i].entry;
    RemoveViews(q, i, e.side, e.price);
    FifoExact(q, e.side, e.price);
    assert Fifo(q, e.side, e.price)[|Fifo(q[..i], e.side, e.price)|] == e;
    forall side, p | side != e.side || p != e.price
      ensures e !in Fifo(q, side, p)
    {
      FifoExact(q, side, p);
    }
  }

  /** After a removal, a best price can only move if its level became empty, and then only away. */
  lemma RemoveBest(q: Queue, i: nat, side: Side)
    requires WellFormed(q) && i < |q|
    ensures var u, b := RemoveAt(q, i), Best(q, side);
            && (!(IsAt(q[i], side, b) && Total(u, side, b) == 0) ==> Best(u, side) == b)
            && (forall p | InRange(p) && Better(side, p, b) :: Total(u, side, p) == 0)
  {
    var u, b := RemoveAt(q, i), Best(q, side);
    RemoveWellFormed(q, i);
    BestByTotals(q, side, b);
    forall p
      ensures Total(u, side, p) == Total(q, side, p) - if IsAt(q[i], side, p) then q[i].entry.quantity else 0
    {
      RemoveViews(q, i, side, p);
    }
    BestByTotals(u, side, b);
  }

  /**
   An order taken out of the book can always be put back at another price: removing it freed an
   entry of the id map, even if the book was at its order limit.
   */
  lemma ModifyReinserts(q: Queue, maxOrders: nat, i: nat, price: u64, quantity: u64)
    requires WellFormed(q) && i < |q| <= maxOrders && InRange(price)
    ensures var u, e := RemoveAt(q, i), q[i].entry.(price := price, quantity := quantity);
            InsertSpec(u, maxOrders, e) == (Ok, Append(u, e))
  {
    RemoveViews(q, i, Bid, 0);
    assert EntryOk(q[i].entry);
  }

  /**
   The price that the cache holds after an insertion is the best of the totals exactly when the
   order brought quantity to its level, or left the cache alone.
   */
  lemma AppendBestExactIff(q: Queue, e: OrderEntry)
    requires WellFormed(q) && InRange(e.price)
    ensures var b := Best(q, e.side);
            BestOfTotals(Append(q, e), e.side, if Better(e.side, e.price, b) then e.price else b) <==>
            e.quantity > 0 || !Better(e.side, e.price, b)
  {
    var u, b := Append(q, e), Best(q, e.side);
    BestByTotals(q, e.side, b);
    forall p
      ensures Total(u, e.side, p) == Total(q, e.side, p) + if e.price == p then e.quantity else 0
    {
      AppendViews(q, e, e.side, p);
    }
  }

  /** No order is waiting outside the FIFO lists. */
  predicate AllListed(q: Queue) {
    forall i | 0 <= i < |q| :: q[i].listed
  }

  /** A level that lists all its orders has no quantity outside its list. */
  lemma {:induction false} ListedTotal(q: Queue, side: Side, price: int)
    ensures Sum(Fifo(q, side, price)) <= Total(q, side, price)
    ensures AllListed(q) ==> Sum(Fifo(q, side, price)) == Total(q, side, price)
  {
    if q != [] {
      assert AllListed(q) ==> AllListed(Init(q)) && q[|q| - 1].listed;
      ListedTotal(Init(q), side, price);
      var fifo := Fifo(Init(q), side, price);
      assert Fifo(q, side, price)[..|fifo|] == fifo;
      SumConcat(fifo, Fifo(q, side, price)[|fifo|..]);
    }
  }

  function Sum(es: seq<OrderEntry>): nat {
    if es == [] then 0 else es[0].quantity + Sum(es[1..])
  }

  lemma {:induction false} SumConcat(a: seq<OrderEntry>, b: seq<OrderEntry>)
    ensures Sum(a + b) == Sum(a) + Sum(b)
  {
    if a == [] {
      assert a + b == b;
    } else {
      assert (a + b)[1..] == a[1..] + b;
      SumConcat(a[1..], b);
    }
  }

  // ---------------------------------------------------------------- market depth

  datatype DepthEntry = DepthEntry(price: u64, quantity: u64)

  /** The non-empty levels among the k best prices of a side, best first. */
  ghost function Depth(q: Queue, side: Side, k: nat): seq<DepthEntry>
    requires k <= MAX_PRICE && forall p :: Total(q, side, p) <= MAX_U64
  {
    if k == 0 then []
    else
      var p := PriceAt(side, k);
      Depth(q, side, k - 1) + if Total(q, side, p) > 0 then [DepthEntry(p, Total(q, side, p))] else []
  }

  /** Depth lists strictly worsening prices with their totals, and skips no level that has one. */
  lemma {:induction false} DepthExact(q: Queue, side: Side, k: nat)
    requires k <= MAX_PRICE && forall p :: Total(q, side, p) <= MAX_U64
    ensures forall i | 0 <= i < |Depth(q, side, k)| ::
              var d := Depth(q, side, k)[i];
              1 <= RankOf(side, d.price) <= k && d.quantity == Total(q, side, d.price) > 0
    ensures forall i, j | 0 <= i < j < |Depth(q, side, k)| ::
              Better(side, Depth(q, side, k)[i].price, Depth(q, side, k)[j].price)
    ensures forall n | 1 <= n <= k && Total(q, side, PriceAt(side, n)) > 0 ::
              DepthEntry(PriceAt(side, n), Total(q, side, PriceAt(side, n))) in Depth(q, side, k)
  {
    hide Total;
    if k > 0 {
      DepthExact(q, side, k - 1);
    }
  }

  lemma DepthNext(q: Queue, side: Side, k: nat)
    requires 1 <= k <= MAX_PRICE && forall p :: Total(q, side, p) <= MAX_U64
    ensures var p := PriceAt(side, k);
            Depth(q, side, k) ==
            Depth(q, side, k - 1) + if Total(q, side, p) > 0 then [DepthEntry(p, Total(q, side, p))] else []
  {
  }

  lemma NoTotalOutOfRange(q: Queue, side: Side, price: int)
    requires WellFormed(q) && !InRange(price)
    ensures Total(q, side, price) == 0
  {
    TotalPositive(q, side, price);
  }

  /** Looking at more prices only appends to the depth. */
  lemma {:induction false} DepthGrows(q: Queue, side: Side, j: nat, k: nat)
    requires j <= k <= MAX_PRICE && forall p :: Total(q, side, p) <= MAX_U64
    ensures Depth(q, side, j) <= Depth(q, side, k)
  {
    hide Total;
    if j < k {
      DepthGrows(q, side, j, k - 1);
    }
  }

  /** No level is ahead of the best price. */
  lemma {:induction false} DepthStarts(q: Queue, side: Side, k: nat)
    requires WellFormed(q) && k <= MAX_PRICE && forall p :: Total(q, side, p) <= MAX_U64
    requires k < RankOf(side, Best(q, side))
    ensures Depth(q, side, k) == []
  {
    hide Total, Best, WellFormed;
    if k > 0 {
      BestByTotals(q, side, Best(q, side));
      DepthStarts(q, side, k - 1);
    }
  }
}
