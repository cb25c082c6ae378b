/**
 The array-based order book: an id map, one array of price levels per side, and cached best prices.

 `resting` is the abstract book; `Valid` says that every part of the representation agrees with it.
 */
module OrderBooks {
  import opened Types
  import opened Bits
  import opened FlatOrderMaps
  import opened PriceLevels
  import opened RestingOrders

  const NUM_LEVELS: nat := MAX_PRICE - MIN_PRICE + 1

  /** The id map and the cached best prices are those of the abstract book. */
  ghost predicate Agrees(q: Queue, model: map<u64, OrderEntry>, bestBid: int, bestAsk: int) {
    WellFormed(q) && model == Orders(q) && bestBid == Best(q, Bid) && bestAsk == Best(q, Ask)
  }

  lemma EmptyAgrees()
    ensures Agrees([], map[], NoPrice(Bid), NoPrice(Ask))
  {
  }

  lemma AgreesOnMap(q: Queue, model: map<u64, OrderEntry>, bestBid: int, bestAsk: int)
    requires Agrees(q, model, bestBid, bestAsk)
    ensures model == Orders(q) && |model| == |q|
  {
    OrdersSize(q);
  }

  /** What an insertion leaves in the cache of the order's side. */
  function CacheAfter(side: Side, price: u64, cached: u64): u64 {
    if Better(side, price, cached) then price else cached
  }

  /**
   Insertion moves a best price only when the new order beats it. The moved cache is exact if and
   only if the order brought quantity.
   */
  lemma AppendAgrees(q: Queue, model: map<u64, OrderEntry>, bestBid: u64, bestAsk: u64, e: OrderEntry)
    requires Agrees(q, model, bestBid, bestAsk) && InRange(e.price) && Legal(e.orderId) && e.orderId !in model
    ensures model[e.orderId := e] == Orders(Append(q, e))
    ensures e.quantity > 0 ==>
              Agrees(Append(q, e), model[e.orderId := e],
                     if e.side == Bid then CacheAfter(Bid, e.price, bestBid) else bestBid,
                     if e.side == Ask then CacheAfter(Ask, e.price, bestAsk) else bestAsk)
    ensures var cached := if e.side == Bid then bestBid else bestAsk;
            BestOfTotals(Append(q, e), e.side, CacheAfter(e.side, e.price, cached)) <==>
            e.quantity > 0 || !Better(e.side, e.price, cached)
  {
    AppendViews(q, e, Bid, 0);
    AppendViews(q, e, Ask, 0);
    AppendBestExactIff(q, e);
    if e.quantity > 0 {
      AppendWellFormed(q, e);
    }
  }

  /** The map entry of a live order is the order at its position. */
  lemma AgreesAt(q: Queue, model: map<u64, OrderEntry>, bestBid: int, bestAsk: int, id: u64)
    requires Agrees(q, model, bestBid, bestAsk)
    ensures id in model <==> IndexOf(q, id) < |q|
    ensures id in model ==> model[id] == q[IndexOf(q, id)].entry && EntryOk(model[id])
  {
    IndexOfLive(q, id);
  }

  lemma RemoveAgrees(q: Queue, model: map<u64, OrderEntry>, bestBid: int, bestAsk: int, i: nat)
    requires Agrees(q, model, bestBid, bestAsk) && i < |q|
    ensures var u, e := RemoveAt(q, i), q[i].entry;
            && EntryOk(e) && WellFormed(u) && model - {e.orderId} == Orders(u)
            && (!(e.side == Bid && e.price == bestBid && Total(u, Bid, e.price) == 0) ==> bestBid == Best(u, Bid))
            && (!(e.side == Ask && e.price == bestAsk && Total(u, Ask, e.price) == 0) ==> bestAsk == Best(u, Ask))
            && (forall p | InRange(p) && p > bestBid :: Total(u, Bid, p) == 0)
            && (forall p | InRange(p) && p < bestAsk :: Total(u, Ask, p) == 0)
  {
    RemoveWellFormed(q, i);
    RemoveViews(q, i, Bid, 0);
    RemoveBest(q, i, Bid);
    RemoveBest(q, i, Ask);
  }

  lemma ShrinkAgrees(q: Queue, model: map<u64, OrderEntry>, bestBid: int, bestAsk: int, i: nat, n: nat)
    requires Agrees(q, model, bestBid, bestAsk) && i < |q| && n < q[i].entry.quantity
    ensures var e := q[i].entry;
            Agrees(ShrinkAt(q, i, n), model[e.orderId := e.(quantity := e.quantity - n)], bestBid, bestAsk)
  {
    ShrinkWellFormed(q, i, n);
    ShrinkViews(q, i, n, Bid, 0);
    ShrinkBest(q, i, n, Bid);
    ShrinkBest(q, i, n, Ask);
  }

  // ---------------------------------------------------------------- the class

  /** `l` is a new, empty level. */
  ghost predicate EmptyLevel(l: PriceLevel, side: Side, price: int)
    reads l, l.orderIds
  {
    l.Valid() && l.totalQuantity == 0 && l.Ids() == [] && l.side == side && l.price == price
  }

  ghost predicate EmptyLevels(levels: seq<PriceLevel>, side: Side, objects: set<object>)
    reads objects
  {
    forall i | 0 <= i < |levels| ::
      levels[i] in objects && levels[i].orderIds in objects && EmptyLevel(levels[i], side, i + MIN_PRICE)
  }

  /** The levels of one side are distinct objects with distinct buffers, all among `objects`. */
  ghost predicate SideShape(levels: seq<PriceLevel>, side: Side,
                            owner: map<array<u64>, PriceLevel>, objects: set<object>) {
    forall i | 0 <= i < |levels| ::
      && levels[i].side == side && levels[i].price == i + MIN_PRICE
      && levels[i] in objects && levels[i].orderIds in objects
      && levels[i].orderIds in owner && owner[levels[i].orderIds] == levels[i]
  }

  /** All the levels of one side, empty. */
  method NewLevels(side: Side)
      returns (levels: seq<PriceLevel>, ghost owner: map<array<u64>, PriceLevel>, ghost objects: set<object>)
    ensures |levels| == NUM_LEVELS && fresh(objects)
    ensures SideShape(levels, side, owner, objects) && owner.Keys <= objects
    ensures EmptyLevels(levels, side, objects)
  {
    levels, owner, objects := [], map[], {};
    while |levels| < NUM_LEVELS
      invariant |levels| <= NUM_LEVELS && fresh(objects)
      invariant EmptyLevels(levels, side, objects)
      invariant SideShape(levels, side, owner, objects) && owner.Keys <= objects
    {
      var l := new PriceLevel(side, |levels| + MIN_PRICE);
      levels, owner, objects := levels + [l], owner[l.orderIds := l], objects + {l, l.orderIds};
    }
  }

  /** Two disjoint sides keep their shape in the union of their objects. */
  lemma SidesMerge(asks: seq<PriceLevel>, bids: seq<PriceLevel>,
                   askOwner: map<array<u64>, PriceLevel>, bidOwner: map<array<u64>, PriceLevel>,
                   askObjects: set<object>, bidObjects: set<object>)
    requires SideShape(asks, Ask, askOwner, askObjects) && SideShape(bids, Bid, bidOwner, bidObjects)
    requires bidObjects !! askObjects && askOwner.Keys <= askObjects
    ensures SideShape(bids, Bid, bidOwner + askOwner, bidObjects + askObjects)
    ensures SideShape(asks, Ask, bidOwner + askOwner, bidObjects + askObjects)
  {
  }

  /** Both sides, with no object in common. */
  method NewSides()
      returns (bids: seq<PriceLevel>, asks: seq<PriceLevel>,
               ghost owner: map<array<u64>, PriceLevel>, ghost objects: set<object>)
    ensures |bids| == NUM_LEVELS && |asks| == NUM_LEVELS && fresh(objects)
    ensures SideShape(bids, Bid, owner, objects) && SideShape(asks, Ask, owner, objects)
    ensures EmptyLevels(bids, Bid, objects) && EmptyLevels(asks, Ask, objects)
  {
    hide SideShape, EmptyLevel;
    ghost var bidOwner, bidObjects, askOwner, askObjects;
    bids, bidOwner, bidObjects := NewLevels(Bid);
    asks, askOwner, askObjects := NewLevels(Ask);
    SidesMerge(asks, bids, askOwner, bidOwner, askObjects, bidObjects);
    owner, objects := bidOwner + askOwner, bidObjects + askObjects;
  }

  class OrderBook {
    const symbolId: nat
    const bidLevels: seq<PriceLevel>
    const askLevels: seq<PriceLevel>
    const orders: FlatOrderMap<OrderEntry>
    var bestBid: u64
    var bestAsk: u64

    ghost var resting: Queue
    ghost const owner: map<array<u64>, PriceLevel>
    ghost const LevelRepr: set<object>
    ghost const Repr: set<object>

    ghost predicate Shape() {
      && |bidLevels| == NUM_LEVELS && |askLevels| == NUM_LEVELS
      && Repr == {this, orders, orders.table} + LevelRepr
      && this !in LevelRepr && orders !in LevelRepr && orders.table !in LevelRepr
      && orders.table.Length % 2 == 0
      && (forall side, price | InRange(price) :: LevelShape(side, price))
    }

    ghost predicate LevelShape(side: Side, price: int)
      requires |bidLevels| == NUM_LEVELS && |askLevels| == NUM_LEVELS && InRange(price)
    {
      var l := Level(side, price);
      && l in LevelRepr && l.orderIds in LevelRepr
      && l.side == side && l.price == price
      && l.orderIds in owner && owner[l.orderIds] == l
    }

    /** The level of a price; with a tick of 1 its index is the distance from the lowest price. */
    function Level(side: Side, price: int): PriceLevel
      requires |bidLevels| == NUM_LEVELS && |askLevels| == NUM_LEVELS && InRange(price)
    {
      if side == Bid then bidLevels[price - MIN_PRICE] else askLevels[price - MIN_PRICE]
    }

    ghost predicate LevelOk(side: Side, price: int)
      requires Shape() && InRange(price)
      reads `resting, Level(side, price), Level(side, price).orderIds
    {
      var l := Level(side, price);
      && l.Valid()
      && l.totalQuantity == Total(resting, side, price)
      && l.Ids() == FifoIds(resting, side, price)
    }

    ghost predicate LevelsOk()
      requires Shape()
      reads `resting, LevelRepr
    {
      forall side, price | InRange(price) && LevelShape(side, price) :: LevelOk(side, price)
    }

    /** The arrays and the id map hold the abstract book; the cached best prices are another matter. */
    ghost predicate Stored()
      reads this, Repr
    {
      Shape() && orders.Valid() && LevelsOk() && orders.Model == Orders(resting)
    }

    /** The cached best price of a side. */
    function Cached(side: Side): u64
      reads this
    {
      if side == Bid then bestBid else bestAsk
    }

    ghost predicate Valid()
      reads this, Repr
      ensures Valid() ==> WellFormed(resting) && bestBid == Best(resting, Bid) && bestAsk == Best(resting, Ask)
    {
      && Shape() && orders.Valid() && LevelsOk()
      && Agrees(resting, orders.Model, bestBid, bestAsk)
    }

    ghost function MaxOrders(): nat {
      orders.table.Length / 2
    }

    constructor (symbolId: nat, maxOrders: nat)
      requires IsPow2(maxOrders)
      ensures Valid() && fresh(Repr)
      ensures resting == [] && MaxOrders() == maxOrders && this.symbolId == symbolId
    {
      hide Agrees, Reachable, Represents, PathClear, SideShape, LevelShape, LevelsOk, LevelOk, EmptyLevels, IsPow2, Pow2, FlatOrderMap.Valid, WellFormed, Best, Orders;
      this.symbolId := symbolId;
      DoublePow2(maxOrders);
      var idMap := new FlatOrderMap<OrderEntry>(2 * maxOrders, OrderEntry(0, 0, 0, 0, Bid));
      var bids, asks, levelOwner, levelObjects := NewSides();
      orders, bidLevels, askLevels := idMap, bids, asks;
      bestBid, bestAsk := NoPrice(Bid), NoPrice(Ask);
      resting, owner, LevelRepr := [], levelOwner, levelObjects;
      Repr := {this, idMap, idMap.table} + levelObjects;
      new;
      ShapeHolds();
      EmptyLevelsOk();
      EmptyAgrees();
    }

    lemma ShapeHolds()
      requires |bidLevels| == NUM_LEVELS && |askLevels| == NUM_LEVELS
      requires SideShape(bidLevels, Bid, owner, LevelRepr) && SideShape(askLevels, Ask, owner, LevelRepr)
      ensures forall side, price | InRange(price) :: LevelShape(side, price)
    {
    }

    lemma EmptyLevelsOk()
      requires Shape() && resting == []
      requires EmptyLevels(bidLevels, Bid, LevelRepr) && EmptyLevels(askLevels, Ask, LevelRepr)
      ensures LevelsOk()
    {
      forall side, price | InRange(price)
        ensures LevelOk(side, price)
      {
        assert EmptyLevel(Level(side, price), side, price);
        assert Level(side, price).Ids() == FifoIds([], side, price);
      }
    }

    /** Adds an order to the total and the FIFO list of its level. */
    method Enlist(order: OrderEntry)
      requires Shape() && LevelsOk() && InRange(order.price)
      requires Total(resting, order.side, order.price) + order.quantity <= MAX_U64
      modifies `resting, LevelRepr
      ensures LevelsOk() && resting == Append(old(resting), order)
    {
      hide Fifo, Total, Append, RemoveFirst;
      var lvl := Level(order.side, order.price);
      assert LevelShape(order.side, order.price) && LevelOk(order.side, order.price);
      lvl.totalQuantity := lvl.totalQuantity + order.quantity;
      var listed := lvl.Push(order.orderId);
      resting := Append(resting, order);
      forall side, price | InRange(price)
        ensures LevelOk(side, price)
      {
        AppendViews(old(resting), order, side, price);
        assert LevelShape(side, price) && old(LevelOk(side, price));
      }
    }

    /**
     An order of quantity zero is stored like any other, but when it beats the cached best price it
     leaves a cache that no total supports.
     */
    method Insert(order: OrderEntry) returns (r: BookResult)
      requires Valid()
      requires InsertSpec(resting, MaxOrders(), order).0 == Ok ==>
                 Total(resting, order.side, order.price) + order.quantity <= MAX_U64
      modifies Repr
      ensures (r, resting) == InsertSpec(old(resting), MaxOrders(), order)
      ensures Inserted(old(resting), MaxOrders(), order, r, resting)
      ensures Stored() && (order.quantity > 0 || r != Ok ==> Valid())
      ensures Cached(order.side) ==
              if r == Ok then CacheAfter(order.side, order.price, old(Cached(order.side))) else old(Cached(order.side))
      ensures Cached(order.side.Opposite()) == old(Cached(order.side.Opposite()))
      ensures r == Ok ==>
                (BestOfTotals(resting, order.side, Cached(order.side)) <==>
                 order.quantity > 0 || !Better(order.side, order.price, old(Cached(order.side))))
    {
      hide LevelsOk, Agrees, Append, HasRoom, Orders, Fifo, Total, Reachable, Represents, TombstoneAhead, TakesSlot, IsPow2,
           Best, WellFormed, IndexOf, BestOfTotals, Inserted;
      InsertEffect(resting, MaxOrders(), order);
      AgreesOnMap(resting, orders.Model, bestBid, bestAsk);
      if !InRange(order.price) { return PriceOutOfRange; }
      var found := orders.Find(order.orderId);
      if found.At? { return OrderAlreadyExists; }
      var ok := orders.Insert(order.orderId, order);
      if !ok { return OrderAlreadyExists; }

      AppendAgrees(resting, old(orders.Model), bestBid, bestAsk, order);
      Enlist(order);
      if order.side == Bid && order.price > bestBid {
        bestBid := order.price;
      } else if order.side == Ask && order.price < bestAsk {
        bestAsk := order.price;
      }
      return Ok;
    }

    /** Takes an order out of the total and the FIFO list of its level. */
    method Delist(e: OrderEntry, ghost i: nat)
      requires Shape() && LevelsOk() && WellFormed(resting)
      requires i < |resting| && resting[i].entry == e
      modifies `resting, LevelRepr
      ensures LevelsOk() && resting == RemoveAt(old(resting), i)
    {
      hide Fifo, Total, RemoveFirst, RemoveAt;
      var lvl := Level(e.side, e.price);
      RemoveViews(resting, i, e.side, e.price);
      assert LevelShape(e.side, e.price) && LevelOk(e.side, e.price);
      lvl.totalQuantity := lvl.totalQuantity - e.quantity;
      lvl.Remove(e.orderId);
      resting := RemoveAt(resting, i);
      forall side, price | InRange(price)
        ensures LevelOk(side, price)
      {
        RemoveViews(old(resting), i, side, price);
        RemoveFifoIds(old(resting), i, side, price);
        assert LevelShape(side, price) && old(LevelOk(side, price));
      }
    }

    /** Scans down from `price` for the highest level with a non-zero total. */
    method UpdateBestBidFrom(price: u64)
      requires Shape() && LevelsOk() && WellFormed(resting) && InRange(price)
      requires forall p | InRange(p) && p > price :: Total(resting, Bid, p) == 0
      modifies `bestBid
      ensures bestBid == Best(resting, Bid)
    {
      hide Total, Best, WellFormed, FifoIds;
      var p := price;
      while p >= MIN_PRICE
        invariant MIN_PRICE <= p <= price
        invariant forall x | InRange(x) && x > p :: Total(resting, Bid, x) == 0
      {
        assert LevelShape(Bid, p) && LevelOk(Bid, p);
        BestByTotals(resting, Bid, p);
        if Level(Bid, p).totalQuantity > 0 {
          bestBid := p;
          return;
        }
        if p == MIN_PRICE { break; }
        p := p - 1;
      }
      bestBid := NoPrice(Bid);
      BestByTotals(resting, Bid, bestBid);
    }

    /** Scans up from above `price` for the lowest level with a non-zero total. */
    method UpdateBestAskFrom(price: u64)
      requires Shape() && LevelsOk() && WellFormed(resting) && InRange(price)
      requires forall p | InRange(p) && p <= price :: Total(resting, Ask, p) == 0
      modifies `bestAsk
      ensures bestAsk == Best(resting, Ask)
    {
      hide Total, Best, WellFormed, FifoIds;
      var p := price + 1;
      while p <= MAX_PRICE
        invariant price < p <= MAX_PRICE + 1
        invariant forall x | InRange(x) && x < p :: Total(resting, Ask, x) == 0
      {
        assert LevelShape(Ask, p) && LevelOk(Ask, p);
        BestByTotals(resting, Ask, p);
        if Level(Ask, p).totalQuantity > 0 {
          bestAsk := p;
          return;
        }
        p := p + 1;
      }
      bestAsk := NoPrice(Ask);
      BestByTotals(resting, Ask, bestAsk);
    }

    /** Removes a live order from its level, the id map and, if need be, the best prices. */
    method Detach(e: OrderEntry, ghost i: nat)
      requires Valid() && i < |resting| && resting[i].entry == e
      modifies Repr
      ensures Valid() && resting == RemoveAt(old(resting), i)
    {
      hide LevelsOk, RemoveAt, Orders, Fifo, Total, Best, WellFormed, FlatOrderMap.Valid, LevelShape, BuriesSlot;
      RemoveAgrees(resting, orders.Model, bestBid, bestAsk, i);
      Delist(e, i);
      var erased := orders.Erase(e.orderId);
      var total := Quantity(e.side, e.price);
      if total == 0 {
        if e.side == Bid && e.price == bestBid {
          UpdateBestBidFrom(e.price);
        } else if e.side == Ask && e.price == bestAsk {
          UpdateBestAskFrom(e.price);
        }
      }
    }

    /** The total of a level, read from the array. */
    function Quantity(side: Side, price: int): (total: u64)
      requires Shape() && LevelsOk() && InRange(price)
      reads `resting, LevelRepr
      ensures total == Total(resting, side, price)
    {
      assert LevelShape(side, price) && LevelOk(side, price);
      Level(side, price).totalQuantity
    }

    method Cancel(id: u64) returns (r: BookResult)
      requires Valid()
      modifies Repr
      ensures Valid()
      ensures (r, resting) == CancelSpec(old(resting), id)
      ensures Cancelled(old(resting), id, r, resting)
    {
      hide LevelsOk, Agrees, RemoveAt, IndexOf, Orders, Reachable, Represents, IsPow2, Cancelled;
      CancelEffect(resting, id);
      AgreesAt(resting, orders.Model, bestBid, bestAsk, id);
      var o := orders.Find(id);
      if o.Null? { return OrderNotFound; }
      Detach(orders.table[o.slot].value, IndexOf(resting, id));
      return Ok;
    }

    /** As `Insert` does, a modification to quantity zero can leave a best price that no total supports. */
    method Modify(id: u64, price: u64, quantity: u64) returns (r: BookResult)
      requires Valid()
      requires var i := IndexOf(resting, id);
               i < |resting| && InRange(price) ==>
                 Total(RemoveAt(resting, i), resting[i].entry.side, price) + quantity <= MAX_U64
      modifies Repr
      ensures (r, resting) == ModifySpec(old(resting), id, price, quantity)
      ensures Modified(old(resting), id, price, quantity, r, resting)
      ensures Stored() && (quantity > 0 || r != Ok ==> Valid())
      ensures var i := IndexOf(old(resting), id);
              r == Ok ==>
                i < |old(resting)| &&
                var side, others := old(resting)[i].entry.side, RemoveAt(old(resting), i);
                && Cached(side) == CacheAfter(side, price, Best(others, side))
                && Cached(side.Opposite()) == Best(others, side.Opposite())
                && (BestOfTotals(resting, side, Cached(side)) <==>
                    quantity > 0 || !Better(side, price, Best(others, side)))
    {
      hide LevelsOk, WellFormed, Best, InsertSpec, RemoveAt, IndexOf, Orders, Total, Reachable, Represents, IsPow2,
           BestOfTotals, Modified, Inserted;
      ModifyOutcome(resting, id, price, quantity);
      if !InRange(price) { return PriceOutOfRange; }
      AgreesAt(resting, orders.Model, bestBid, bestAsk, id);
      AgreesOnMap(resting, orders.Model, bestBid, bestAsk);
      var o := orders.Find(id);
      if o.Null? { return OrderNotFound; }
      ghost var i := IndexOf(resting, id);
      ModifyReinserts(resting, MaxOrders(), i, price, quantity);
      var e := orders.table[o.slot].value;
      Detach(e, i);
      r := Insert(e.(price := price, quantity := quantity));
    }

    method Reduce(id: u64, n: u64) returns (r: BookResult)
      requires Valid()
      modifies Repr
      ensures Valid()
      ensures (r, resting) == ReduceSpec(old(resting), id, n)
      ensures Reduced(old(resting), id, n, r, resting)
    {
      hide LevelsOk, WellFormed, Best, RemoveAt, ShrinkAt, IndexOf, Orders, Reachable, Represents, IsPow2, Reduced, Cancelled;
      ReduceEffect(resting, id, n);
      AgreesAt(resting, orders.Model, bestBid, bestAsk, id);
      var o := orders.Find(id);
      if o.Null? { return OrderNotFound; }
      var e := orders.table[o.slot].value;
      if n >= e.quantity {
        r := Cancel(id);
        return;
      }
      ghost var i := IndexOf(resting, id);
      ShrinkAgrees(resting, orders.Model, bestBid, bestAsk, i, n);
      Thin(e, n, i);
      orders.Write(o.slot, e.(quantity := e.quantity - n));
      return Ok;
    }

    /** Takes `n` off the total of an order's level. */
    method Thin(e: OrderEntry, n: u64, ghost i: nat)
      requires Shape() && LevelsOk() && WellFormed(resting)
      requires i < |resting| && resting[i].entry == e && n < e.quantity
      modifies `resting, LevelRepr
      ensures LevelsOk() && resting == ShrinkAt(old(resting), i, n)
    {
      hide Fifo, Total, ShrinkAt;
      var lvl := Level(e.side, e.price);
      ShrinkViews(resting, i, n, e.side, e.price);
      assert LevelShape(e.side, e.price) && LevelOk(e.side, e.price);
      lvl.totalQuantity := lvl.totalQuantity - n;
      resting := ShrinkAt(resting, i, n);
      forall side, price | InRange(price)
        ensures LevelOk(side, price)
      {
        ShrinkViews(old(resting), i, n, side, price);
        ShrinkFifoIds(old(resting), i, n, side, price);
        assert LevelShape(side, price) && old(LevelOk(side, price));
      }
    }

    // -------------------------------------------------------------- accessors

    predicate HasBid()
      reads this
    {
      bestBid >= MIN_PRICE
    }

    predicate HasAsk()
      reads this
    {
      bestAsk <= MAX_PRICE
    }

    /** The ids resting at a price, oldest first. */
    function OrderIdsAt(price: u64, side: Side): (ids: seq<u64>)
      requires Valid()
      reads this, Repr
      ensures InRange(price) ==> ids == FifoIds(resting, side, price)
      ensures !InRange(price) ==> ids == []
    {
      if !InRange(price) then []
      else
        assert LevelShape(side, price) && LevelOk(side, price);
        Level(side, price).Ids()
    }

    /** The total resting at a price; zero outside the price range. */
    function QuantityAt(price: u64, side: Side): (total: u64)
      requires Valid()
      reads this, Repr
      ensures total == if InRange(price) then Total(resting, side, price) else 0
    {
      if InRange(price) then Quantity(side, price) else 0
    }

    method FindOrder(id: u64) returns (o: Option<OrderEntry>)
      requires Valid()
      ensures o == if id in Orders(resting) then Some(Orders(resting)[id]) else None
    {
      var p := orders.Find(id);
      if p.Null? { return None; }
      return Some(orders.table[p.slot].value);
    }

    /** Totals fit their 64-bit field. */
    lemma TotalsFit()
      requires Valid()
      ensures forall side, p :: Total(resting, side, p) <= MAX_U64
    {
      forall side, p
        ensures Total(resting, side, p) <= MAX_U64
      {
        if InRange(p) {
          assert LevelShape(side, p) && LevelOk(side, p);
        } else {
          NoTotalOutOfRange(resting, side, p);
        }
      }
    }

    /** The first n non-empty bid levels, from the best price down. */
    method TopBids(n: nat) returns (result: seq<DepthEntry>)
      requires Valid()
      ensures forall side, p :: Total(resting, side, p) <= MAX_U64
      ensures result == Depth(resting, Bid, MAX_PRICE)[..Min(n, |Depth(resting, Bid, MAX_PRICE)|)]
    {
      hide Total, Best, Agrees, WellFormed, Depth, FifoIds;
      TotalsFit();
      BestInRange(resting, Bid);
      result := [];
      DepthStarts(resting, Bid, MAX_PRICE - bestBid);
      if !HasBid() {
        return;
      }
      var p := bestBid;
      while p >= MIN_PRICE && |result| < n
        invariant MIN_PRICE <= p <= MAX_PRICE && |result| <= n
        invariant result == Depth(resting, Bid, MAX_PRICE - p)
      {
        var total := Quantity(Bid, p);
        assert PriceAt(Bid, MAX_PRICE + 1 - p) == p;
        DepthNext(resting, Bid, MAX_PRICE + 1 - p);
        if total > 0 {
          result := result + [DepthEntry(p, total)];
        }
        if p == MIN_PRICE {
          return;
        }
        p := p - 1;
      }
      DepthGrows(resting, Bid, MAX_PRICE - p, MAX_PRICE);
    }

    /** The first n non-empty ask levels, from the best price up. */
    method TopAsks(n: nat) returns (result: seq<DepthEntry>)
      requires Valid()
      ensures forall side, p :: Total(resting, side, p) <= MAX_U64
      ensures result == Depth(resting, Ask, MAX_PRICE)[..Min(n, |Depth(resting, Ask, MAX_PRICE)|)]
    {
      hide Total, Best, Agrees, WellFormed, Depth, FifoIds;
      TotalsFit();
      BestInRange(resting, Ask);
      result := [];
      DepthStarts(resting, Ask, bestAsk - 1);
      if !HasAsk() {
        return;
      }
      var p := bestAsk;
      while p <= MAX_PRICE && |result| < n
        invariant MIN_PRICE <= p <= MAX_PRICE + 1 && |result| <= n
        invariant result == Depth(resting, Ask, p - 1)
      {
        var total := Quantity(Ask, p);
        DepthNext(resting, Ask, p);
        if total > 0 {
          result := result + [DepthEntry(p, total)];
        }
        p := p + 1;
      }
      DepthGrows(resting, Ask, p - 1, MAX_PRICE);
    }
  }
}
