/** Short runs, of the rules and of the classes, that show where the code falls short. */
module Scenarios {
  import opened Types
  import opened FlatOrderMaps
  import opened Bits
  import opened RestingOrders
  import opened OrderBooks
  import opened Matching
  import opened MatchingTheorems
  import opened MatchingEngines
  import opened Allocation
  import opened Runs

  const MAX_ORDERS: nat := 65_536

  function Ask1(id: u64, price: u64): Event {
    Event(0, 1, NewOrder, Ask, price, 1, id)
  }

  /** n one-lot asks at price 100, with ids 1 to n. */
  function Pile(n: nat): Queue
    requires n <= 100
  {
    if n == 0 then [] else Append(Pile(n - 1), Remainder(Ask1(n, 100), 1))
  }

  function PileEvents(n: nat): (evs: seq<Event>)
    requires n <= 100
    ensures forall ev | ev in evs :: EventOk(ev)
  {
    if n == 0 then [] else PileEvents(n - 1) + [Ask1(n, 100)]
  }

  ghost predicate PileShape(q: Queue, n: nat) {
    && WellFormed(q) && |q| == n
    && (forall id | id in Orders(q) :: 1 <= id <= n)
    && Best(q, Bid) == NoPrice(Bid) && (n > 0 ==> Best(q, Ask) == 100) && (n == 0 ==> Best(q, Ask) == NoPrice(Ask))
    && Total(q, Ask, 100) == n
    && Fifo(q, Ask, 101) == []
    && |Fifo(q, Ask, 100)| == Min(n, 16) && Sum(Fifo(q, Ask, 100)) == Min(n, 16)
    && (forall e | e in Fifo(q, Ask, 100) :: ParticipantOf(e.orderId) == 0)
  }

  lemma PileGrows(q: Queue, n: nat)
    requires PileShape(q, n) && n < 100
    ensures PileShape(Append(q, Remainder(Ask1(n + 1, 100), 1)), n + 1)
  {
    hide Fifo, Total, Best, Orders, WellFormed, Append;
    var e := Remainder(Ask1(n + 1, 100), 1);
    AppendSize(q, e);
    AppendWellFormed(q, e);
    AppendViews(q, e, Ask, 100);
    AppendViews(q, e, Ask, 101);
    AppendViews(q, e, Bid, 0);
    SumConcat(Fifo(q, Ask, 100), [e]);
    assert Sum([e]) == 1;
    assert Fifo(q, Ask, 100) + [] == Fifo(q, Ask, 100);
  }

  lemma AppendSize(q: Queue, e: OrderEntry)
    ensures |Append(q, e)| == |q| + 1
  {
  }

  lemma {:induction false} PileFacts(n: nat)
    requires n <= 100
    ensures PileShape(Pile(n), n)
  {
    hide PileShape;
    if n > 0 {
      PileFacts(n - 1);
      PileGrows(Pile(n - 1), n - 1);
    } else {
      EmptyPile();
    }
  }

  lemma EmptyPile()
    ensures PileShape([], 0)
  {
  }

  /** With nothing to trade with, an order with a fresh id simply rests. */
  lemma OrderRests(q: Queue, ev: Event)
    requires WellFormed(q) && !CanCross(q, ev.side, ev.price) && |q| < MAX_ORDERS
    requires ev.kind == NewOrder && ev.quantity > 0
    requires InRange(ev.price) && Legal(ev.orderId) && ev.orderId !in Orders(q)
    ensures MatchEvent(q, ev).stop != Stalled
    ensures NewOrderSpec(q, MAX_ORDERS, ev) == (Append(q, Remainder(ev, ev.quantity)), MatchResult.Ok)
    ensures Apply(q, MAX_ORDERS, ev) == Some(Append(q, Remainder(ev, ev.quantity)))
  {
    Halt(q, ev.side, ev.price, ev.orderId, ev.quantity);
  }

  lemma {:induction false} RunSnoc(q: Queue, evs: seq<Event>, ev: Event)
    requires WellFormed(q) && EventOk(ev) && forall x | x in evs :: EventOk(x)
    ensures var r := Run(q, MAX_ORDERS, evs);
            Run(q, MAX_ORDERS, evs + [ev]) == if r.None? then None else Apply(r.value, MAX_ORDERS, ev)
    decreases |evs|
  {
    hide Apply, WellFormed;
    if evs == [] {
      assert evs + [ev] == [ev];
      assert Run(q, MAX_ORDERS, [ev]) == Apply(q, MAX_ORDERS, ev);
    } else {
      assert (evs + [ev])[1..] == evs[1..] + [ev];
      var r := Apply(q, MAX_ORDERS, evs[0]);
      if r.Some? {
        RunSnoc(r.value, evs[1..], ev);
      }
    }
  }

  lemma {:induction false} PileIsReached(n: nat)
    requires n <= 100
    ensures Run([], MAX_ORDERS, PileEvents(n)) == Some(Pile(n))
  {
    hide Apply, WellFormed, Run, Orders, Best, Append;
    EmptyWellFormed();
    if n > 0 {
      PileIsReached(n - 1);
      PileFacts(n - 1);
      OrderRests(Pile(n - 1), Ask1(n, 100));
      RunSnoc([], PileEvents(n - 1), Ask1(n, 100));
    } else {
      NoEvents([]);
    }
  }

  lemma NoEvents(q: Queue)
    requires WellFormed(q)
    ensures Run(q, MAX_ORDERS, []) == Some(q)
  {
  }

  /** A pile that outgrew its list stalls a bid for all of it. */
  lemma PileStalls(q: Queue, n: nat, bid: Event)
    requires PileShape(q, n) && n > 16
    requires bid.kind == NewOrder && bid.side == Bid && bid.price == 100 && bid.quantity == n
    requires ParticipantOf(bid.orderId) == 0
    ensures Apply(q, MAX_ORDERS, bid) == None && MatchEvent(q, bid).stop == Stalled
  {
    hide Match, Fifo, Best, WellFormed, Orders, Total;
    StallsIff(q, Bid, 100, bid.orderId, n);
    LadderEmpty(q, Ask, 99);
    assert Ladder(q, Ask, 100) == Fifo(q, Ask, 100);
    assert StallsAt(q, Bid, bid.orderId, n, 100);
  }

  /**
   Seventeen asks at one price and a bid for all of them: the engine fills the 16 listed asks and
   then sweeps the level's empty list forever.
   */
  lemma EngineCanHang()
    ensures Run([], MAX_ORDERS, PileEvents(17) + [Event(0, 1, NewOrder, Bid, 100, 17, 18)]) == None
  {
    hide Pile, PileEvents, PileShape, Run, Apply;
    var n, bid := 17, Event(0, 1, NewOrder, Bid, 100, 17, 18);
    PileIsReached(n);
    PileFacts(n);
    RunSnoc([], PileEvents(n), bid);
    PileStalls(Pile(n), n, bid);
  }

  /** The engine's own classes, after the first n of those asks. */
  method ServePile(n: nat) returns (book: OrderBook, engine: MatchingEngine)
    requires n <= 100
    ensures book.Valid() && fresh(book.Repr) && book.resting == Pile(n) && book.MaxOrders() == MAX_ORDERS
  {
    hide Pile, PileShape, Append, NewOrderSpec, WellFormed, Orders, Best, OrderBook.Valid, Trace, MatchOutput.Valid;
    Powers();
    book := new OrderBook(1, MAX_ORDERS);
    engine := new MatchingEngine();
    PileStarts();
    for i := 0 to n
      invariant book.Valid() && fresh(book.Repr) && book.resting == Pile(i) && book.MaxOrders() == MAX_ORDERS
    {
      PileFacts(i);
      PileSize(Pile(i), i);
      OrderRests(book.resting, Ask1(i + 1, 100));
      var out := engine.ProcessNewOrder(book, Ask1(i + 1, 100));
      PileNext(i);
    }
  }

  lemma PileStarts()
    ensures Pile(0) == []
  {
  }

  lemma PileNext(n: nat)
    requires n < 100
    ensures Pile(n + 1) == Append(Pile(n), Remainder(Ask1(n + 1, 100), 1))
  {
  }

  lemma PileSize(q: Queue, n: nat)
    requires PileShape(q, n)
    ensures WellFormed(q) && |q| == n && Best(q, Bid) == NoPrice(Bid) && Total(q, Ask, 100) == n
    ensures n + 1 !in Orders(q)
  {
  }

  /** After 17 asks, no number of passes of the engine's outer loop gets the bid for all of them done. */
  method NoPassIsTheLast(n: nat) returns (done: bool)
    ensures !done
  {
    hide Pile, PileShape, OrderBook.Valid, Match, Apply;
    var asks := 17;
    var book, engine := ServePile(asks);
    var bid := Event(0, 1, NewOrder, Bid, 100, 17, 18);
    var out := new MatchOutput();
    PileFacts(asks);
    PileStalls(book.resting, asks, bid);
    var remaining, stpHit;
    done, remaining, stpHit := engine.MatchPasses(book, bid, out, n);
  }

  /** A full level with one more ask behind it. */
  lemma PileAndOne(p: Queue, id: u64)
    requires PileShape(p, 16) && AllListed(p) && 16 < id && Legal(id)
    ensures var e := Remainder(Ask1(id, 101), 1); var q := Append(p, e);
            && WellFormed(q) && AllListed(q)
            && Ladder(q, Ask, 101) == Fifo(p, Ask, 100) + [e] && Ladder(q, Ask, 101)[..16] == Fifo(p, Ask, 100)
  {
    hide Fifo, Best, WellFormed, Orders, Total, Append;
    var e := Remainder(Ask1(id, 101), 1);
    var q := Append(p, e);
    AppendWellFormed(p, e);
    AppendViews(p, e, Ask, 100);
    AppendViews(p, e, Ask, 101);
    ListedAppend(p, e);
    LadderEmpty(q, Ask, 99);
    assert Ladder(q, Ask, 100) == Fifo(p, Ask, 100);
  }

  /** A bid for all of it has 17 trades to report. */
  lemma PileOverflowsOutput(p: Queue, bid: Event)
    requires PileShape(p, 16) && AllListed(p)
    requires bid.side == Bid && bid.price == 101 && bid.quantity == 17 && ParticipantOf(bid.orderId) == 0
    ensures var q := Append(p, Remainder(Ask1(17, 101), 1));
            && WellFormed(q) && MatchEvent(q, bid).stop != Stalled
            && |Trace(bid, MatchEvent(q, bid))| > MAX_EVENTS
  {
    hide Match, Fifo, Best, WellFormed, Orders, Total, Append, Ladder;
    PileAndOne(p, 17);
    var q := Append(p, Remainder(Ask1(17, 101), 1));
    ListedNeverStalls(q, Bid, 101, bid.orderId, 17);
    OutputTruncatedIff(q, bid);
  }

  /** A bid for all of it by the last ask's participant has 16 trades and a cancellation to report. */
  lemma PileLosesCancellation(p: Queue, ask: Event, bid: Event)
    requires PileShape(p, 16) && AllListed(p)
    requires 16 < ask.orderId && Legal(ask.orderId) && ask == Ask1(ask.orderId, 101)
    requires bid.side == Bid && bid.price == 101 && bid.quantity == 17 && IsSelfTrade(bid.orderId, ask.orderId)
    ensures var q := Append(p, Remainder(ask, 1));
            WellFormed(q) && CancellationLost(q, bid)
  {
    hide Match, Fifo, Best, WellFormed, Orders, Total, Append, CancellationLost, Ladder, CanStall;
    PileAndOne(p, ask.orderId);
    var q := Append(p, Remainder(ask, 1));
    ListedNeverStalls(q, Bid, 101, bid.orderId, 17);
    StallsIff(q, Bid, 101, bid.orderId, 17);
    CancellationLostIff(q, bid);
    var es := Ladder(q, Ask, LimitRank(Bid, 101));
    assert es[16].orderId == ask.orderId && Sum(es[..16]) == 16;
    assert !SelfTradeIn(es[..16], bid.orderId);
  }

  /** Sixteen asks at 100, one more at 101 with the given id. */
  lemma PileAndOneIsReached(id: u64)
    requires 16 < id && Legal(id)
    ensures Run([], MAX_ORDERS, PileEvents(16) + [Ask1(id, 101)]) == Some(Append(Pile(16), Remainder(Ask1(id, 101), 1)))
    ensures PileShape(Pile(16), 16) && AllListed(Pile(16))
  {
    hide Pile, PileEvents, Run, Apply, WellFormed, Append;
    var n := 16;
    EmptyWellFormed();
    PileFacts(n);
    PileIsReached(n);
    OrderRests(Pile(n), Ask1(id, 101));
    RunSnoc([], PileEvents(n), Ask1(id, 101));
    PileListed(n);
  }

  /** Sixteen asks at 100, one at 101, and a bid for all of them: 17 trades, of which 16 are reported. */
  lemma TradesCanGoUnreported()
    ensures var q := Append(Pile(16), Remainder(Ask1(17, 101), 1));
            var bid := Event(0, 1, NewOrder, Bid, 101, 17, 18);
            && Run([], MAX_ORDERS, PileEvents(16) + [Ask1(17, 101)]) == Some(q) && WellFormed(q)
            && MatchEvent(q, bid).stop != Stalled
            && |Trace(bid, MatchEvent(q, bid))| > MAX_EVENTS
  {
    hide Pile, PileEvents, Run, Apply, WellFormed, Match, Append, MatchEvent, Trace, PileShape, AllListed;
    var n := 16;
    PileAndOneIsReached(17);
    PileOverflowsOutput(Pile(n), Event(0, 1, NewOrder, Bid, 101, 17, 18));
  }

  /**
   The same, but the ask at 101 and the bid are both of participant 1. Self-trade prevention
   triggers after 16 trades, and the cancellation of the bid is not reported.
   */
  lemma CancellationCanGoUnreported()
    ensures var ask, q := Ask1(MakeOrderId(1, 17), 101), Append(Pile(16), Remainder(Ask1(MakeOrderId(1, 17), 101), 1));
            var bid := Event(0, 1, NewOrder, Bid, 101, 17, MakeOrderId(1, 18));
            && Run([], MAX_ORDERS, PileEvents(16) + [ask]) == Some(q) && WellFormed(q)
            && CancellationLost(q, bid)
  {
    hide Pile, PileEvents, Run, Apply, WellFormed, CancellationLost, Append, PileShape, AllListed;
    var n := 16;
    var ask, bid := Ask1(MakeOrderId(1, 17), 101), Event(0, 1, NewOrder, Bid, 101, 17, MakeOrderId(1, 18));
    PileAndOneIsReached(ask.orderId);
    PileLosesCancellation(Pile(n), ask, bid);
  }

  lemma {:induction false} PileListed(n: nat)
    requires n <= 16
    ensures AllListed(Pile(n))
  {
    hide AllListed, Append;
    if n > 0 {
      PileListed(n - 1);
      PileFacts(n - 1);
      ListedAppend(Pile(n - 1), Remainder(Ask1(n, 100), 1));
    } else {
      assert AllListed([]) by { NothingUnlisted(); }
    }
  }

  lemma NothingUnlisted()
    ensures AllListed([])
  {
  }

  // ---------------------------------------------------------------- a modification that crosses

  const LOW_BID := Event(0, 1, NewOrder, Bid, 1, 1, 1)
  const HIGH_ASK := Event(1, 1, NewOrder, Ask, 5, 1, 2)
  const MOVE_BID := Event(2, 1, ModifyOrder, Bid, 5, 1, 1)

  /** A bid at 1 and an ask at 5 rest apart. */
  lemma TwoRest(q1: Queue, q2: Queue)
    requires q1 == Append([], Remainder(LOW_BID, 1)) && q2 == Append(q1, Remainder(HIGH_ASK, 1))
    ensures WellFormed([]) && Apply([], MAX_ORDERS, LOW_BID) == Some(q1)
    ensures WellFormed(q1) && Apply(q1, MAX_ORDERS, HIGH_ASK) == Some(q2)
    ensures WellFormed(q2) && !Crossed(q2) && Best(q2, Ask) == 5 && Orders(q2).Keys == {1, 2}
    ensures 1 in Orders(q2) && Orders(q2)[1].side == Bid
  {
    hide Apply, WellFormed, Append, HasRoom;
    var bid, ask := Remainder(LOW_BID, 1), Remainder(HIGH_ASK, 1);
    EmptyWellFormed();
    AppendViews([], bid, Bid, 1);
    AppendViews([], bid, Ask, 5);
    AppendViews(q1, ask, Bid, 1);
    AppendViews(q1, ask, Ask, 5);
    OrderRests([], LOW_BID);
    AppendSize([], bid);
    OrderRests(q1, HIGH_ASK);
  }

  /** The bid moved to 5 rests against the ask at 5. */
  lemma MoveCrosses(q: Queue)
    requires WellFormed(q) && !Crossed(q) && Best(q, Ask) == 5 && 1 in Orders(q) && Orders(q)[1].side == Bid
    ensures Apply(q, MAX_ORDERS, MOVE_BID).Some? && Crossed(Apply(q, MAX_ORDERS, MOVE_BID).value)
  {
    hide Append, Orders, IndexOf, WellFormed, RemoveAt, Crossed, Best;
    IndexOfLive(q, 1);
    ModifyCrossesIff(q, 1, 5, 1);
  }

  lemma RunStep(q: Queue, ev: Event, u: Queue, evs: seq<Event>)
    requires WellFormed(q) && WellFormed(u) && EventOk(ev) && forall x | x in evs :: EventOk(x)
    requires Apply(q, MAX_ORDERS, ev) == Some(u)
    ensures Run(q, MAX_ORDERS, [ev] + evs) == Run(u, MAX_ORDERS, evs)
  {
    hide Apply, WellFormed;
    assert ([ev] + evs)[1..] == evs;
  }

  /** A bid at 1, an ask at 5, and the bid moved to 5: the book is crossed, and nothing traded. */
  lemma ModifyCanCross()
    ensures var r := Run([], MAX_ORDERS, [LOW_BID, HIGH_ASK, MOVE_BID]);
            r.Some? && Crossed(r.value)
  {
    hide Apply, WellFormed, Run, Append, RemoveAt, IndexOf, Crossed;
    var q1 := Append([], Remainder(LOW_BID, 1));
    var q2 := Append(q1, Remainder(HIGH_ASK, 1));
    TwoRest(q1, q2);
    MoveCrosses(q2);
    var q3 := Apply(q2, MAX_ORDERS, MOVE_BID).value;
    NoEvents(q3);
    RunStep(q2, MOVE_BID, q3, []);
    RunStep(q1, HIGH_ASK, q2, [MOVE_BID]);
    RunStep([], LOW_BID, q1, [HIGH_ASK, MOVE_BID]);
    assert [LOW_BID] + [HIGH_ASK, MOVE_BID] == [LOW_BID, HIGH_ASK, MOVE_BID];
    assert [HIGH_ASK] + [MOVE_BID] == [HIGH_ASK, MOVE_BID] && [MOVE_BID] + [] == [MOVE_BID];
  }

  // ---------------------------------------------------------------- a duplicate behind a tombstone

  /** Keys 1 and 5 share their home in a table of four slots, so 5 takes the slot behind 1. */
  lemma Neighbours(t0: seq<Slot<u64>>, t1: seq<Slot<u64>>, t2: seq<Slot<u64>>)
    requires |t0| == 4 && forall j | 0 <= j < 4 :: !Legal(t0[j].key)
    requires exists d: nat :: TakesSlot(t0, 1, 10, d, t1)
    requires exists d: nat :: TakesSlot(t1, 5, 50, d, t2)
    ensures |t2| == 4 && t2[1].key == 1 && t2[2].key == 5
    ensures !Legal(t2[0].key) && !Legal(t2[3].key)
  {
    assert Probe(1, 0, 4) == 1 && Probe(5, 0, 4) == 1 && Probe(5, 1, 4) == 2;
    var d: nat :| TakesSlot(t0, 1, 10, d, t1);
    assert d == 0;
    var e: nat :| TakesSlot(t1, 5, 50, e, t2);
    assert e == 1;
  }

  /** A tombstone in place of 1 is the first free slot on the way to 5, and is ahead of it. */
  lemma HiddenBehind(t2: seq<Slot<u64>>, t3: seq<Slot<u64>>)
    requires |t2| == 4 && t2[1].key == 1 && t2[2].key == 5 && !Legal(t2[0].key) && !Legal(t2[3].key)
    requires exists s: nat :: BuriesSlot(t2, s, t3) && t2[s].key == 1
    ensures |t3| == 4 && TombstoneAhead(t3, 5) && t3[1].key == TOMBSTONE_KEY && t3[2].key == 5
  {
    assert Probe(5, 0, 4) == 1 && Probe(5, 1, 4) == 2;
    assert HeldAt(t3, 5, 1) && HeldByTombstone(t3, 5, 0);
  }

  /** So inserting 5 again takes the tombstone's slot. */
  lemma TakesTombstone(t3: seq<Slot<u64>>, t4: seq<Slot<u64>>)
    requires |t3| == 4 && t3[1].key == TOMBSTONE_KEY && t3[2].key == 5
    requires exists d: nat :: TakesSlot(t3, 5, 51, d, t4)
    ensures |t4| == 4 && t4[1].key == 5 == t4[2].key
  {
    var d: nat :| TakesSlot(t3, 5, 51, d, t4);
    assert Probe(5, 0, 4) == 1;
    assert d == 0;
  }

  lemma NothingLive<V>(t: seq<Slot<V>>)
    requires |t| > 0 && Represents(t, map[])
    ensures forall j | 0 <= j < |t| :: !Legal(t[j].key)
  {
  }

  /**
   In a table of four slots, 1 and 5 have the same home. Once 1 is erased, its tombstone hides 5:
   inserting 5 again succeeds, and the table holds it twice.
   */
  method DuplicateBehindTombstone() returns (t: FlatOrderMap<u64>, again: bool)
    ensures again && t.table.Length == 4 && t.table[1].key == 5 == t.table[2].key && !Reachable(t.table[..])
  {
    hide Reachable, Represents, TakesSlot, BuriesSlot, TombstoneAhead, Probe;
    assert IsPow2(4) by { assert Pow2(2) == 4; }
    t := new FlatOrderMap<u64>(4, 0);
    ghost var t0 := t.table[..];
    NothingLive(t0);
    var first := t.Insert(1, 10);
    ghost var t1 := t.table[..];
    assert |t.Model| == 1;
    var second := t.Insert(5, 50);
    ghost var t2 := t.table[..];
    assert |t.Model| == 2;
    Neighbours(t0, t1, t2);
    var erased := t.Erase(1);
    assert t.Model == map[5 := 50] && |t.Model| == 1;
    ghost var t3 := t.table[..];
    HiddenBehind(t2, t3);
    again := t.Insert(5, 51);
    ghost var t4 := t.table[..];
    TakesTombstone(t3, t4);
    assert t4[1].key == 5 == t4[2].key;
  }

  // ---------------------------------------------------------------- a best price without quantity

  /** A bid at 1, modified to quantity zero at 5: the cached best bid is 5, where no quantity rests. */
  method BestPriceWithoutQuantity() returns (book: OrderBook)
    ensures book.Stored() && book.bestBid == 5 && Total(book.resting, Bid, 5) == 0
    ensures !BestOfTotals(book.resting, Bid, book.bestBid)
  {
    hide OrderBook.Valid, OrderBook.Stored, Inserted, Modified;
    Powers();
    book := new OrderBook(1, MAX_ORDERS);
    var inserted := book.Insert(OrderEntry(1, 1, 1, 0, Bid));
    assert Init(book.resting) == [] && RemoveAt(book.resting, 0) == [];
    assert IndexOf(book.resting, 1) == 0;
    var modified := book.Modify(1, 5, 0);
    assert Init(book.resting) == [];
  }
}
