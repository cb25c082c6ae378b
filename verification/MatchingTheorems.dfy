/** What matching does, proved for every well-formed book and every incoming order. */
module MatchingTheorems {
  import opened Types
  import opened FlatOrderMaps
  import opened RestingOrders
  import opened Matching

  // ---------------------------------------------------------------- one step of Match

  /** Match has an order to fill. */
  ghost predicate CanFill(q: Queue, side: Side, limit: u64, id: u64, rem: u64)
    requires WellFormed(q)
  {
    var opp := side.Opposite();
    && rem > 0 && Best(q, opp) != NoPrice(opp) && Crosses(side, limit, Best(q, opp))
    && Fifo(q, opp, Best(q, opp)) != [] && !IsSelfTrade(id, Front(q, opp).orderId)
  }

  ghost function StepQuantity(q: Queue, side: Side, rem: u64): (n: u64)
    requires WellFormed(q) && rem > 0 && Fifo(q, side.Opposite(), Best(q, side.Opposite())) != []
    ensures 0 < n <= rem
  {
    Min(rem, Front(q, side.Opposite()).quantity)
  }

  ghost function StepBook(q: Queue, side: Side, rem: u64): (u: Queue)
    requires WellFormed(q) && rem > 0 && Fifo(q, side.Opposite(), Best(q, side.Opposite())) != []
    ensures WellFormed(u)
  {
    Traded(q, Front(q, side.Opposite()).orderId, StepQuantity(q, side, rem))
  }

  lemma Unfold(q: Queue, side: Side, limit: u64, id: u64, rem: u64)
    requires WellFormed(q) && CanFill(q, side, limit, id, rem)
    ensures var e, n := Front(q, side.Opposite()), StepQuantity(q, side, rem);
            Match(q, side, limit, id, rem) ==
            Prepend([Fill(e.orderId, e.price, n)], Match(StepBook(q, side, rem), side, limit, id, rem - n))
  {
    hide Fifo, Best, WellFormed, Orders, Traded, IsSelfTrade;
  }

  /** The order can trade at the best opposite price. */
  ghost predicate CanCross(q: Queue, side: Side, limit: u64) {
    Best(q, side.Opposite()) != NoPrice(side.Opposite()) && Crosses(side, limit, Best(q, side.Opposite()))
  }

  /** Match stops at once when it has nothing to fill, and says why. */
  lemma Halt(q: Queue, side: Side, limit: u64, id: u64, rem: u64)
    requires WellFormed(q) && !CanFill(q, side, limit, id, rem)
    ensures var o, opp := Match(q, side, limit, id, rem), side.Opposite();
            && o.book == q && o.fills == [] && o.remaining == rem
            && (o.stop == Exhausted <==> rem == 0)
            && (o.stop == Uncrossed <==> rem > 0 && !CanCross(q, side, limit))
            && (o.stop == Stalled <==> rem > 0 && CanCross(q, side, limit) && Fifo(q, opp, Best(q, opp)) == [])
            && (o.stop == SelfTrade ==> Fifo(q, opp, Best(q, opp)) != [] && IsSelfTrade(id, Front(q, opp).orderId))
  {
  }

  /** One step changes the levels only at the best opposite price, at the head of its list. */
  lemma StepLevels(q: Queue, side: Side, rem: u64, at: Side, price: int)
    requires WellFormed(q) && rem > 0 && Fifo(q, side.Opposite(), Best(q, side.Opposite())) != []
    ensures var u, e, n := StepBook(q, side, rem), Front(q, side.Opposite()), StepQuantity(q, side, rem);
            var here := at == e.side && price == e.price;
            && Total(u, at, price) == Total(q, at, price) - (if here then n else 0)
            && (here ==> Fifo(q, at, price) != [] && Fifo(q, at, price)[0] == e)
            && Fifo(u, at, price) == if here then AfterHead(Fifo(q, at, price), n) else Fifo(q, at, price)
  {
    TradedLevels(q, Front(q, side.Opposite()), StepQuantity(q, side, rem), at, price);
  }

  /** One step leaves the own side's best price alone and never improves the opposite one. */
  lemma StepBest(q: Queue, side: Side, rem: u64)
    requires WellFormed(q) && rem > 0 && Fifo(q, side.Opposite(), Best(q, side.Opposite())) != []
    ensures var u, opp, b := StepBook(q, side, rem), side.Opposite(), Best(q, side.Opposite());
            && Best(u, side) == Best(q, side)
            && !Better(opp, Best(u, opp), b)
            && (Fifo(u, opp, b) != [] ==> Best(u, opp) == b)
  {
    hide Best, Fifo, Total, StepBook, WellFormed;
    var u, opp := StepBook(q, side, rem), side.Opposite();
    forall at, p
      ensures Total(u, at, p) <= Total(q, at, p) && (at == side ==> Total(u, at, p) == Total(q, at, p))
    {
      StepLevels(q, side, rem, at, p);
    }
    BestByTotals(q, side, Best(q, side));
    BestByTotals(u, side, Best(q, side));
    BestByTotals(q, opp, Best(q, opp));
    BestByTotals(u, opp, Best(u, opp));
    BestByTotals(u, opp, Best(q, opp));
    FifoNeedsTotal(u, opp, Best(q, opp));
  }

  // ---------------------------------------------------------------- conservation

  function FillSum(fills: seq<Fill>): nat {
    if fills == [] then 0 else fills[0].quantity + FillSum(fills[1..])
  }

  function FillSumAt(fills: seq<Fill>, price: int): nat {
    if fills == [] then 0
    else (if fills[0].price == price then fills[0].quantity else 0) + FillSumAt(fills[1..], price)
  }

  /**
   The fills and the remainder add up to the order's quantity. Each opposite level loses exactly
   what traded at its price; the own side is untouched.
   */
  lemma {:induction false} MatchConserves(q: Queue, side: Side, limit: u64, id: u64, rem: u64, price: int)
    requires WellFormed(q)
    ensures var o, opp := Match(q, side, limit, id, rem), side.Opposite();
            && FillSum(o.fills) + o.remaining == rem
            && Total(q, opp, price) == Total(o.book, opp, price) + FillSumAt(o.fills, price)
            && Total(o.book, side, price) == Total(q, side, price)
            && Fifo(o.book, side, price) == Fifo(q, side, price)
    decreases rem
  {
    hide Match, StepBook, Fifo, Total, Best, WellFormed;
    if CanFill(q, side, limit, id, rem) {
      Unfold(q, side, limit, id, rem);
      StepLevels(q, side, rem, side, price);
      StepLevels(q, side, rem, side.Opposite(), price);
      var u, n := StepBook(q, side, rem), StepQuantity(q, side, rem);
      MatchConserves(u, side, limit, id, rem - n, price);
      assert Match(q, side, limit, id, rem).fills[1..] == Match(u, side, limit, id, rem - n).fills;
    } else {
      Halt(q, side, limit, id, rem);
    }
  }

  // ---------------------------------------------------------------- the ladder

  /** A ladder that ends above the best price is empty. */
  lemma {:induction false} LadderEmpty(q: Queue, side: Side, k: nat)
    requires WellFormed(q) && k < RankOf(side, Best(q, side))
    ensures Ladder(q, side, k) == []
  {
    if k > 0 {
      NothingBetter(q, side, PriceAt(side, k));
      LadderEmpty(q, side, k - 1);
    }
  }

  /** A ladder that reaches the best price starts with that level's list. */
  lemma {:induction false} LadderHead(q: Queue, side: Side, k: nat)
    requires WellFormed(q) && 1 <= RankOf(side, Best(q, side)) <= k
    ensures Fifo(q, side, Best(q, side)) <= Ladder(q, side, k)
  {
    hide Fifo, Best, WellFormed;
    if k > RankOf(side, Best(q, side)) {
      LadderHead(q, side, k - 1);
    } else {
      LadderEmpty(q, side, k - 1);
    }
  }

  /** A ladder that reaches the best price starts with the front order. */
  lemma LadderFront(q: Queue, side: Side, k: nat)
    requires WellFormed(q) && Fifo(q, side, Best(q, side)) != [] && 1 <= RankOf(side, Best(q, side)) <= k
    ensures Ladder(q, side, k) != [] && Ladder(q, side, k)[0] == Front(q, side)
  {
    hide Fifo, WellFormed, Best, Ladder;
    LadderHead(q, side, k);
  }

  /** One step of Match takes its fill from the head of every ladder that reaches it. */
  lemma {:induction false} LadderStep(q: Queue, side: Side, rem: u64, k: nat)
    requires WellFormed(q) && rem > 0 && Fifo(q, side.Opposite(), Best(q, side.Opposite())) != []
    requires 1 <= RankOf(side.Opposite(), Best(q, side.Opposite())) <= k
    ensures var opp := side.Opposite();
            && Ladder(q, opp, k) != [] && Ladder(q, opp, k)[0] == Front(q, opp)
            && Ladder(StepBook(q, side, rem), opp, k) == AfterHead(Ladder(q, opp, k), StepQuantity(q, side, rem))
    decreases k
  {
    hide Fifo, StepBook, WellFormed, Best, AfterHead, Front, Ladder;
    var opp, u, n := side.Opposite(), StepBook(q, side, rem), StepQuantity(q, side, rem);
    LadderFront(q, opp, k);
    StepLevels(q, side, rem, opp, PriceAt(opp, k));
    LadderRung(q, opp, k);
    LadderRung(u, opp, k);
    if k > RankOf(opp, Best(q, opp)) {
      LadderStep(q, side, rem, k - 1);
      AfterHeadConcat(Ladder(q, opp, k - 1), Fifo(q, opp, PriceAt(opp, k)), n);
    } else {
      LadderEmpty(q, opp, k - 1);
      StepBest(q, side, rem);
      LadderEmpty(u, opp, k - 1);
      assert [] + Fifo(q, opp, PriceAt(opp, k)) == Fifo(q, opp, PriceAt(opp, k));
      assert [] + Fifo(u, opp, PriceAt(opp, k)) == Fifo(u, opp, PriceAt(opp, k));
    }
  }

  lemma LadderRung(q: Queue, side: Side, k: nat)
    requires k > 0
    ensures Ladder(q, side, k) == Ladder(q, side, k - 1) + Fifo(q, side, PriceAt(side, k))
  {
  }

  lemma AfterHeadConcat(a: seq<OrderEntry>, b: seq<OrderEntry>, n: nat)
    requires a != [] && n <= a[0].quantity
    ensures AfterHead(a + b, n) == AfterHead(a, n) + b
  {
    assert (a + b)[1..] == a[1..] + b;
  }

  lemma RankCrosses(q: Queue, side: Side, limit: u64)
    requires WellFormed(q)
    ensures 1 <= RankOf(side.Opposite(), Best(q, side.Opposite())) <= MAX_PRICE + 1
    ensures CanCross(q, side, limit) <==>
            RankOf(side.Opposite(), Best(q, side.Opposite())) <= LimitRank(side, limit)
  {
    var opp := side.Opposite();
    BestByTotals(q, opp, Best(q, opp));
    var k := RankOf(opp, Best(q, opp));
    assert PriceAt(opp, k) == Best(q, opp);
  }

  /**
   Main refinement: unless it stalls, matching is a walk down the opposite side in price-time
   order, from the best price to the limit.
   */
  lemma {:induction false} MatchIsWalk(q: Queue, side: Side, limit: u64, id: u64, rem: u64)
    requires WellFormed(q) && Match(q, side, limit, id, rem).stop != Stalled
    ensures var o := Match(q, side, limit, id, rem);
            (o.fills, o.remaining, o.stop) == Walk(Ladder(q, side.Opposite(), LimitRank(side, limit)), id, rem)
    decreases rem
  {
    hide Match, StepBook, Fifo, Best, WellFormed, Ladder, LimitRank;
    var opp, k := side.Opposite(), LimitRank(side, limit);
    RankCrosses(q, side, limit);
    if CanFill(q, side, limit, id, rem) {
      var u, n := StepBook(q, side, rem), StepQuantity(q, side, rem);
      Unfold(q, side, limit, id, rem);
      LadderStep(q, side, rem, k);
      MatchIsWalk(u, side, limit, id, rem - n);
    } else {
      Halt(q, side, limit, id, rem);
      if rem > 0 {
        if CanCross(q, side, limit) {
          LadderHead(q, opp, k);
        } else {
          LadderEmpty(q, opp, k);
        }
      }
    }
  }

  // ---------------------------------------------------------------- when matching stalls

  /**
   Matching stalls at some crossing level exactly when that level has unlisted orders, and the
   order is larger than everything listed up to there and meets no order of its own participant.
   */
  ghost predicate StallsAt(q: Queue, side: Side, id: u64, rem: u64, k: nat) {
    var opp := side.Opposite();
    && Unlisted(q, opp, PriceAt(opp, k))
    && rem > Sum(Ladder(q, opp, k))
    && !SelfTradeIn(Ladder(q, opp, k), id)
  }

  /** Some crossing level would stall the order. */
  ghost predicate CanStall(q: Queue, side: Side, limit: u64, id: u64, rem: u64) {
    exists k: nat :: 1 <= k <= LimitRank(side, limit) && StallsAt(q, side, id, rem, k)
  }

  lemma {:induction false} StallsIff(q: Queue, side: Side, limit: u64, id: u64, rem: u64)
    requires WellFormed(q)
    ensures Match(q, side, limit, id, rem).stop == Stalled <==> CanStall(q, side, limit, id, rem)
    decreases rem
  {
    hide Match, StepBook, Fifo, Best, WellFormed, Ladder, LimitRank, StallsAt, Total;
    var opp, top := side.Opposite(), LimitRank(side, limit);
    RankCrosses(q, side, limit);
    if CanFill(q, side, limit, id, rem) {
      var u, left := StepBook(q, side, rem), rem - StepQuantity(q, side, rem);
      Unfold(q, side, limit, id, rem);
      StallsIff(u, side, limit, id, left);
      forall k: nat | 1 <= k <= top
        ensures StallsAt(q, side, id, rem, k) <==> StallsAt(u, side, id, left, k)
      {
        StallStep(q, side, id, rem, k);
      }
    } else {
      Halt(q, side, limit, id, rem);
      var b := RankOf(opp, Best(q, opp));
      forall k: nat | 1 <= k <= top
        ensures StallsAt(q, side, id, rem, k) ==> Match(q, side, limit, id, rem).stop == Stalled
      {
        NoStallAbove(q, side, id, rem, k);
        if k >= b {
          LadderHead(q, opp, k);
          SelfTradeAtHead(q, side, id, rem, k);
        }
      }
      if Match(q, side, limit, id, rem).stop == Stalled {
        StallHere(q, side, id, rem);
        assert StallsAt(q, side, id, rem, b);
      }
    }
  }

  /** No order is unlisted at a price better than the best. */
  lemma NoStallAbove(q: Queue, side: Side, id: u64, rem: u64, k: nat)
    requires WellFormed(q) && 1 <= k
    ensures StallsAt(q, side, id, rem, k) ==> k >= RankOf(side.Opposite(), Best(q, side.Opposite())) && rem > 0
  {
    var opp := side.Opposite();
    if k < RankOf(opp, Best(q, opp)) {
      NothingBetter(q, opp, PriceAt(opp, k));
    }
  }

  /** An own order at the head of the best level prevents any stall. */
  lemma SelfTradeAtHead(q: Queue, side: Side, id: u64, rem: u64, k: nat)
    requires WellFormed(q) && Fifo(q, side.Opposite(), Best(q, side.Opposite())) <= Ladder(q, side.Opposite(), k)
    ensures StallsAt(q, side, id, rem, k) && Fifo(q, side.Opposite(), Best(q, side.Opposite())) != [] ==>
            !IsSelfTrade(id, Front(q, side.Opposite()).orderId)
  {
    hide Fifo, Ladder, WellFormed, Best, Total;
    var opp := side.Opposite();
    if Fifo(q, opp, Best(q, opp)) != [] {
      assert Ladder(q, opp, k)[0] == Front(q, opp);
    }
  }

  /** An empty list at the best level stalls any order that trades there. */
  lemma StallHere(q: Queue, side: Side, id: u64, rem: u64)
    requires WellFormed(q) && rem > 0 && Best(q, side.Opposite()) != NoPrice(side.Opposite())
    requires Fifo(q, side.Opposite(), Best(q, side.Opposite())) == []
    ensures RankOf(side.Opposite(), Best(q, side.Opposite())) >= 1
    ensures StallsAt(q, side, id, rem, RankOf(side.Opposite(), Best(q, side.Opposite())))
  {
    hide Fifo, WellFormed, Best, Total;
    var opp := side.Opposite();
    var b := RankOf(opp, Best(q, opp));
    BestByTotals(q, opp, Best(q, opp));
    LadderEmpty(q, opp, b - 1);
    assert Ladder(q, opp, b) == [];
    assert PriceAt(opp, b) == Best(q, opp);
  }

  /** Filling one order does not change where the rest would stall. */
  lemma StallStep(q: Queue, side: Side, id: u64, rem: u64, k: nat)
    requires WellFormed(q) && 1 <= k && rem > 0
    requires Fifo(q, side.Opposite(), Best(q, side.Opposite())) != []
    requires Best(q, side.Opposite()) != NoPrice(side.Opposite())
    requires !IsSelfTrade(id, Front(q, side.Opposite()).orderId)
    ensures StallsAt(q, side, id, rem, k) <==>
            StallsAt(StepBook(q, side, rem), side, id, rem - StepQuantity(q, side, rem), k)
  {
    hide Fifo, Ladder, WellFormed, Best, Total, StepBook;
    var opp, u, n := side.Opposite(), StepBook(q, side, rem), StepQuantity(q, side, rem);
    var b := RankOf(opp, Best(q, opp));
    BestByTotals(q, opp, Best(q, opp));
    NoStallAbove(q, side, id, rem, k);
    NoStallAbove(u, side, id, rem - n, k);
    StepBest(q, side, rem);
    if k >= b {
      LadderStep(q, side, rem, k);
      HeadSum(Ladder(q, opp, k), n, id);
      StepLevels(q, side, rem, opp, PriceAt(opp, k));
      if k == b {
        HeadSum(Fifo(q, opp, PriceAt(opp, k)), n, id);
      }
    }
  }

  /** Taking n from the head of a list takes n from its sum. */
  lemma HeadSum(es: seq<OrderEntry>, n: nat, id: u64)
    requires es != [] && n <= es[0].quantity && !IsSelfTrade(id, es[0].orderId)
    ensures Sum(AfterHead(es, n)) == Sum(es) - n
    ensures SelfTradeIn(AfterHead(es, n), id) <==> SelfTradeIn(es, id)
  {
    var t := AfterHead(es, n);
    if n == es[0].quantity {
      forall i | 0 <= i < |es| && IsSelfTrade(id, es[i].orderId)
        ensures SelfTradeIn(t, id)
      {
        assert t[i - 1] == es[i];
      }
    } else {
      assert t[1..] == es[1..];
      forall i | 0 <= i < |es| && IsSelfTrade(id, es[i].orderId)
        ensures SelfTradeIn(t, id)
      {
        assert t[i] == es[i];
      }
    }
  }

  /** A match that stalls is a walk that fills every listed order down to a level where it stalls. */
  lemma {:induction false} StalledIsWalk(q: Queue, side: Side, limit: u64, id: u64, rem: u64) returns (k: nat)
    requires WellFormed(q) && Match(q, side, limit, id, rem).stop == Stalled
    ensures 1 <= k <= LimitRank(side, limit) && StallsAt(q, side, id, rem, k)
    ensures var o := Match(q, side, limit, id, rem);
            (o.fills, o.remaining, Uncrossed) == Walk(Ladder(q, side.Opposite(), k), id, rem)
    decreases rem
  {
    hide Match, StepBook, Fifo, Best, WellFormed, Ladder, LimitRank, StallsAt, Total;
    var opp := side.Opposite();
    RankCrosses(q, side, limit);
    if CanFill(q, side, limit, id, rem) {
      var u, n := StepBook(q, side, rem), StepQuantity(q, side, rem);
      Unfold(q, side, limit, id, rem);
      k := StalledIsWalk(u, side, limit, id, rem - n);
      StallStep(q, side, id, rem, k);
      NoStallAbove(q, side, id, rem, k);
      NoStallAbove(u, side, id, rem - n, k);
      LadderStep(q, side, rem, k);
    } else {
      Halt(q, side, limit, id, rem);
      StallHere(q, side, id, rem);
      k := RankOf(opp, Best(q, opp));
      StallHereEmpty(q, side, id, rem);
    }
  }

  lemma StallHereEmpty(q: Queue, side: Side, id: u64, rem: u64)
    requires WellFormed(q) && Fifo(q, side.Opposite(), Best(q, side.Opposite())) == []
    requires RankOf(side.Opposite(), Best(q, side.Opposite())) >= 1
    ensures Ladder(q, side.Opposite(), RankOf(side.Opposite(), Best(q, side.Opposite()))) == []
  {
    var opp := side.Opposite();
    LadderEmpty(q, opp, RankOf(opp, Best(q, opp)) - 1);
    assert PriceAt(opp, RankOf(opp, Best(q, opp))) == Best(q, opp);
  }

  /** A book that lists all its orders never stalls. */
  lemma ListedNeverStalls(q: Queue, side: Side, limit: u64, id: u64, rem: u64)
    requires WellFormed(q) && AllListed(q)
    ensures Match(q, side, limit, id, rem).stop != Stalled
  {
    StallsIff(q, side, limit, id, rem);
    forall k: nat
      ensures !StallsAt(q, side, id, rem, k)
    {
      ListedTotal(q, side.Opposite(), PriceAt(side.Opposite(), k));
    }
  }

  // ---------------------------------------------------------------- closed form of the fills

  /** The walk reaches the i-th order of the list with quantity to spare, and may trade with it. */
  ghost predicate Reached(es: seq<OrderEntry>, id: u64, rem: u64, i: nat)
    requires i < |es|
  {
    rem > Sum(es[..i]) && !SelfTradeIn(es[..i + 1], id)
  }

  lemma ReachedTail(es: seq<OrderEntry>, id: u64, rem: u64, i: nat)
    requires 0 < i < |es| && es[0].quantity < rem && !IsSelfTrade(id, es[0].orderId)
    ensures Sum(es[..i]) == es[0].quantity + Sum(es[1..][..i - 1])
    ensures Reached(es, id, rem, i) <==> Reached(es[1..], id, rem - es[0].quantity, i - 1)
  {
    assert es[..i][1..] == es[1..][..i - 1];
    var a, b := es[..i + 1], es[1..][..i];
    assert forall j | 0 <= j < i :: b[j] == a[j + 1];
    assert SelfTradeIn(b, id) ==> SelfTradeIn(a, id) by {
      if j: nat :| j < |b| && IsSelfTrade(id, b[j].orderId) {
        assert IsSelfTrade(id, a[j + 1].orderId);
      }
    }
    assert SelfTradeIn(a, id) ==> SelfTradeIn(b, id) by {
      if j: nat :| j < |a| && IsSelfTrade(id, a[j].orderId) {
        assert IsSelfTrade(id, b[j - 1].orderId);
      }
    }
  }

  /** A walk fills exactly the orders that it reaches. */
  lemma {:induction false} WalkReached(es: seq<OrderEntry>, id: u64, rem: u64)
    requires forall e | e in es :: e.quantity > 0
    ensures var fills := Walk(es, id, rem).0;
            && |fills| <= |es|
            && forall i | 0 <= i < |es| :: i < |fills| <==> Reached(es, id, rem, i)
  {
    hide Reached;
    if rem > 0 && es != [] {
      ReachedHead(es, id, rem);
    }
    if rem == 0 || es == [] || IsSelfTrade(id, es[0].orderId) {
      forall i | 0 <= i < |es|
        ensures !Reached(es, id, rem, i)
      {
        NeverReached(es, id, rem, i);
      }
    } else {
      var n := Min(rem, es[0].quantity);
      WalkReached(es[1..], id, rem - n);
      forall i | 0 < i < |es|
        ensures i < |Walk(es, id, rem).0| <==> Reached(es, id, rem, i)
      {
        if n < rem {
          ReachedTail(es, id, rem, i);
        } else {
          NeverReached(es, id, rem, i);
        }
      }
    }
  }

  lemma ReachedHead(es: seq<OrderEntry>, id: u64, rem: u64)
    requires rem > 0 && es != []
    ensures Reached(es, id, rem, 0) <==> !IsSelfTrade(id, es[0].orderId)
  {
    assert es[..1][0] == es[0];
  }

  lemma NeverReached(es: seq<OrderEntry>, id: u64, rem: u64, i: nat)
    requires i < |es|
    requires rem == 0 || IsSelfTrade(id, es[0].orderId) || (i > 0 && rem <= es[0].quantity)
    ensures !Reached(es, id, rem, i)
  {
    assert es[..i + 1][0] == es[0];
    if i > 0 {
      assert es[..i][0] == es[0];
    }
  }

  /** Each fill is the smaller of the order's quantity and what the orders ahead of it left. */
  lemma {:induction false} WalkFills(es: seq<OrderEntry>, id: u64, rem: u64, i: nat)
    requires i < |Walk(es, id, rem).0|
    ensures i < |es| && rem > Sum(es[..i])
    ensures Walk(es, id, rem).0[i] == Fill(es[i].orderId, es[i].price, Min(es[i].quantity, rem - Sum(es[..i])))
  {
    var n := Min(rem, es[0].quantity);
    if i > 0 {
      WalkFills(es[1..], id, rem - n, i - 1);
      assert es[..i][1..] == es[1..][..i - 1];
    }
  }

  /** What is left, and why the walk stopped. */
  lemma {:induction false} WalkTotals(es: seq<OrderEntry>, id: u64, rem: u64)
    requires forall e | e in es :: e.quantity > 0
    ensures var (fills, left, stop) := Walk(es, id, rem);
            && |fills| <= |es| && FillSum(fills) + left == rem
            && (stop == Exhausted <==> left == 0)
            && (stop == Uncrossed <==> |fills| == |es| && rem > Sum(es))
            && (stop == SelfTrade <==> |fills| < |es| && rem > Sum(es[..|fills|]))
  {
    if rem > 0 && es != [] && !IsSelfTrade(id, es[0].orderId) {
      var n := Min(rem, es[0].quantity);
      var fills, rest := Walk(es, id, rem).0, Walk(es[1..], id, rem - n).0;
      WalkTotals(es[1..], id, rem - n);
      assert fills[1..] == rest;
      assert es[..|fills|][1..] == es[1..][..|rest|];
      assert es[..|fills|][0] == es[0];
    }
  }

  // ---------------------------------------------------------------- closed form of the book

  /** What an order gave up. */
  function Given(fills: seq<Fill>, id: u64): nat {
    if fills == [] then 0
    else (if fills[0].restingId == id then fills[0].quantity else 0) + Given(fills[1..], id)
  }

  /** The book after the fills: filled orders are gone, the rest keep their places and flags. */
  function Residue(q: Queue, fills: seq<Fill>): Queue {
    if q == [] then []
    else Residue(Init(q), fills) + Leftover(Last(q), fills)
  }

  function Leftover(r: Resting, fills: seq<Fill>): Queue {
    var given := Given(fills, r.entry.orderId);
    if given >= r.entry.quantity then []
    else [r.(entry := r.entry.(quantity := r.entry.quantity - given))]
  }

  lemma {:induction false} ResidueConcat(a: Queue, b: Queue, fills: seq<Fill>)
    ensures Residue(a + b, fills) == Residue(a, fills) + Residue(b, fills)
  {
    if b == [] {
      assert a + b == a;
    } else {
      ConcatLast(a, b);
      ResidueConcat(a, Init(b), fills);
    }
  }

  lemma {:induction false} ResidueOfNothing(q: Queue)
    requires WellFormed(q)
    ensures Residue(q, []) == q
  {
    hide WellFormed, Leftover;
    if q != [] {
      InitWellFormed(q);
      ResidueOfNothing(Init(q));
      LastHasQuantity(q);
      LeftoverOfNothing(Last(q));
    }
  }

  lemma LastHasQuantity(q: Queue)
    requires WellFormed(q) && q != []
    ensures Last(q).entry.quantity > 0
  {
    assert EntryOk(q[|q| - 1].entry);
  }

  lemma LeftoverOfNothing(r: Resting)
    requires r.entry.quantity > 0
    ensures Leftover(r, []) == [r]
  {
  }

  /** A fill of an order that is not in the queue leaves no trace in its residue. */
  lemma {:induction false} ResidueIgnores(q: Queue, f: Fill, fills: seq<Fill>)
    requires f.restingId !in Orders(q)
    ensures Residue(q, [f] + fills) == Residue(q, fills)
  {
    assert ([f] + fills)[1..] == fills;
    if q != [] {
      ResidueIgnores(Init(q), f, fills);
    }
  }

  /** Trading and then taking the residue is taking the residue of all the fills. */
  lemma ResidueStep(q: Queue, f: Fill, fills: seq<Fill>)
    requires WellFormed(q) && f.restingId in Orders(q)
    requires 0 < f.quantity <= Orders(q)[f.restingId].quantity
    ensures Residue(Traded(q, f.restingId, f.quantity), fills) == Residue(q, [f] + fills)
  {
    hide Fifo, Orders, Residue, WellFormed, IndexOf, Leftover, Given;
    var i := IndexOf(q, f.restingId);
    IndexOfLive(q, f.restingId);
    var a, r, b, all := q[..i], q[i], q[i + 1..], [f] + fills;
    assert q == a + [r] + b;
    IdOnlyOnce(q, i);
    ResidueIgnores(a, f, fills);
    ResidueIgnores(b, f, fills);
    ResidueConcat(a + [r], b, all);
    ResidueConcat(a, [r], all);
    var u := Traded(q, f.restingId, f.quantity);
    ResidueSingle(r, all);
    LeftoverStep(r, f, fills);
    if f.quantity == r.entry.quantity {
      ResidueConcat(a, b, fills);
    } else {
      assert u == a + [u[i]] + b;
      ResidueConcat(a + [u[i]], b, fills);
      ResidueConcat(a, [u[i]], fills);
      ResidueSingle(u[i], fills);
    }
  }

  lemma LeftoverStep(r: Resting, f: Fill, fills: seq<Fill>)
    requires f.restingId == r.entry.orderId && 0 < f.quantity <= r.entry.quantity
    ensures Leftover(r, [f] + fills) ==
            if f.quantity == r.entry.quantity then []
            else Leftover(r.(entry := r.entry.(quantity := r.entry.quantity - f.quantity)), fills)
  {
    assert ([f] + fills)[1..] == fills;
  }

  lemma ResidueSingle(r: Resting, fills: seq<Fill>)
    ensures Residue([r], fills) == Leftover(r, fills)
  {
    assert Init([r]) == [];
  }

  /** The final book is the initial one with every order reduced by exactly what it gave up. */
  lemma {:induction false} MatchResidue(q: Queue, side: Side, limit: u64, id: u64, rem: u64)
    requires WellFormed(q)
    ensures var o := Match(q, side, limit, id, rem); o.book == Residue(q, o.fills)
    decreases rem
  {
    hide Match, Fifo, Best, WellFormed, Residue, Traded;
    if CanFill(q, side, limit, id, rem) {
      var e, n := Front(q, side.Opposite()), StepQuantity(q, side, rem);
      Unfold(q, side, limit, id, rem);
      MatchResidue(StepBook(q, side, rem), side, limit, id, rem - n);
      ResidueStep(q, Fill(e.orderId, e.price, n), Match(StepBook(q, side, rem), side, limit, id, rem - n).fills);
    } else {
      Halt(q, side, limit, id, rem);
      ResidueOfNothing(q);
    }
  }

  // ---------------------------------------------------------------- consequences

  lemma {:induction false} LadderPositive(q: Queue, side: Side, k: nat)
    requires WellFormed(q)
    ensures forall e | e in Ladder(q, side, k) :: e.quantity > 0 && e.side == side
  {
    if k > 0 {
      LadderPositive(q, side, k - 1);
      FifoExact(q, side, PriceAt(side, k));
      forall e | e in Fifo(q, side, PriceAt(side, k))
        ensures e.quantity > 0
      {
        EntriesOk(q, e.orderId);
      }
    }
  }

  /**
   Price-time priority: unless matching stalls, the i-th fill goes to the i-th order of the
   opposite side in price-time order, at that order's price, for the smaller of its quantity and
   what is left after all orders ahead of it; and an order is filled exactly when the orders ahead
   of it leave something and none of them, nor itself, is the aggressor's own.
   */
  lemma PriceTimePriority(q: Queue, side: Side, limit: u64, id: u64, rem: u64)
    requires WellFormed(q) && Match(q, side, limit, id, rem).stop != Stalled
    ensures var o, es := Match(q, side, limit, id, rem), Ladder(q, side.Opposite(), LimitRank(side, limit));
            && |o.fills| <= |es|
            && (forall i | 0 <= i < |es| :: i < |o.fills| <==> Reached(es, id, rem, i))
            && (forall i | 0 <= i < |o.fills| ::
                  rem > Sum(es[..i]) &&
                  o.fills[i] == Fill(es[i].orderId, es[i].price, Min(es[i].quantity, rem - Sum(es[..i]))))
            && (o.stop == SelfTrade <==> |o.fills| < |es| && rem > Sum(es[..|o.fills|]))
            && (o.stop == Uncrossed <==> |o.fills| == |es| && rem > Sum(es))
            && (o.stop == Exhausted <==> o.remaining == 0)
  {
    hide Match, Walk, Ladder, LimitRank, Reached, WellFormed;
    var es := Ladder(q, side.Opposite(), LimitRank(side, limit));
    MatchIsWalk(q, side, limit, id, rem);
    LadderPositive(q, side.Opposite(), LimitRank(side, limit));
    WalkReached(es, id, rem);
    WalkTotals(es, id, rem);
    forall i | 0 <= i < |Match(q, side, limit, id, rem).fills|
      ensures rem > Sum(es[..i]) && Match(q, side, limit, id, rem).fills[i] ==
              Fill(es[i].orderId, es[i].price, Min(es[i].quantity, rem - Sum(es[..i])))
    {
      WalkFills(es, id, rem, i);
    }
  }

  /** What the ids of two orders that do not self-trade look like. */
  lemma OtherParticipant(aggressor: u64, resting: u64)
    ensures !IsSelfTrade(aggressor, resting) ==>
              aggressor / 0x1_0000_0000_0000 == 0 ||
              aggressor / 0x1_0000_0000_0000 != resting / 0x1_0000_0000_0000
  {
    IdParts(aggressor);
    IdParts(resting);
    SelfTradeByParticipant(aggressor / 0x1_0000_0000_0000, aggressor % 0x1_0000_0000_0000,
                           resting / 0x1_0000_0000_0000, resting % 0x1_0000_0000_0000);
  }

  /** No fill pairs two orders of the same non-zero participant, stalled or not. */
  lemma {:induction false} NoSelfTrade(q: Queue, side: Side, limit: u64, id: u64, rem: u64)
    requires WellFormed(q)
    ensures forall f | f in Match(q, side, limit, id, rem).fills ::
              id / 0x1_0000_0000_0000 == 0 || id / 0x1_0000_0000_0000 != f.restingId / 0x1_0000_0000_0000
    decreases rem
  {
    hide Match, StepBook, Fifo, Best, WellFormed, IsSelfTrade;
    if CanFill(q, side, limit, id, rem) {
      Unfold(q, side, limit, id, rem);
      OtherParticipant(id, Front(q, side.Opposite()).orderId);
      NoSelfTrade(StepBook(q, side, rem), side, limit, id, rem - StepQuantity(q, side, rem));
    } else {
      Halt(q, side, limit, id, rem);
    }
  }

  /**
   Matching leaves the own side's best price alone and never improves the opposite one. When it
   stops with the book uncrossed, the order no longer trades at the opposite best price.
   */
  lemma {:induction false} MatchBest(q: Queue, side: Side, limit: u64, id: u64, rem: u64)
    requires WellFormed(q)
    ensures var o, opp := Match(q, side, limit, id, rem), side.Opposite();
            && Best(o.book, side) == Best(q, side)
            && !Better(opp, Best(o.book, opp), Best(q, opp))
            && (o.stop == Uncrossed ==> !CanCross(o.book, side, limit))
            && (o.stop == Exhausted <==> o.remaining == 0)
    decreases rem
  {
    hide Match, StepBook, Fifo, Best, WellFormed;
    if CanFill(q, side, limit, id, rem) {
      Unfold(q, side, limit, id, rem);
      StepBest(q, side, rem);
      MatchBest(StepBook(q, side, rem), side, limit, id, rem - StepQuantity(q, side, rem));
    } else {
      Halt(q, side, limit, id, rem);
    }
  }

  // ---------------------------------------------------------------- one turn of the engine's inner loop

  /** The front order is the one whose id heads the best level's list. */
  lemma FrontById(q: Queue, side: Side, limit: u64, id: u64, left: u64)
    requires WellFormed(q) && left > 0 && CanCross(q, side, limit)
    requires FifoIds(q, side.Opposite(), Best(q, side.Opposite())) != []
    ensures var opp := side.Opposite(); var rid := FifoIds(q, opp, Best(q, opp))[0];
            && rid in Orders(q) && Front(q, opp) == Orders(q)[rid] && Front(q, opp).orderId == rid
            && CanFill(q, side, limit, id, left) == !IsSelfTrade(id, rid)
            && (IsSelfTrade(id, rid) ==> Match(q, side, limit, id, left) == Outcome(q, [], left, SelfTrade))
  {
    var opp := side.Opposite();
    assert FifoIds(q, opp, Best(q, opp))[0] == Front(q, opp).orderId;
  }

  /** Reducing the front order by its fill is one step of Match. */
  lemma ReduceIsStep(q: Queue, side: Side, limit: u64, id: u64, left: u64)
    requires WellFormed(q) && CanFill(q, side, limit, id, left)
    ensures var opp := side.Opposite();
            var e, n, b := Front(q, opp), StepQuantity(q, side, left), Best(q, opp);
            && ReduceSpec(q, e.orderId, n).1 == StepBook(q, side, left)
            && FifoIds(StepBook(q, side, left), opp, b) ==
               (if n == e.quantity then FifoIds(q, opp, b)[1..] else FifoIds(q, opp, b))
  {
    hide Fifo, Orders, Best, WellFormed;
    var opp := side.Opposite();
    StepLevels(q, side, left, opp, Best(q, opp));
  }

  /**
   One turn: fill the order at the head of the best level's list. What remains to be matched is
   the rest, and if quantity is left the head has gone from the list.
   */
  lemma Turn(q: Queue, side: Side, limit: u64, id: u64, left: u64, rid: u64, n: u64)
    requires WellFormed(q) && left > 0 && CanCross(q, side, limit)
    requires FifoIds(q, side.Opposite(), Best(q, side.Opposite())) != []
    requires rid == FifoIds(q, side.Opposite(), Best(q, side.Opposite()))[0] && !IsSelfTrade(id, rid)
    requires rid in Orders(q) && n == Min(left, Orders(q)[rid].quantity)
    ensures var opp, u := side.Opposite(), ReduceSpec(q, rid, n).1;
            var b := Best(q, opp);
            && 0 < n <= left && WellFormed(u)
            && Match(q, side, limit, id, left) == Prepend([Fill(rid, b, n)], Match(u, side, limit, id, left - n))
            && (left > n ==> FifoIds(u, opp, b) == FifoIds(q, opp, b)[1..])
            && (left > n && FifoIds(u, opp, b) != [] ==> Best(u, opp) == b)
  {
    hide Match, Fifo, Orders, Best, WellFormed, ReduceSpec;
    FrontById(q, side, limit, id, left);
    Unfold(q, side, limit, id, left);
    ReduceIsStep(q, side, limit, id, left);
    StepBest(q, side, left);
  }
}
