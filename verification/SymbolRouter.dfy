/** The symbol router: one pipeline (strategy, matching engine, book) per symbol. */
module SymbolRouters {
  import opened Types
  import opened Bits
  import opened RestingOrders
  import opened OrderBooks
  import opened Matching
  import opened MatchingTheorems
  import opened MatchingEngines
  import opened Allocation
  import opened Runs

  const MAX_SYMBOLS: nat := 256

  datatype StrategySignal = Signal | Noop

  /** A strategy is deterministic: its answer depends on the event alone. */
  type Strategy = Event -> StrategySignal

  // ---------------------------------------------------------------- specification

  datatype PipeState = PipeState(book: Queue, maxOrders: nat, signals: nat, noops: nat)

  /** What the caller gets back from one event. */
  datatype Report = Report(result: MatchResult, trace: seq<Event>)

  const NOTHING: Report := Report(MatchResult.Ok, [])

  /** One event through one pipeline; None when the engine never returns from it. */
  function PipeStep(strategy: Strategy, s: PipeState, ev: Event): (r: Option<(PipeState, Report)>)
    requires WellFormed(s.book) && EventOk(ev)
    ensures r.Some? ==> WellFormed(r.value.0.book)
  {
    if strategy(ev) == Noop then Some((s.(noops := s.noops + 1), NOTHING))
    else
      match Apply(s.book, s.maxOrders, ev)
      case None => None
      case Some(u) =>
        var report := if ev.kind == NewOrder
                      then Report(NewOrderSpec(s.book, s.maxOrders, ev).1, Trace(ev, MatchEvent(s.book, ev)))
                      else NOTHING;
        Some((s.(book := u, signals := s.signals + 1), report))
  }

  function PipeRun(strategy: Strategy, s: PipeState, evs: seq<Event>): Option<(PipeState, seq<Report>)>
    requires WellFormed(s.book) && forall ev | ev in evs :: EventOk(ev)
    decreases |evs|
  {
    if evs == [] then Some((s, []))
    else
      match PipeStep(strategy, s, evs[0])
      case None => None
      case Some((s', report)) =>
        match PipeRun(strategy, s', evs[1..])
        case None => None
        case Some((s'', reports)) => Some((s'', [report] + reports))
  }

  /** The registered symbols and their pipelines. */
  type RouterState = map<nat, PipeState>

  ghost predicate StateOk(strategies: map<nat, Strategy>, st: RouterState) {
    st.Keys == strategies.Keys && forall sid | sid in st :: sid < MAX_SYMBOLS && WellFormed(st[sid].book)
  }

  ghost function RouterStep(strategies: map<nat, Strategy>, st: RouterState, ev: Event)
      : (r: Option<(RouterState, Report)>)
    requires StateOk(strategies, st) && EventOk(ev)
    ensures r.Some? ==> StateOk(strategies, r.value.0)
  {
    if ev.symbolId !in st then Some((st, NOTHING))
    else
      match PipeStep(strategies[ev.symbolId], st[ev.symbolId], ev)
      case None => None
      case Some((s, report)) => Some((st[ev.symbolId := s], report))
  }

  ghost function RouterRun(strategies: map<nat, Strategy>, st: RouterState, evs: seq<Event>)
      : Option<(RouterState, seq<Report>)>
    requires StateOk(strategies, st) && forall ev | ev in evs :: EventOk(ev)
    decreases |evs|
  {
    if evs == [] then Some((st, []))
    else
      match RouterStep(strategies, st, evs[0])
      case None => None
      case Some((st', report)) =>
        match RouterRun(strategies, st', evs[1..])
        case None => None
        case Some((st'', reports)) => Some((st'', [report] + reports))
  }

  // ---------------------------------------------------------------- what one event does

  /** The strategy forwards the event, and it is of this kind. */
  predicate Forwards(strategy: Strategy, ev: Event, kind: EventType) {
    strategy(ev) == Signal && ev.kind == kind
  }

  /**
   Only forwarded new orders, cancellations and modifications change the book, each in its own way,
   and only forwarded new orders have anything to report. One counter moves.
   */
  ghost predicate PipeEffect(strategy: Strategy, s: PipeState, ev: Event, s': PipeState, report: Report) {
    && s'.maxOrders == s.maxOrders
    && s'.signals == s.signals + (if strategy(ev) == Signal then 1 else 0)
    && s'.noops == s.noops + (if strategy(ev) == Noop then 1 else 0)
    && (if Forwards(strategy, ev, NewOrder) then
          Processed(s.book, s.maxOrders, ev, s'.book, report.result, report.trace)
        else
          report.result == MatchResult.Ok && report.trace == [])
    && (Forwards(strategy, ev, CancelOrder) ==> exists r :: Cancelled(s.book, ev.orderId, r, s'.book))
    && (Forwards(strategy, ev, ModifyOrder) ==>
          exists r :: Modified(s.book, ev.orderId, ev.price, ev.quantity, r, s'.book))
    && (strategy(ev) == Noop || ev.kind !in {NewOrder, CancelOrder, ModifyOrder} ==> s'.book == s.book)
  }

  /** The event is a forwarded new order that the engine never returns from. */
  ghost predicate HoldsUp(strategy: Strategy, s: PipeState, ev: Event) {
    Forwards(strategy, ev, NewOrder) && CanStall(s.book, ev.side, ev.price, ev.orderId, ev.quantity)
  }

  lemma PipeStepEffect(strategy: Strategy, s: PipeState, ev: Event)
    requires WellFormed(s.book) && EventOk(ev)
    ensures var r := PipeStep(strategy, s, ev);
            && (r == None <==> HoldsUp(strategy, s, ev))
            && (r.Some? ==> PipeEffect(strategy, s, ev, r.value.0, r.value.1))
  {
    hide WellFormed, Match, CanStall, NewOrderSpec, CancelSpec, ModifySpec, Trace, Processed, Cancelled, Modified;
    StallsIff(s.book, ev.side, ev.price, ev.orderId, ev.quantity);
    CancelEffect(s.book, ev.orderId);
    ModifyOutcome(s.book, ev.orderId, ev.price, ev.quantity);
    if ev.kind == NewOrder && MatchEvent(s.book, ev).stop != Stalled {
      NewOrderEffect(s.book, s.maxOrders, ev);
    }
  }

  /** A registered symbol's pipeline takes the event; all others, and unregistered ids, stay out of it. */
  ghost predicate RouterEffect(strategies: map<nat, Strategy>, st: RouterState, ev: Event,
                               st': RouterState, report: Report)
    requires st.Keys <= strategies.Keys
  {
    && st'.Keys == st.Keys
    && (forall sid | sid in st && sid != ev.symbolId :: st'[sid] == st[sid])
    && (if ev.symbolId in st then
          PipeEffect(strategies[ev.symbolId], st[ev.symbolId], ev, st'[ev.symbolId], report)
        else
          report.result == MatchResult.Ok && report.trace == [])
  }

  lemma RouterStepEffect(strategies: map<nat, Strategy>, st: RouterState, ev: Event)
    requires StateOk(strategies, st) && EventOk(ev)
    ensures var r := RouterStep(strategies, st, ev);
            && (r == None <==> ev.symbolId in st && HoldsUp(strategies[ev.symbolId], st[ev.symbolId], ev))
            && (r.Some? ==> RouterEffect(strategies, st, ev, r.value.0, r.value.1))
  {
    hide PipeStep, PipeEffect, HoldsUp, WellFormed;
    if ev.symbolId in st {
      PipeStepEffect(strategies[ev.symbolId], st[ev.symbolId], ev);
    }
  }

  // ---------------------------------------------------------------- projection

  /** The events of one symbol. */
  function Only(evs: seq<Event>, sid: nat): (r: seq<Event>)
    ensures forall ev | ev in r :: ev in evs && ev.symbolId == sid
  {
    if evs == [] then []
    else (if evs[0].symbolId == sid then [evs[0]] else []) + Only(evs[1..], sid)
  }

  /** The reports that answer the events of one symbol. */
  function ReportsOf(evs: seq<Event>, reports: seq<Report>, sid: nat): seq<Report>
    requires |reports| == |evs|
  {
    if evs == [] then []
    else (if evs[0].symbolId == sid then [reports[0]] else []) + ReportsOf(evs[1..], reports[1..], sid)
  }

  lemma {:induction false} OneReportEach(strategies: map<nat, Strategy>, st: RouterState, evs: seq<Event>)
    requires StateOk(strategies, st) && forall ev | ev in evs :: EventOk(ev)
    ensures var r := RouterRun(strategies, st, evs);
            r.Some? ==> |r.value.1| == |evs| && r.value.0.Keys == st.Keys
    decreases |evs|
  {
    hide PipeStep, WellFormed;
    if evs != [] {
      var r := RouterStep(strategies, st, evs[0]);
      if r.Some? {
        OneReportEach(strategies, r.value.0, evs[1..]);
      }
    }
  }

  /**
   Symbols do not interfere. When the router gets through a list of events, each symbol's final
   book, counters and reports are those of its own events run through its own pipeline alone.
   */
  lemma {:induction false} RouterProjects(strategies: map<nat, Strategy>, st: RouterState, evs: seq<Event>, sid: nat)
    requires StateOk(strategies, st) && forall ev | ev in evs :: EventOk(ev)
    requires sid in st && RouterRun(strategies, st, evs).Some?
    ensures var (st', reports) := RouterRun(strategies, st, evs).value;
            |reports| == |evs| && sid in st' &&
            PipeRun(strategies[sid], st[sid], Only(evs, sid)) == Some((st'[sid], ReportsOf(evs, reports, sid)))
    decreases |evs|
  {
    hide PipeStep, WellFormed;
    OneReportEach(strategies, st, evs);
    if evs != [] {
      var ev := evs[0];
      var (st1, report) := RouterStep(strategies, st, ev).value;
      RouterProjects(strategies, st1, evs[1..], sid);
      var (st', reports) := RouterRun(strategies, st, evs).value;
      assert reports[1..] == RouterRun(strategies, st1, evs[1..]).value.1;
      if ev.symbolId == sid {
        assert Only(evs, sid)[0] == ev && Only(evs, sid)[1..] == Only(evs[1..], sid);
      } else {
        assert Only(evs, sid) == Only(evs[1..], sid);
        assert ReportsOf(evs, reports, sid) == ReportsOf(evs[1..], reports[1..], sid);
      }
    }
  }

  /** A pipeline that is held up after the router's first step is held up from the start. */
  lemma SlowAfterStep(strategies: map<nat, Strategy>, st: RouterState, evs: seq<Event>, sid: nat)
    requires StateOk(strategies, st) && evs != [] && forall ev | ev in evs :: EventOk(ev)
    requires RouterStep(strategies, st, evs[0]).Some?
    requires var st1 := RouterStep(strategies, st, evs[0]).value.0;
             sid in st1 && PipeRun(strategies[sid], st1[sid], Only(evs[1..], sid)) == None
    ensures sid in st && PipeRun(strategies[sid], st[sid], Only(evs, sid)) == None
  {
    hide PipeStep, WellFormed, PipeRun, Only;
    OnlyFirst(evs, sid);
    if evs[0].symbolId == sid {
      PipeRunFirst(strategies[sid], st[sid], evs[0], Only(evs[1..], sid));
    }
  }

  lemma OnlyFirst(evs: seq<Event>, sid: nat)
    requires evs != []
    ensures Only(evs, sid) == (if evs[0].symbolId == sid then [evs[0]] else []) + Only(evs[1..], sid)
    ensures [] + Only(evs[1..], sid) == Only(evs[1..], sid)
  {
  }

  lemma PipeRunFirst(strategy: Strategy, s: PipeState, ev: Event, evs: seq<Event>)
    requires WellFormed(s.book) && EventOk(ev) && forall e | e in evs :: EventOk(e)
    requires PipeStep(strategy, s, ev).Some?
    ensures PipeRun(strategy, s, [ev] + evs) == None <==>
            PipeRun(strategy, PipeStep(strategy, s, ev).value.0, evs) == None
  {
    hide PipeStep, WellFormed;
    assert ([ev] + evs)[1..] == evs;
  }

  /** The router is held up exactly when some symbol's own events hold up its own pipeline. */
  lemma {:induction false} RouterHangsIff(strategies: map<nat, Strategy>, st: RouterState, evs: seq<Event>)
    requires StateOk(strategies, st) && forall ev | ev in evs :: EventOk(ev)
    ensures RouterRun(strategies, st, evs) == None <==>
            exists sid :: sid in st && PipeRun(strategies[sid], st[sid], Only(evs, sid)) == None
    decreases |evs|
  {
    hide PipeStep, WellFormed;
    if RouterRun(strategies, st, evs).Some? {
      forall sid | sid in st
        ensures PipeRun(strategies[sid], st[sid], Only(evs, sid)) != None
      {
        RouterProjects(strategies, st, evs, sid);
      }
    } else {
      var ev := evs[0];
      var r := RouterStep(strategies, st, ev);
      var sid := ev.symbolId;
      if sid in st {
        assert Only(evs, sid)[0] == ev && Only(evs, sid)[1..] == Only(evs[1..], sid);
      }
      if r.None? {
        assert PipeRun(strategies[sid], st[sid], Only(evs, sid)) == None;
      } else {
        var st1 := r.value.0;
        RouterHangsIff(strategies, st1, evs[1..]);
        var other :| other in st1 && PipeRun(strategies[other], st1[other], Only(evs[1..], other)) == None;
        SlowAfterStep(strategies, st, evs, other);
      }
    }
  }

  // ---------------------------------------------------------------- the classes

  /** Wraps a strategy and counts its answers. */
  class StrategyEngine {
    const onEvent: Strategy
    var signalCount: nat
    var noopCount: nat

    constructor (strategy: Strategy)
      ensures onEvent == strategy && signalCount == 0 && noopCount == 0
    {
      onEvent := strategy;
      signalCount, noopCount := 0, 0;
    }

    method Process(event: Event) returns (sig: StrategySignal)
      modifies this
      ensures sig == onEvent(event)
      ensures signalCount == old(signalCount) + if sig == Signal then 1 else 0
      ensures noopCount == old(noopCount) + if sig == Noop then 1 else 0
    {
      sig := onEvent(event);
      if sig == Signal {
        signalCount := signalCount + 1;
      } else {
        noopCount := noopCount + 1;
      }
    }
  }

  const DEFAULT_MAX_ORDERS: nat := 65_536

  class SymbolPipeline {
    const book: OrderBook
    const strategy: StrategyEngine
    const matcher: MatchingEngine

    ghost function Repr(): set<object> {
      {strategy} + book.Repr
    }

    ghost predicate Valid()
      reads Repr(), book
    {
      book.Valid() && strategy !in book.Repr
    }

    ghost function State(): PipeState
      reads Repr(), book
    {
      PipeState(book.resting, book.MaxOrders(), strategy.signalCount, strategy.noopCount)
    }

    constructor (symbolId: nat, onEvent: Strategy)
      ensures Valid() && fresh(Repr()) && book in Repr()
      ensures State() == PipeState([], DEFAULT_MAX_ORDERS, 0, 0) && strategy.onEvent == onEvent
    {
      DefaultIsPow2();
      book := new OrderBook(symbolId, DEFAULT_MAX_ORDERS);
      strategy := new StrategyEngine(onEvent);
      matcher := new MatchingEngine();
    }

    /** Asks the strategy, and hands the event to the engine if it says so. */
    method Process(event: Event) returns (out: MatchOutput)
      requires Valid()
      requires EventOk(event) && (strategy.onEvent(event) == Signal ==> Ready(book.resting, event))
      modifies Repr()
      ensures Valid() && out.Valid() && fresh(out) && fresh(out.events)
      ensures PipeStep(strategy.onEvent, old(State()), event) ==
              Some((State(), Report(out.result, out.trace)))
      ensures PipeEffect(strategy.onEvent, old(State()), event, State(), Report(out.result, out.trace))
    {
      hide PipeEffect, HoldsUp, OrderBook.Valid, MatchOutput.Valid, WellFormed, Match, NewOrderSpec, CancelSpec, ModifySpec, Total, Trace, Cancelled, Modified;
      PipeStepEffect(strategy.onEvent, State(), event);
      var sig := strategy.Process(event);
      if sig == Noop {
        out := new MatchOutput();
        return;
      }
      if event.kind == NewOrder {
        out := matcher.ProcessNewOrder(book, event);
        return;
      }
      out := new MatchOutput();
      if event.kind == CancelOrder {
        var cancelled := matcher.ProcessCancel(book, event);
      } else if event.kind == ModifyOrder {
        var modified := matcher.ProcessModify(book, event);
      }
    }
  }

  lemma DefaultIsPow2()
    ensures IsPow2(DEFAULT_MAX_ORDERS)
  {
    Powers();
  }

  /** The event does not hang its engine, and fits the totals of the level that it may rest on. */
  ghost predicate Ready(q: Queue, ev: Event)
    requires WellFormed(q)
  {
    && EventOk(ev)
    && (ev.kind == NewOrder ==>
          MatchEvent(q, ev).stop != Stalled &&
          (InRange(ev.price) ==> Total(q, ev.side, ev.price) + ev.quantity <= MAX_U64))
    && (ev.kind == ModifyOrder ==>
          var i := IndexOf(q, ev.orderId);
          i < |q| && InRange(ev.price) ==>
            Total(RemoveAt(q, i), q[i].entry.side, ev.price) + ev.quantity <= MAX_U64)
  }

  /** The slots that are in use. */
  ghost function Filled<T>(s: seq<Option<T>>): map<nat, T> {
    map i: nat | i < |s| && s[i].Some? :: s[i].value
  }

  lemma FilledUpdate<T>(s: seq<Option<T>>, i: nat, v: T)
    requires i < |s|
    ensures Filled(s[i := Some(v)]) == Filled(s)[i := v]
  {
  }

  lemma FilledAt<T>(s: seq<Option<T>>, i: nat)
    ensures i in Filled(s) <==> i < |s| && s[i].Some?
    ensures i in Filled(s) ==> Filled(s)[i] == s[i].value
  {
  }

  lemma StepElsewhere(strategies: map<nat, Strategy>, st: RouterState, ev: Event)
    requires StateOk(strategies, st) && EventOk(ev)
    ensures ev.symbolId !in st ==> RouterStep(strategies, st, ev) == Some((st, NOTHING))
    ensures ev.symbolId in st ==> ev.symbolId in strategies && WellFormed(st[ev.symbolId].book)
  {
  }

  lemma StepHere(strategies: map<nat, Strategy>, st: RouterState, ev: Event)
    requires StateOk(strategies, st) && EventOk(ev) && ev.symbolId in st
    ensures var r := PipeStep(strategies[ev.symbolId], st[ev.symbolId], ev);
            r.Some? ==> RouterStep(strategies, st, ev) == Some((st[ev.symbolId := r.value.0], r.value.1))
  {
  }

  class SymbolRouter {
    const slots: array<SymbolPipeline?>
    var count: nat

    ghost var Repr: set<object>  // everything that the pipelines own

    ghost predicate Valid()
      reads this, slots, Repr
    {
      && slots.Length == MAX_SYMBOLS
      && this !in Repr && slots !in Repr
      && (forall i | 0 <= i < MAX_SYMBOLS && slots[i] != null ::
            slots[i].Repr() <= Repr && slots[i].book in slots[i].Repr() && slots[i].Valid())
      && (forall i, j | 0 <= i < j < MAX_SYMBOLS && slots[i] != null && slots[j] != null ::
            slots[i].Repr() !! slots[j].Repr())
    }

    ghost function SlotStrategies(): seq<Option<Strategy>>
      requires Valid()
      reads this, slots, Repr
    {
      seq(MAX_SYMBOLS, i requires 0 <= i < MAX_SYMBOLS reads this, slots, Repr requires Valid() =>
        if slots[i] == null then None else Some(slots[i].strategy.onEvent))
    }

    ghost function SlotStates(): seq<Option<PipeState>>
      requires Valid()
      reads this, slots, Repr
    {
      seq(MAX_SYMBOLS, i requires 0 <= i < MAX_SYMBOLS reads this, slots, Repr requires Valid() =>
        if slots[i] == null then None else Some(slots[i].State()))
    }

    ghost function Strategies(): map<nat, Strategy>
      requires Valid()
      reads this, slots, Repr
    {
      Filled(SlotStrategies())
    }

    ghost function State(): (st: RouterState)
      requires Valid()
      reads this, slots, Repr
      ensures StateOk(Strategies(), st)
    {
      Filled(SlotStates())
    }

    constructor ()
      ensures Valid() && State() == map[] && count == 0 && fresh(slots) && Repr == {}
    {
      slots := new SymbolPipeline?[MAX_SYMBOLS](_ => null);
      count := 0;
      Repr := {};
    }

    /** Registers a symbol with an empty book; refuses ids out of range and symbols that exist. */
    method RegisterSymbol(symbolId: nat, onEvent: Strategy) returns (ok: bool)
      requires Valid()
      modifies this, slots
      ensures Valid() && fresh(Repr - old(Repr))
      ensures ok <==> symbolId < MAX_SYMBOLS && symbolId !in old(State())
      ensures !ok ==> State() == old(State()) && Strategies() == old(Strategies()) && count == old(count)
      ensures ok ==> && State() == old(State())[symbolId := PipeState([], DEFAULT_MAX_ORDERS, 0, 0)]
                     && Strategies() == old(Strategies())[symbolId := onEvent]
                     && count == old(count) + 1
    {
      hide OrderBook.Valid, SymbolPipeline.Valid, WellFormed, StateOk;
      if symbolId >= MAX_SYMBOLS { return false; }
      if slots[symbolId] != null { return false; }
      var pipe := new SymbolPipeline(symbolId, onEvent);
      slots[symbolId] := pipe;
      Repr := Repr + pipe.Repr();
      count := count + 1;
      assert forall i | 0 <= i < MAX_SYMBOLS && i != symbolId && slots[i] != null ::
          slots[i] == old(slots[i]) && slots[i].Valid() && slots[i].State() == old(slots[i].State());
      assert SlotStates() == old(SlotStates())[symbolId := Some(pipe.State())];
      assert SlotStrategies() == old(SlotStrategies())[symbolId := Some(onEvent)];
      FilledUpdate(old(SlotStates()), symbolId, pipe.State());
      FilledUpdate(old(SlotStrategies()), symbolId, onEvent);
      return true;
    }

    /**
     Routes one event to its symbol's pipeline. Events of ids that are out of range or not
     registered change nothing.
     */
    method Process(event: Event) returns (out: MatchOutput)
      requires Valid() && EventOk(event)
      requires event.symbolId in State() && Strategies()[event.symbolId](event) == Signal ==>
                 Ready(State()[event.symbolId].book, event)
      modifies Repr
      ensures Valid() && Repr == old(Repr) && Strategies() == old(Strategies()) && count == old(count)
      ensures out.Valid() && fresh(out) && fresh(out.events)
      ensures RouterStep(Strategies(), old(State()), event) == Some((State(), Report(out.result, out.trace)))
      ensures RouterEffect(Strategies(), old(State()), event, State(), Report(out.result, out.trace))
    {
      hide PipeEffect, RouterEffect, HoldsUp, SymbolPipeline.Valid, MatchOutput.Valid, PipeStep, WellFormed, Ready, RouterStep, StateOk, Filled;
      FilledAt(SlotStates(), event.symbolId);
      FilledAt(SlotStrategies(), event.symbolId);
      ghost var strategies, st := Strategies(), State();
      StepElsewhere(strategies, st, event);
      RouterStepEffect(strategies, st, event);
      var sid := event.symbolId;
      if sid >= MAX_SYMBOLS || slots[sid] == null {
        out := new MatchOutput();
        return;
      }
      var pipe := slots[sid];
      assert pipe.Valid();
      out := pipe.Process(event);
      assert forall i | 0 <= i < MAX_SYMBOLS && i != sid && slots[i] != null ::
          slots[i].Valid() && slots[i].State() == old(slots[i].State());
      assert SlotStates() == old(SlotStates())[sid := Some(pipe.State())];
      assert SlotStrategies() == old(SlotStrategies());
      FilledUpdate(old(SlotStates()), sid, pipe.State());
      StepHere(strategies, st, event);
    }
  }
}
