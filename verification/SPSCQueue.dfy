/**
 The single-producer single-consumer ring buffer.

 The first part is a state machine whose steps are the individual memory accesses of the two
 threads, in any interleaving. Each thread may see an old value of the other's counter, though
 never older than one it saw before. A buffer read may return any write to its slot that the
 reader does not know to be overwritten, and anything at all from a slot that is being written.
 The second part is the queue as one thread at a time sees it, over a real array.
 */
module SPSCQueues {
  import opened Types
  import opened Bits

  // ---------------------------------------------------------------- the two threads

  datatype Producer<T> =
    | ProducerIdle
    | LoadingHead(item: T)  // own counter read; about to read the consumer's
    | Writing(item: T)      // found room; the slot is being written
    | Written(item: T)      // the slot is written; the counter is not yet published

  datatype Consumer<T> =
    | ConsumerIdle
    | LoadingTail
    | Reading               // found an item; the slot is being read
    | Got(item: T)          // the slot is read; the counter is not yet published

  datatype State<T> = State(
    cap: nat,
    head: nat,             // published by the consumer
    tail: nat,             // published by the producer
    writes: seq<T>,        // the completed buffer writes, oldest first
    seenHead: nat,         // the newest head that the producer has seen
    seenTail: nat,         // the newest tail that the consumer has seen
    producer: Producer<T>,
    consumer: Consumer<T>,
    enqueued: seq<T>,      // items whose enqueue has returned true
    dequeued: seq<T>)      // items that dequeue has returned

  /** The i-th item lives in the slot that its masked counter selects. */
  function Slot(i: nat, cap: nat): nat
    requires cap > 0
  {
    And(i, cap - 1)
  }

  ghost predicate Start<T>(s: State<T>, cap: nat) {
    s == State(cap, 0, 0, [], 0, 0, ProducerIdle, ConsumerIdle, [], [])
  }

  // Producer steps

  ghost predicate BeginEnqueue<T>(s: State<T>, item: T, s': State<T>) {
    s.producer == ProducerIdle && s' == s.(producer := LoadingHead(item))
  }

  /** The producer sees `h`; it gives up if the queue looks full. */
  ghost predicate SeeHead<T>(s: State<T>, h: nat, s': State<T>) {
    && s.producer.LoadingHead? && s.seenHead <= h <= s.head
    && s' == s.(seenHead := h,
                producer := if s.tail - h >= s.cap then ProducerIdle else Writing(s.producer.item))
  }

  ghost predicate FinishWrite<T>(s: State<T>, s': State<T>) {
    s.producer.Writing? && s' == s.(writes := s.writes + [s.producer.item], producer := Written(s.producer.item))
  }

  ghost predicate PublishTail<T>(s: State<T>, s': State<T>) {
    && s.producer.Written?
    && s' == s.(tail := s.tail + 1, enqueued := s.enqueued + [s.producer.item], producer := ProducerIdle)
  }

  // Consumer steps

  ghost predicate BeginDequeue<T>(s: State<T>, s': State<T>) {
    s.consumer == ConsumerIdle && s' == s.(consumer := LoadingTail)
  }

  /** The consumer sees `t`; it gives up if the queue looks empty. */
  ghost predicate SeeTail<T>(s: State<T>, t: nat, s': State<T>) {
    && s.consumer.LoadingTail? && s.seenTail <= t <= s.tail
    && s' == s.(seenTail := t, consumer := if s.head >= t then ConsumerIdle else Reading)
  }

  /** The j-th write may be what a reader of its slot gets: no later write is known to the reader. */
  ghost predicate MayRead<T>(s: State<T>, j: nat)
    requires s.cap > 0
  {
    && j < |s.writes| && Slot(j, s.cap) == Slot(s.head, s.cap)
    && forall k | j < k < s.seenTail :: Slot(k, s.cap) != Slot(s.head, s.cap)
  }

  /** Both threads are at the same slot, so the reader may get anything. */
  ghost predicate Torn<T>(s: State<T>)
    requires s.cap > 0
  {
    s.producer.Writing? && s.consumer.Reading? && Slot(s.tail, s.cap) == Slot(s.head, s.cap)
  }

  ghost predicate ReadSlot<T>(s: State<T>, item: T, s': State<T>) {
    && s.consumer.Reading? && s.cap > 0
    && (Torn(s) || exists j: nat :: MayRead(s, j) && item == s.writes[j])
    && s' == s.(consumer := Got(item))
  }

  ghost predicate PublishHead<T>(s: State<T>, s': State<T>) {
    && s.consumer.Got?
    && s' == s.(head := s.head + 1, dequeued := s.dequeued + [s.consumer.item], consumer := ConsumerIdle)
  }

  /** One memory access of either thread. */
  ghost predicate Next<T(!new)>(s: State<T>, s': State<T>) {
    || (exists item: T :: BeginEnqueue(s, item, s'))
    || (exists h: nat :: SeeHead(s, h, s'))
    || FinishWrite(s, s')
    || PublishTail(s, s')
    || BeginDequeue(s, s')
    || (exists t: nat :: SeeTail(s, t, s'))
    || (exists item: T :: ReadSlot(s, item, s'))
    || PublishHead(s, s')
  }

  // ---------------------------------------------------------------- what every step keeps

  ghost predicate Inv<T>(s: State<T>) {
    && s.cap > 0 && IsPow2(s.cap)
    && s.seenHead <= s.head && s.seenTail <= s.tail
    && s.head <= s.tail <= s.seenHead + s.cap
    && |s.writes| == s.tail + (if s.producer.Written? then 1 else 0)
    && s.enqueued == s.writes[..s.tail] && s.dequeued == s.writes[..s.head]
    && (s.producer.Writing? || s.producer.Written? ==> s.tail < s.seenHead + s.cap)
    && (s.producer.Written? ==> s.writes[s.tail] == s.producer.item)
    && (s.consumer.Reading? || s.consumer.Got? ==> s.head < s.seenTail)
    && (s.consumer.Got? ==> s.consumer.item == s.writes[s.head])
  }

  /** Two counters in a window no longer than the capacity that share a slot are equal. */
  lemma SlotInjective(a: nat, b: nat, cap: nat)
    requires cap > 0 && IsPow2(cap)
    requires a <= b < a + cap && Slot(a, cap) == Slot(b, cap)
    ensures a == b
  {
    var n :| cap == Pow2(n);
    MaskIsModulo(a, n);
    MaskIsModulo(b, n);
    ModuloInjective(a, b, cap);
  }

  /** Slot exclusion: the threads are never at the same slot. */
  lemma SlotExclusion<T>(s: State<T>)
    requires Inv(s)
    ensures !Torn(s)
  {
    if Torn(s) {
      SlotInjective(s.head, s.tail, s.cap);
      assert false;
    }
  }

  /** However stale the reader's knowledge, the only write that it can get is its own item. */
  lemma ReadsOwnItem<T>(s: State<T>, j: nat)
    requires Inv(s) && s.consumer.Reading? && MayRead(s, j)
    ensures j == s.head
  {
    if j >= s.head {
      SlotInjective(s.head, j, s.cap);
    }
  }

  lemma StepKeepsInv<T(!new)>(s: State<T>, s': State<T>)
    requires Inv(s) && Next(s, s')
    ensures Inv(s')
  {
    if item: T :| ReadSlot(s, item, s') {
      SlotExclusion(s);
      var j: nat :| MayRead(s, j) && item == s.writes[j];
      ReadsOwnItem(s, j);
    }
  }

  // ---------------------------------------------------------------- every execution

  ghost predicate Execution<T(!new)>(run: seq<State<T>>, cap: nat) {
    && run != [] && Start(run[0], cap)
    && forall i | 0 <= i < |run| - 1 :: Next(run[i], run[i + 1])
  }

  lemma {:induction false} ExecutionKeepsInv<T(!new)>(run: seq<State<T>>, cap: nat, i: nat)
    requires IsPow2(cap) && Execution(run, cap) && i < |run|
    ensures Inv(run[i]) && run[i].cap == cap
  {
    if i > 0 {
      ExecutionKeepsInv(run, cap, i - 1);
      assert Next(run[i - 1], run[i - 1 + 1]);
      StepKeepsInv(run[i - 1], run[i]);
    }
  }

  /**
   In every state of every execution: what was dequeued, followed by what is pending, is what was
   enqueued, in order; at most `cap` items are pending; and the threads are at different slots.
   */
  lemma FifoAlways<T(!new)>(run: seq<State<T>>, cap: nat, i: nat)
    requires IsPow2(cap) && Execution(run, cap) && i < |run|
    ensures var s := run[i];
            && s.head <= s.tail <= s.head + cap && s.tail == |s.enqueued|
            && s.dequeued + s.enqueued[s.head..] == s.enqueued
            && (s.producer.Writing? && s.consumer.Reading? ==> Slot(s.tail, cap) != Slot(s.head, cap))
  {
    ExecutionKeepsInv(run, cap, i);
    SlotExclusion(run[i]);
  }

  /**
   In any interleaving and however stale its view, an enqueue gives up exactly when, of the items
   enqueued so far, `cap` are beyond the head that it saw. If it goes on there is room; and a
   producer that saw the newest head gives up exactly when the queue is full.
   */
  lemma EnqueueOutcome<T(!new)>(run: seq<State<T>>, cap: nat, i: nat, h: nat)
    requires IsPow2(cap) && Execution(run, cap) && i < |run| - 1 && SeeHead(run[i], h, run[i + 1])
    ensures var s, s' := run[i], run[i + 1];
            && h <= |s.dequeued| && s'.enqueued == s.enqueued && s'.dequeued == s.dequeued
            && s'.producer == (if |s.enqueued| == h + cap then ProducerIdle else Writing(s.producer.item))
            && (s'.producer.Writing? ==> |s.enqueued| < |s.dequeued| + cap)
            && (h == |s.dequeued| ==> (s'.producer.ProducerIdle? <==> |s.enqueued| == |s.dequeued| + cap))
  {
    ExecutionKeepsInv(run, cap, i);
  }

  /** Likewise a dequeue gives up exactly when it sees no item beyond those already dequeued. */
  lemma DequeueOutcome<T(!new)>(run: seq<State<T>>, cap: nat, i: nat, t: nat)
    requires IsPow2(cap) && Execution(run, cap) && i < |run| - 1 && SeeTail(run[i], t, run[i + 1])
    ensures var s, s' := run[i], run[i + 1];
            && t <= |s.enqueued| && s'.enqueued == s.enqueued && s'.dequeued == s.dequeued
            && s'.consumer == (if t <= |s.dequeued| then ConsumerIdle else Reading)
            && (s'.consumer.Reading? ==> |s.dequeued| < |s.enqueued|)
            && (t == |s.enqueued| ==> (s'.consumer.ConsumerIdle? <==> |s.dequeued| == |s.enqueued|))
  {
    ExecutionKeepsInv(run, cap, i);
  }

  /**
   A dequeue that goes on takes the oldest pending item: whatever its read may get, it gets that,
   and publishing it adds it to what was dequeued.
   */
  lemma DequeueTakesOldest<T(!new)>(run: seq<State<T>>, cap: nat, i: nat, item: T)
    requires IsPow2(cap) && Execution(run, cap) && i < |run| - 1 && ReadSlot(run[i], item, run[i + 1])
    ensures var s := run[i];
            |s.dequeued| < |s.enqueued| && item == s.enqueued[|s.dequeued|] && run[i + 1].consumer == Got(item)
  {
    ExecutionKeepsInv(run, cap, i);
    var s := run[i];
    SlotExclusion(s);
    var j: nat :| MayRead(s, j) && item == s.writes[j];
    ReadsOwnItem(s, j);
  }

  /** One thread runs on while the other stands still wherever it is. */
  ghost predicate RunsOn<T(!new)>(run: seq<State<T>>, s: State<T>, steps: nat) {
    && |run| == steps + 1 && run[0] == s
    && forall i | 0 <= i < steps :: Next(run[i], run[i + 1])
  }

  /**
   Enqueue waits for nothing: wherever the consumer stopped, three steps complete a call that has
   begun. It appends its item if there is room, and otherwise gives up.
   */
  lemma EnqueueFinishes<T(!new)>(s: State<T>) returns (run: seq<State<T>>)
    requires Inv(s) && s.producer.LoadingHead?
    ensures var room := |s.enqueued| < |s.dequeued| + s.cap;
            && RunsOn(run, s, if room then 3 else 1)
            && var last := run[|run| - 1];
               && last.producer == ProducerIdle && last.consumer == s.consumer && last.dequeued == s.dequeued
               && last.enqueued == s.enqueued + if room then [s.producer.item] else []
  {
    var item := s.producer.item;
    if s.tail - s.head >= s.cap {
      var s1 := s.(seenHead := s.head, producer := ProducerIdle);
      assert SeeHead(s, s.head, s1);
      run := [s, s1];
    } else {
      var s1 := s.(seenHead := s.head, producer := Writing(item));
      var s2 := s1.(writes := s1.writes + [item], producer := Written(item));
      var s3 := s2.(tail := s2.tail + 1, enqueued := s2.enqueued + [item], producer := ProducerIdle);
      assert SeeHead(s, s.head, s1);
      assert FinishWrite(s1, s2) && PublishTail(s2, s3);
      run := [s, s1, s2, s3];
      assert run[0] == s && run[1] == s1 && run[2] == s2 && run[3] == s3;
    }
  }

  /** Dequeue waits for nothing either, wherever the producer stopped. */
  lemma DequeueFinishes<T(!new)>(s: State<T>) returns (run: seq<State<T>>)
    requires Inv(s) && s.consumer.LoadingTail?
    ensures var pending := |s.dequeued| < |s.enqueued|;
            && RunsOn(run, s, if pending then 3 else 1)
            && var last := run[|run| - 1];
               && last.consumer == ConsumerIdle && last.producer == s.producer && last.enqueued == s.enqueued
               && last.dequeued == s.dequeued + if pending then [s.enqueued[|s.dequeued|]] else []
  {
    if s.head >= s.tail {
      var s1 := s.(seenTail := s.tail, consumer := ConsumerIdle);
      assert SeeTail(s, s.tail, s1);
      run := [s, s1];
    } else {
      var item := s.writes[s.head];
      var s1 := s.(seenTail := s.tail, consumer := Reading);
      var s2 := s1.(consumer := Got(item));
      var s3 := s2.(head := s2.head + 1, dequeued := s2.dequeued + [item], consumer := ConsumerIdle);
      assert SeeTail(s, s.tail, s1);
      OwnWriteReadable(s1);
      assert ReadSlot(s1, item, s2) && PublishHead(s2, s3);
      run := [s, s1, s2, s3];
      assert run[0] == s && run[1] == s1 && run[2] == s2 && run[3] == s3;
    }
  }

  // ---------------------------------------------------------------- counters that wrap

  const WORD: nat := MAX_U64 + 1

  /** On wrapped counters the subtraction in the full test still gives the number of pending items. */
  lemma FullTestSurvivesWrap(head: nat, tail: nat)
    requires head <= tail < head + WORD
    ensures (tail % WORD - head % WORD) % WORD == tail - head
  {
    var h, t := head / WORD, tail / WORD;
    assert head == h * WORD + head % WORD && tail == t * WORD + tail % WORD;
    RemainderUnique(tail % WORD - head % WORD, WORD, h - t, tail - head);
  }

  /** The comparison in the empty test does not: it is right exactly while neither counter has lapped the other. */
  lemma EmptyTestWrapsIff(head: nat, tail: nat)
    requires head <= tail < head + WORD
    ensures (head % WORD >= tail % WORD <==> head >= tail) <==> head / WORD == tail / WORD
  {
    assert head == head / WORD * WORD + head % WORD && tail == tail / WORD * WORD + tail % WORD;
  }

  // ---------------------------------------------------------------- the queue, one call at a time

  /** The steps of an enqueue that is not interleaved with the consumer. */
  ghost predicate EnqueueAlone<T(!new)>(s: State<T>, item: T, ok: bool, s': State<T>) {
    if ok then
      exists s1, s2, s3 ::
        BeginEnqueue(s, item, s1) && SeeHead(s1, s1.head, s2) && FinishWrite(s2, s3) && PublishTail(s3, s')
    else
      exists s1 :: BeginEnqueue(s, item, s1) && SeeHead(s1, s1.head, s') && s'.producer.ProducerIdle?
  }

  /** The steps of a dequeue that is not interleaved with the producer. */
  ghost predicate DequeueAlone<T(!new)>(s: State<T>, r: Option<T>, s': State<T>) {
    if r.Some? then
      exists s1, s2, s3 ::
        BeginDequeue(s, s1) && SeeTail(s1, s1.tail, s2) && ReadSlot(s2, r.value, s3) && PublishHead(s3, s')
    else
      exists s1 :: BeginDequeue(s, s1) && SeeTail(s1, s1.tail, s') && s'.consumer.ConsumerIdle?
  }

  class SPSCQueue<T(!new)> {
    var head: nat
    var tail: nat
    const buffer: array<T>
    ghost var state: State<T>

    /** Between calls; the buffer holds every pending item in its slot. */
    ghost predicate Valid()
      reads this, buffer
    {
      && Inv(state) && state.producer.ProducerIdle? && state.consumer.ConsumerIdle?
      && state.cap == buffer.Length && state.head == head && state.tail == tail
      && forall i: nat | head <= i < tail :: Slot(i, buffer.Length) < buffer.Length &&
                                             buffer[Slot(i, buffer.Length)] == state.writes[i]
    }

    constructor (capacity: nat, zero: T)
      requires IsPow2(capacity)
      ensures Valid() && buffer.Length == capacity && fresh(buffer)
      ensures Start(state, capacity)
    {
      buffer := new T[capacity](_ => zero);
      head, tail := 0, 0;
      state := State(capacity, 0, 0, [], 0, 0, ProducerIdle, ConsumerIdle, [], []);
    }

    /** Fails exactly when `capacity` items are pending. */
    method Enqueue(item: T) returns (ok: bool)
      requires Valid()
      modifies this, buffer
      ensures Valid() && EnqueueAlone(old(state), item, ok, state)
      ensures ok <==> |old(state.enqueued)| - |old(state.dequeued)| < buffer.Length
      ensures state.enqueued == old(state.enqueued) + if ok then [item] else []
      ensures state.dequeued == old(state.dequeued)
    {
      ghost var s0 := state;
      ghost var s1 := s0.(producer := LoadingHead(item));
      if tail - head >= buffer.Length {
        state := s0.(seenHead := head);
        assert BeginEnqueue(s0, item, s1) && SeeHead(s1, s1.head, state);
        return false;
      }
      ghost var s2 := s1.(seenHead := head, producer := Writing(item));
      ghost var s3 := s2.(writes := s2.writes + [item], producer := Written(item));
      var slot := And(tail, buffer.Length - 1);
      MaskInRange(tail, buffer.Length);
      OtherSlots(s0);
      buffer[slot] := item;
      tail := tail + 1;
      state := s3.(tail := tail, enqueued := s3.enqueued + [item], producer := ProducerIdle);
      assert BeginEnqueue(s0, item, s1) && SeeHead(s1, s1.head, s2) && FinishWrite(s2, s3) && PublishTail(s3, state);
      return true;
    }

    /** Fails exactly when nothing is pending; otherwise returns the oldest pending item. */
    method Dequeue() returns (r: Option<T>)
      requires Valid()
      modifies this
      ensures Valid() && DequeueAlone(old(state), r, state)
      ensures r == if |old(state.dequeued)| < |old(state.enqueued)|
                   then Some(old(state.enqueued)[|old(state.dequeued)|]) else None
      ensures state.dequeued == old(state.dequeued) + if r.Some? then [r.value] else []
      ensures state.enqueued == old(state.enqueued)
    {
      ghost var s0 := state;
      ghost var s1 := s0.(consumer := LoadingTail);
      if head >= tail {
        state := s0.(seenTail := tail);
        assert BeginDequeue(s0, s1) && SeeTail(s1, s1.tail, state);
        return None;
      }
      MaskInRange(head, buffer.Length);
      var item := buffer[And(head, buffer.Length - 1)];
      assert item == state.writes[head];
      head := head + 1;
      state := s0.(seenTail := tail, head := head, dequeued := s0.dequeued + [item]);
      DequeueSteps(s0, item, state);
      return Some(item);
    }
  }

  /**
   After 2^64 - 1 items have passed through a queue and one more is enqueued, the counters as
   64-bit words are 2^64 - 1 and 0, so the empty test holds although an item is pending.
   */
  method EmptyTestMisleads<T(!new)>(capacity: nat, item: T) returns (q: SPSCQueue<T>)
    requires IsPow2(capacity)
    ensures q.Valid() && |q.state.enqueued| - |q.state.dequeued| == 1
    ensures q.head % WORD == MAX_U64 && q.tail % WORD == 0
  {
    q := new SPSCQueue(capacity, item);
    var n := 0;
    while n < MAX_U64
      invariant n <= MAX_U64 && q.Valid() && fresh(q) && fresh(q.buffer) && q.buffer.Length == capacity
      invariant |q.state.enqueued| == |q.state.dequeued| == n
    {
      var sent := q.Enqueue(item);
      var received := q.Dequeue();
      n := n + 1;
    }
    var last := q.Enqueue(item);
  }

  /** The four steps that take the oldest item. */
  lemma DequeueSteps<T(!new)>(s0: State<T>, item: T, s4: State<T>)
    requires Inv(s0) && s0.consumer.ConsumerIdle? && s0.head < s0.tail && item == s0.writes[s0.head]
    requires s4 == s0.(seenTail := s0.tail, head := s0.head + 1, dequeued := s0.dequeued + [item])
    ensures DequeueAlone(s0, Some(item), s4) && Inv(s4)
  {
    var s1 := s0.(consumer := LoadingTail);
    var s2 := s1.(seenTail := s0.tail, consumer := Reading);
    var s3 := s2.(consumer := Got(item));
    OwnWriteReadable(s2);
    assert BeginDequeue(s0, s1) && SeeTail(s1, s1.tail, s2) && ReadSlot(s2, item, s3) && PublishHead(s3, s4);
  }

  lemma MaskInRange(i: nat, cap: nat)
    requires IsPow2(cap) && cap > 0
    ensures And(i, cap - 1) < cap
  {
    var n :| cap == Pow2(n);
    MaskIsModulo(i, n);
  }

  /** No pending item shares a slot with the next one to be written. */
  lemma OtherSlots<T>(s: State<T>)
    requires Inv(s) && s.tail < s.head + s.cap
    ensures forall i: nat | s.head <= i < s.tail :: Slot(i, s.cap) != Slot(s.tail, s.cap)
  {
    forall i: nat | s.head <= i < s.tail
      ensures Slot(i, s.cap) != Slot(s.tail, s.cap)
    {
      if Slot(i, s.cap) == Slot(s.tail, s.cap) {
        SlotInjective(i, s.tail, s.cap);
        assert false;
      }
    }
  }

  /** A reader that has seen its item's counter may read its item. */
  lemma OwnWriteReadable<T>(s: State<T>)
    requires Inv(s) && s.consumer.Reading?
    ensures MayRead(s, s.head)
  {
    forall k: nat | s.head < k < s.seenTail
      ensures Slot(k, s.cap) != Slot(s.head, s.cap)
    {
      if Slot(k, s.cap) == Slot(s.head, s.cap) {
        SlotInjective(s.head, k, s.cap);
        assert false;
      }
    }
  }
}
