/** The accumulate-and-flush loop of the batch consumer (ConsumeClaim in
    contrib/sarama/batch.go). Which channel the select takes next is the event list; whether
    the handler's k-th flush fails is a parameter. Both are arbitrary. */
module Consume {
  import opened Bytes
  import Carrier

  /** A consumed message; `ref` is its identity, as a pointer is. */
  datatype Message = Message(ref: nat, headers: seq<Option<Carrier.Header>>, value: Text)

  datatype Options = Options(maxRecords: int, maxBytes: int) {
    predicate Full(records: nat, bytes: nat) {
      (maxRecords > 0 && records >= maxRecords) || (maxBytes > 0 && bytes >= maxBytes)
    }
  }

  /** A message, the nil of a closed channel, the timer, or the end of the session. */
  datatype Event = Received(message: Message) | Closed | Tick | Done

  datatype Trigger = Full | MaxWait | Shutdown | ChannelClosed

  datatype Flush = Flush(messages: seq<Message>, trigger: Trigger)

  datatype Exit = Running | Returned(failed: bool)

  /** Whether the handler returns an error for the n-th flush. */
  type Fails = nat -> bool

  /** The loop's variables, and the flushes handed to the handler so far. */
  datatype Loop = Loop(batch: seq<Message>, bytes: nat, flushes: seq<Flush>, exit: Exit)

  const START := Loop([], 0, [], Running)

  function Flushing(l: Loop, trigger: Trigger, fails: Fails): Loop {
    if l.batch == [] then l
    else Loop([], 0, l.flushes + [Flush(l.batch, trigger)], if fails(|l.flushes|) then Returned(true) else l.exit)
  }

  function Leaving(l: Loop): Loop {
    l.(exit := if l.exit.Running? then Returned(false) else l.exit)
  }

  /** One turn of the select; none once the loop has returned. */
  function Select(l: Loop, e: Event, o: Options, fails: Fails): Loop {
    if !l.exit.Running? then l
    else
      match e
      case Received(m) =>
        var grown := l.(batch := l.batch + [m], bytes := l.bytes + |m.value|);
        if o.Full(|grown.batch|, grown.bytes) then Flushing(grown, Trigger.Full, fails) else grown
      case Tick => Flushing(l, MaxWait, fails)
      case Closed => Leaving(Flushing(l, ChannelClosed, fails))
      case Done => Leaving(Flushing(l, Shutdown, fails))
  }

  function After(events: seq<Event>, o: Options, fails: Fails): Loop {
    if events == [] then START
    else Select(After(events[..|events| - 1], o, fails), events[|events| - 1], o, fails)
  }

  lemma {:induction false} ReturnedForGood(events: seq<Event>, i: nat, o: Options, fails: Fails)
    requires i <= |events| && !After(events[..i], o, fails).exit.Running?
    ensures After(events, o, fails) == After(events[..i], o, fails)
    decreases |events| - i
  {
    if i < |events| {
      assert events[..i + 1][..i] == events[..i];
      ReturnedForGood(events, i + 1, o, fails);
    } else {
      assert events[..i] == events;
    }
  }

  /** Runs until it returns or nothing more happens. */
  method ConsumeClaim(events: seq<Event>, o: Options, fails: Fails)
    returns (flushes: seq<Flush>, batch: seq<Message>, exit: Exit)
    ensures var l := After(events, o, fails);
      flushes == l.flushes && batch == l.batch && exit == l.exit
  {
    var bytes: nat := 0;
    flushes, batch, exit := [], [], Running;
    assert events[..0] == [];
    for i := 0 to |events|
      invariant exit == Running
      invariant Loop(batch, bytes, flushes, exit) == After(events[..i], o, fails)
    {
      assert events[..i + 1][..i] == events[..i];
      match events[i] {
        case Received(message) =>
          batch := batch + [message];
          bytes := bytes + |message.value|;
          if o.Full(|batch|, bytes) {
            var failed := fails(|flushes|);
            flushes := flushes + [Flush(batch, Trigger.Full)];
            batch, bytes := [], 0;
            if failed {
              ReturnedForGood(events, i + 1, o, fails);
              return flushes, batch, Returned(true);
            }
          }
        case Tick =>
          if |batch| > 0 {
            var failed := fails(|flushes|);
            flushes := flushes + [Flush(batch, MaxWait)];
            batch, bytes := [], 0;
            if failed {
              ReturnedForGood(events, i + 1, o, fails);
              return flushes, batch, Returned(true);
            }
          }
        case Closed =>
          exit := Returned(|batch| > 0 && fails(|flushes|));
          if |batch| > 0 {
            flushes := flushes + [Flush(batch, ChannelClosed)];
            batch := [];
          }
          ReturnedForGood(events, i + 1, o, fails);
          return;
        case Done =>
          exit := Returned(|batch| > 0 && fails(|flushes|));
          if |batch| > 0 {
            flushes := flushes + [Flush(batch, Shutdown)];
            batch := [];
          }
          ReturnedForGood(events, i + 1, o, fails);
          return;
      }
    }
    assert events[..|events|] == events;
  }

  // ----- What is flushed -----------------------------------------------------------------------

  /** The messages the loop took from the channel. */
  function Taken(events: seq<Event>, o: Options, fails: Fails): seq<Message> {
    if events == [] then []
    else
      var init, last := events[..|events| - 1], events[|events| - 1];
      Taken(init, o, fails) +
        (if last.Received? && After(init, o, fails).exit.Running? then [last.message] else [])
  }

  function Batches(flushes: seq<Flush>): seq<seq<Message>> {
    seq(|flushes|, i requires 0 <= i < |flushes| => flushes[i].messages)
  }

  function ValueBytes(batch: seq<Message>): nat {
    if batch == [] then 0
    else ValueBytes(batch[..|batch| - 1]) + |batch[|batch| - 1].value|
  }

  /** No prefix of the batch shorter than n was enough to flush. */
  predicate NoPrefixFull(batch: seq<Message>, n: nat, o: Options)
    requires n <= |batch| + 1
  {
    forall k :: 0 <= k < n ==> !o.Full(k, ValueBytes(batch[..k]))
  }

  /** A batch is flushed non-empty, and as soon as it is full. */
  predicate Timely(f: Flush, o: Options) {
    f.messages != [] && NoPrefixFull(f.messages, |f.messages|, o) &&
    (f.trigger == Trigger.Full <==> o.Full(|f.messages|, ValueBytes(f.messages)))
  }

  /** Only the last flush can have failed, and it is why the loop returned an error. */
  predicate StopsAtError(l: Loop, fails: Fails) {
    (forall k :: 0 <= k < |l.flushes| - 1 ==> !fails(k)) &&
    (l.exit == Returned(true) <==> l.flushes != [] && fails(|l.flushes| - 1))
  }

  predicate Sound(l: Loop, taken: seq<Message>, o: Options, fails: Fails) {
    Flatten(Batches(l.flushes)) + l.batch == taken &&
    l.bytes == ValueBytes(l.batch) &&
    NoPrefixFull(l.batch, |l.batch| + 1, o) &&
    (!l.exit.Running? ==> l.batch == []) &&
    (forall i :: 0 <= i < |l.flushes| ==> Timely(l.flushes[i], o)) &&
    StopsAtError(l, fails)
  }

  lemma FlushingSound(l: Loop, trigger: Trigger, taken: seq<Message>, o: Options, fails: Fails)
    requires l.exit.Running? && Flatten(Batches(l.flushes)) + l.batch == taken && l.bytes == ValueBytes(l.batch)
    requires l.batch != [] ==> NoPrefixFull(l.batch, |l.batch|, o)
    requires l.batch != [] ==> (trigger == Trigger.Full <==> o.Full(|l.batch|, l.bytes))
    requires (forall i :: 0 <= i < |l.flushes| ==> Timely(l.flushes[i], o)) && StopsAtError(l, fails)
    ensures Sound(Flushing(l, trigger, fails), taken, o, fails)
    ensures Flushing(l, trigger, fails).batch == []
  {
    hide Flatten;
    if l.batch != [] {
      var next := Flushing(l, trigger, fails);
      assert Batches(next.flushes) == Batches(l.flushes) + [l.batch];
      FlattenSnoc(Batches(l.flushes), l.batch);
      assert taken + [] == taken;
    }
  }

  lemma ReceivedSound(l: Loop, m: Message, taken: seq<Message>, o: Options, fails: Fails)
    requires Sound(l, taken, o, fails) && l.exit.Running?
    ensures Sound(Select(l, Received(m), o, fails), taken + [m], o, fails)
  {
    hide Flatten, Timely, Batches, ValueBytes, NoPrefixFull;
    var grown := l.(batch := l.batch + [m], bytes := l.bytes + |m.value|);
    GrownBatch(l.batch, m, o);
    assert Flatten(Batches(l.flushes)) + grown.batch == taken + [m];
    if o.Full(|grown.batch|, grown.bytes) {
      FlushingSound(grown, Trigger.Full, taken + [m], o, fails);
    }
  }

  lemma GrownBatch(batch: seq<Message>, m: Message, o: Options)
    requires NoPrefixFull(batch, |batch| + 1, o)
    ensures var grown := batch + [m];
      ValueBytes(grown) == ValueBytes(batch) + |m.value| && NoPrefixFull(grown, |grown|, o) &&
      (!o.Full(|grown|, ValueBytes(grown)) ==> NoPrefixFull(grown, |grown| + 1, o))
  {
    var grown := batch + [m];
    assert grown[..|batch|] == batch && grown[..|grown|] == grown;
    forall k | 0 <= k < |grown| ensures !o.Full(k, ValueBytes(grown[..k])) {
      assert grown[..k] == batch[..k];
    }
  }

  lemma NotFullBatch(l: Loop, taken: seq<Message>, o: Options, fails: Fails)
    requires Sound(l, taken, o, fails)
    ensures !o.Full(|l.batch|, l.bytes)
  {
    assert l.batch[..|l.batch|] == l.batch;
  }

  lemma NoShorterPrefixFull(batch: seq<Message>, o: Options)
    requires NoPrefixFull(batch, |batch| + 1, o)
    ensures NoPrefixFull(batch, |batch|, o)
  {
  }

  lemma SelectSound(l: Loop, e: Event, taken: seq<Message>, o: Options, fails: Fails)
    requires Sound(l, taken, o, fails) && l.exit.Running?
    ensures Sound(Select(l, e, o, fails), taken + (if e.Received? then [e.message] else []), o, fails)
  {
    hide Flatten, Timely, NoPrefixFull, ValueBytes, Batches;
    if e.Received? {
      hide Sound;
      ReceivedSound(l, e.message, taken, o, fails);
    } else {
      assert taken + [] == taken;
      NotFullBatch(l, taken, o, fails);
      NoShorterPrefixFull(l.batch, o);
      FlushingSound(l, if e.Tick? then MaxWait else if e.Closed? then ChannelClosed else Shutdown, taken, o, fails);
    }
  }

  /** For every interleaving of messages, ticks, shutdown and handler errors: the flushed
      batches followed by the pending one are the messages taken, each once and in order; when
      the loop has returned nothing is pending; the byte counter is the pending batch's; every
      batch is non-empty, and flushed as soon as it is full and not before; and the loop stops
      at the first flush that fails. */
  lemma {:induction false} EveryMessageFlushedOnce(events: seq<Event>, o: Options, fails: Fails)
    ensures Sound(After(events, o, fails), Taken(events, o, fails), o, fails)
    decreases |events|
  {
    if events == [] {
      FlattenNothing<Message>();
    } else {
      var init, last := events[..|events| - 1], events[|events| - 1];
      EveryMessageFlushedOnce(init, o, fails);
      hide Sound;
      if After(init, o, fails).exit.Running? {
        SelectSound(After(init, o, fails), last, Taken(init, o, fails), o, fails);
      } else {
        assert Taken(init, o, fails) + [] == Taken(init, o, fails);
      }
    }
  }

  /** A tick, the end of the session and the closing of the channel each leave nothing
      pending. */
  lemma NothingHeldPast(events: seq<Event>, o: Options, fails: Fails)
    requires events != [] && !events[|events| - 1].Received?
    ensures After(events, o, fails).batch == []
    ensures !events[|events| - 1].Tick? ==> !After(events, o, fails).exit.Running?
  {
    hide Flatten;
    EveryMessageFlushedOnce(events[..|events| - 1], o, fails);
  }

  // ----- The limits, in numbers -----------------------------------------------------------------

  /** A batch as long as the record limit allows or heavy as the byte limit allows. */
  predicate ReachesLimit(batch: seq<Message>, o: Options) {
    (o.maxRecords > 0 && |batch| == o.maxRecords) || (o.maxBytes > 0 && ValueBytes(batch) >= o.maxBytes)
  }

  /** No shorter beginning of it is. */
  predicate StaysBelow(batch: seq<Message>, n: nat, o: Options)
    requires n <= |batch| + 1
  {
    (o.maxRecords > 0 ==> n <= o.maxRecords) &&
    (o.maxBytes > 0 ==> forall k :: 0 <= k < n ==> ValueBytes(batch[..k]) < o.maxBytes)
  }

  /** On every list of events: no batch outgrows the record limit, and none has reached the byte
      limit before its last message; what is pending is below both; and a batch is flushed as full
      exactly when it has reached one of them. Without limits nothing is. */
  lemma LimitsAreKept(events: seq<Event>, o: Options, fails: Fails)
    ensures var l := After(events, o, fails);
      (forall i :: 0 <= i < |l.flushes| ==>
        StaysBelow(l.flushes[i].messages, |l.flushes[i].messages|, o) &&
        (l.flushes[i].trigger == Trigger.Full <==> ReachesLimit(l.flushes[i].messages, o))) &&
      StaysBelow(l.batch, |l.batch| + 1, o)
  {
    hide Flatten, ValueBytes, After, Taken;
    EveryMessageFlushedOnce(events, o, fails);
    var l := After(events, o, fails);
    forall i | 0 <= i < |l.flushes|
      ensures StaysBelow(l.flushes[i].messages, |l.flushes[i].messages|, o)
      ensures l.flushes[i].trigger == Trigger.Full <==> ReachesLimit(l.flushes[i].messages, o)
    {
      assert Timely(l.flushes[i], o);
      BelowLimits(l.flushes[i].messages, |l.flushes[i].messages|, o);
    }
    BelowLimits(l.batch, |l.batch| + 1, o);
  }

  lemma BelowLimits(batch: seq<Message>, n: nat, o: Options)
    requires n <= |batch| + 1 && NoPrefixFull(batch, n, o)
    ensures StaysBelow(batch, n, o)
  {
    hide ValueBytes;
    if n > 0 { assert !o.Full(n - 1, ValueBytes(batch[..n - 1])); }
  }

  /** A flush says what made it: the timer, the closed channel and the end of the session each
      flush what is pending under their own name, and a message only a batch that is full. */
  lemma TriggerSaysWhy(events: seq<Event>, o: Options, fails: Fails)
    requires events != []
    ensures var before, after := After(events[..|events| - 1], o, fails), After(events, o, fails);
      before.exit.Running? && |after.flushes| > |before.flushes| ==>
        |after.flushes| == |before.flushes| + 1 && after.flushes[..|before.flushes|] == before.flushes &&
        match events[|events| - 1]
        case Received(m) =>
          after.flushes[|before.flushes|] == Flush(before.batch + [m], Trigger.Full)
        case Tick => after.flushes[|before.flushes|] == Flush(before.batch, MaxWait)
        case Closed => after.flushes[|before.flushes|] == Flush(before.batch, ChannelClosed)
        case Done => after.flushes[|before.flushes|] == Flush(before.batch, Shutdown)
  {
    hide Options.Full;
  }
}
