/** The life of the spans of one batch (Batch in contrib/sarama/batch.go), for an enabled
    client. What the handler does is an arbitrary script of ContextFor and Each calls, nested
    as deep as it likes, in which any function may return, fail or panic, and may recover a
    panic of an Each it called. */
module BatchSpans {
  import opened Bytes
  import opened Tracing
  import opened Traceparent
  import opened Consume
  import Carrier

  datatype Policy = OnDemand | Always | Never

  /** The fields of a Batch, and the recorder behind its client: `ended` and `failed` hold the
      numbers of the spans that have ended and been marked failed, `recorded` the spans that were
      recorded, in order. `owners`
      names the message each span was minted for; `base` is the number of the first one. */
  datatype State = State(
    policy: Policy, messages: seq<Option<Message>>, parent: Context, ctx: Context, span: Option<Span>,
    open: Option<Span>, openMessage: Option<Message>, contexts: map<Message, Context>,
    spans: seq<Span>, traced: nat,
    next: nat, ended: set<Option<nat>>, recorded: seq<Span>, failed: set<Option<nat>>,
    owners: seq<Message>, base: nat)

  /** What newBatch leaves behind: the batch so far, and whether it panicked. */
  datatype Opening = Opening(batch: State, panicked: bool)

  /** newBatch: the batch span is the n-th span, unless there is nothing to time. The first
      message is read before that span starts and the last one after, and a nil one panics. */
  function NewBatch(policy: Policy, messages: seq<Option<Message>>, ctx: Context, ids: Ids, n: nat): Opening {
    if messages == [] || messages[0].None? then
      Opening(State(policy, messages, ctx, ctx, None, None, None, map[], [], 0, n, {}, [], {}, [], n), messages != [])
    else
      var (inner, span) := StartSpan(ctx, ids, n);
      Opening(State(policy, messages, ctx, inner, Some(span), None, None, map[], [], 0, n + 1, {}, [], {}, [], n + 1),
              messages[|messages| - 1].None?)
  }

  // ----- The methods as functions -----------------------------------------------------------

  /** Span.End: the first time, the span is recorded. */
  function Ended(b: State, span: Option<Span>): State {
    if span.None? || span.value.number in b.ended then b
    else b.(ended := b.ended + {span.value.number}, recorded := b.recorded + [span.value])
  }

  function Failed(b: State, span: Option<Span>): State {
    if span.None? then b else b.(failed := b.failed + {span.value.number})
  }

  function Minted(b: State, m: Message, ids: Ids): State {
    var (ctx, span) := Carrier.StartProcessSpan(b.parent, m.headers, ids, b.next);
    b.(contexts := b.contexts[m := ctx], spans := b.spans + [span], traced := b.traced + 1,
       next := b.next + 1, owners := b.owners + [m])
  }

  /** start: the span of a message, minted the first time it is asked for. */
  function Started(b: State, m: Message, ids: Ids): State {
    if m in b.contexts then b else Minted(b, m, ids)
  }

  function SpanOf(b: State, m: Message): Option<Span> {
    if m in b.contexts then SpanFromContext(b.contexts[m]) else None
  }

  function Closing(b: State, m: Message): State {
    if b.openMessage != Some(m) then Ended(b, b.open).(open := None, openMessage := None) else b
  }

  /** ContextFor: the context handed back, and the batch after it. */
  function Asked(b: State, message: Option<Message>, ids: Ids): (State, Context) {
    if message.None? then (b, b.ctx)
    else
      var m := message.value;
      if m in b.contexts then (b, b.contexts[m])
      else if b.policy == Never then (b, b.ctx)
      else
        var s := Started(Closing(b, m), m, ids);
        (s.(open := SpanOf(s, m), openMessage := Some(m)), s.contexts[m])
  }

  /** The part of `each` before the handler's function runs, and the span it is to end. */
  function Entered(b: State, m: Message, ids: Ids): (State, Option<Span>) {
    if b.policy == Never then (b, None)
    else
      var s := Started(if b.openMessage == Some(m) then b.(open := None, openMessage := None) else b, m, ids);
      (s, SpanOf(s, m))
  }

  datatype Outcome = Return | Error | Panic

  /** The part of `each` after it, on every exit. */
  function Left(b: State, span: Option<Span>, outcome: Outcome): State {
    Ended(if outcome == Error then Failed(b, span) else b, span)
  }

  function EndedAll(b: State, spans: seq<Span>): State
    decreases |spans|
  {
    if spans == [] then b else EndedAll(Ended(b, Some(spans[0])), spans[1..])
  }

  /** end: every span still open, and then the batch span. */
  function Finished(b: State): State {
    Ended(EndedAll(b, b.spans).(open := None, openMessage := None), b.span)
  }

  function StartedAll(b: State, messages: seq<Option<Message>>, ids: Ids): State
    decreases |messages|
  {
    if messages == [] then b
    else StartedAll(if messages[0].Some? then Started(b, messages[0].value, ids) else b, messages[1..], ids)
  }

  // ----- What a handler may do -----------------------------------------------------------------

  /** Each takes the function's behaviour at each message it visits, in turn; a function that
      has none left returns at once. */
  datatype Action = ContextFor(message: Option<Message>) | Each(bodies: seq<Body>, recovers: bool)

  datatype Body = Body(actions: seq<Action>, outcome: Outcome)

  /** The actions in turn, until a panic nobody recovers. */
  function RunActions(b: State, actions: seq<Action>, ids: Ids): (State, bool)
    decreases actions, 0, 0
  {
    if actions == [] then (b, false)
    else
      var (b1, panicked) := RunAction(b, actions[0], ids);
      if panicked then (b1, true) else RunActions(b1, actions[1..], ids)
  }

  function RunAction(b: State, a: Action, ids: Ids): (State, bool)
    decreases a, 1, 0
  {
    match a
    case ContextFor(message) => (Asked(b, message, ids).0, false)
    case Each(bodies, recovers) =>
      var (b1, outcome) := RunEach(b, b.messages, bodies, ids);
      (b1, outcome == Panic && !recovers)
  }

  function RunBody(b: State, body: Body, ids: Ids): (State, Outcome)
    decreases body, 1, 0
  {
    var (b1, panicked) := RunActions(b, body.actions, ids);
    (b1, if panicked then Panic else body.outcome)
  }

  /** Each over the messages left, stopping at the first error or panic. */
  function RunEach(b: State, messages: seq<Option<Message>>, bodies: seq<Body>, ids: Ids): (State, Outcome)
    decreases bodies, 2, |messages|
  {
    if messages == [] then (b, Return)
    else if messages[0].None? then RunEach(b, messages[1..], bodies, ids)
    else
      var (entered, span) := Entered(b, messages[0].value, ids);
      if bodies == [] then RunEach(Left(entered, span, Return), messages[1..], bodies, ids)
      else
        var (b1, outcome) := RunBody(entered, bodies[0], ids);
        var b2 := Left(b1, span, outcome);
        if outcome == Return then RunEach(b2, messages[1..], bodies[1..], ids) else (b2, outcome)
  }

  /** run: the handler under the batch span, with everything closed on every exit. */
  function Processed(b: State, handler: Body, ids: Ids): (State, Outcome) {
    var b0 := if b.policy == Always then StartedAll(b, b.messages, ids) else b;
    var (b1, outcome) := RunBody(b0, handler, ids);
    (Finished(if outcome == Return then b1 else Failed(b1, b1.span)), outcome)
  }

  /** ProcessBatch: newBatch and run. */
  function ProcessBatch(
    policy: Policy, messages: seq<Option<Message>>, ctx: Context, ids: Ids, n: nat, handler: Body): (State, Outcome)
  {
    var opening := NewBatch(policy, messages, ctx, ids, n);
    if opening.panicked then (opening.batch, Panic) else Processed(opening.batch, handler, ids)
  }

  // ----- What every call keeps -----------------------------------------------------------------

  function NumbersOf(spans: seq<Span>): set<Option<nat>> {
    set span | span in spans :: span.number
  }

  predicate DistinctNumbers(spans: seq<Span>) {
    forall i, j :: 0 <= i < j < |spans| ==> spans[i].number != spans[j].number
  }

  /** One span a message: the i-th message asked for has the i-th span, started under its own
      headers and the context the flush was handed, and nothing else has a context. */
  ghost predicate Paired(
    owners: seq<Message>, contexts: map<Message, Context>, spans: seq<Span>, parent: Context, base: nat, ids: Ids)
  {
    |owners| == |spans| == |contexts| && Distinct(owners) && contexts.Keys == MessageSet(owners) &&
    EachStarted(owners, contexts, spans, parent, base, ids)
  }

  ghost predicate EachStarted(
    owners: seq<Message>, contexts: map<Message, Context>, spans: seq<Span>, parent: Context, base: nat, ids: Ids)
  {
    |owners| == |spans| &&
    forall i :: 0 <= i < |owners| ==>
      (owners[i] in contexts && StartedFor(owners[i], contexts[owners[i]], spans[i], parent, base + i, ids))
  }

  function MessageSet(messages: seq<Message>): (s: set<Message>)
    ensures forall m :: m in messages <==> m in s
  {
    set m | m in messages
  }

  ghost predicate StartedFor(m: Message, ctx: Context, span: Span, parent: Context, n: nat, ids: Ids) {
    (ctx, span) == Carrier.StartProcessSpan(parent, m.headers, ids, n)
  }

  ghost predicate OneSpanEach(b: State, ids: Ids) {
    Paired(b.owners, b.contexts, b.spans, b.parent, b.base, ids) &&
    b.traced == |b.spans| && b.next == b.base + |b.spans| &&
    (b.span.Some? ==> b.base > 0 && b.span.value.number == Some(b.base - 1))
  }

  /** A span is recorded when it ends, once; until the end of the run these are message spans,
      and so are those marked failed. */
  predicate RecordedOnce(b: State) {
    DistinctNumbers(b.recorded) && b.ended == NumbersOf(b.recorded) &&
    (forall span :: span in b.recorded ==> span in b.spans) &&
    b.failed <= NumbersOf(b.spans)
  }

  /** The span that is open is that of the message it was opened for. */
  predicate OpenIsItsMessages(b: State) {
    b.open.Some? ==> b.open.value in b.spans && b.openMessage.Some? && SpanOf(b, b.openMessage.value) == b.open
  }

  ghost predicate Valid(b: State, ids: Ids) {
    OneSpanEach(b, ids) && RecordedOnce(b) && OpenIsItsMessages(b) &&
    (b.policy == Never ==> b.spans == [])
  }

  /** A context once handed out stays the message's, and a span once recorded stays recorded. */
  predicate Later(b: State, after: State) {
    b.policy == after.policy && b.messages == after.messages && b.parent == after.parent && b.ctx == after.ctx &&
    b.span == after.span && b.base == after.base && b.spans <= after.spans && b.recorded <= after.recorded &&
    b.ended <= after.ended &&
    forall m :: m in b.contexts ==> m in after.contexts && after.contexts[m] == b.contexts[m]
  }

  ghost predicate Step(b: State, after: State, ids: Ids) {
    Valid(after, ids) && Later(b, after)
  }

  lemma NewBatchValid(policy: Policy, messages: seq<Option<Message>>, ctx: Context, ids: Ids, n: nat)
    ensures Valid(NewBatch(policy, messages, ctx, ids, n).batch, ids)
  {
  }

  lemma SameMinting(b: State, after: State, ids: Ids)
    requires OneSpanEach(b, ids)
    requires after.(open := b.open, openMessage := b.openMessage, ended := b.ended, recorded := b.recorded, failed := b.failed) == b
    ensures OneSpanEach(after, ids)
  {
  }

  lemma RecordedSnoc(recorded: seq<Span>, span: Span)
    requires DistinctNumbers(recorded) && span.number !in NumbersOf(recorded)
    ensures DistinctNumbers(recorded + [span])
    ensures NumbersOf(recorded + [span]) == NumbersOf(recorded) + {span.number}
  {
    var r := recorded + [span];
    assert forall i :: 0 <= i < |recorded| ==> recorded[i] in recorded && recorded[i].number in NumbersOf(recorded);
    assert span in r;
    assert forall x :: x in recorded ==> x in r;
  }

  lemma EndedStep(b: State, span: Option<Span>, ids: Ids)
    requires Valid(b, ids) && (span.Some? ==> span.value in b.spans)
    ensures Step(b, Ended(b, span), ids)
    ensures span.Some? ==> span.value.number in Ended(b, span).ended
  {
    hide OneSpanEach, DistinctNumbers, NumbersOf;
    if span.Some? && span.value.number !in b.ended {
      RecordedSnoc(b.recorded, span.value);
    }
    SameMinting(b, Ended(b, span), ids);
  }

  lemma MessagesSnoc(owners: seq<Message>, m: Message)
    requires Distinct(owners) && m !in owners
    ensures Distinct(owners + [m])
    ensures MessageSet(owners + [m]) == MessageSet(owners) + {m}
  {
    assert forall n :: n in owners + [m] <==> n in owners || n == m;
  }

  lemma OneMoreKey(contexts: map<Message, Context>, m: Message, ctx: Context)
    requires m !in contexts
    ensures var after := contexts[m := ctx]; after.Keys == contexts.Keys + {m} && |after| == |contexts| + 1
  {
    var after := contexts[m := ctx];
    assert after.Keys == contexts.Keys + {m};
    assert |after| == |after.Keys| && |contexts| == |contexts.Keys|;
  }

  lemma PairedSnoc(
    owners: seq<Message>, contexts: map<Message, Context>, spans: seq<Span>, parent: Context, base: nat, ids: Ids,
    m: Message, ctx: Context, span: Span)
    requires Paired(owners, contexts, spans, parent, base, ids) && m !in contexts
    requires StartedFor(m, ctx, span, parent, base + |spans|, ids)
    ensures Paired(owners + [m], contexts[m := ctx], spans + [span], parent, base, ids)
  {
    hide StartedFor, Distinct, MessageSet, EachStarted;
    MessagesSnoc(owners, m);
    OneMoreKey(contexts, m, ctx);
    StartedSnoc(owners, contexts, spans, parent, base, ids, m, ctx, span);
  }

  lemma StartedSnoc(
    owners: seq<Message>, contexts: map<Message, Context>, spans: seq<Span>, parent: Context, base: nat, ids: Ids,
    m: Message, ctx: Context, span: Span)
    requires EachStarted(owners, contexts, spans, parent, base, ids) && m !in contexts
    requires StartedFor(m, ctx, span, parent, base + |spans|, ids)
    ensures EachStarted(owners + [m], contexts[m := ctx], spans + [span], parent, base, ids)
  {
    hide StartedFor;
  }

  lemma NumbersOfPrefix(a: seq<Span>, b: seq<Span>)
    requires a <= b
    ensures NumbersOf(a) <= NumbersOf(b)
  {
    assert forall x :: x in a ==> x in b;
  }

  lemma MintedStep(b: State, m: Message, ids: Ids)
    requires Valid(b, ids) && m !in b.contexts && b.policy != Never
    ensures Step(b, Minted(b, m, ids), ids)
  {
    hide DistinctNumbers, NumbersOf, Paired, Carrier.StartProcessSpan;
    var (ctx, span) := Carrier.StartProcessSpan(b.parent, m.headers, ids, b.next);
    PairedSnoc(b.owners, b.contexts, b.spans, b.parent, b.base, ids, m, ctx, span);
    NumbersOfPrefix(b.spans, b.spans + [span]);
  }

  lemma StartedStep(b: State, m: Message, ids: Ids)
    requires Valid(b, ids) && b.policy != Never
    ensures Step(b, Started(b, m, ids), ids)
    ensures m in Started(b, m, ids).contexts
    ensures var span := SpanOf(Started(b, m, ids), m); span.Some? && span.value in Started(b, m, ids).spans
  {
    if m !in b.contexts { MintedStep(b, m, ids); }
    SpanOfMessage(Started(b, m, ids), m, ids);
  }

  lemma SpanOfMessage(b: State, m: Message, ids: Ids)
    requires Valid(b, ids)
    ensures m in b.contexts ==> SpanOf(b, m).Some?
    ensures SpanOf(b, m).Some? ==> SpanOf(b, m).value in b.spans
  {
    hide Carrier.StartProcessSpan;
    if m in b.contexts {
      var i :| 0 <= i < |b.owners| && b.owners[i] == m;
      assert b.spans[i] in b.spans;
    }
  }

  lemma FailedStep(b: State, span: Option<Span>, ids: Ids)
    requires Valid(b, ids) && (span.Some? ==> span.value in b.spans)
    ensures Step(b, Failed(b, span), ids)
  {
    hide OneSpanEach, DistinctNumbers;
    SameMinting(b, Failed(b, span), ids);
  }

  lemma ReopenedStep(b: State, open: Option<Span>, openMessage: Option<Message>, ids: Ids)
    requires Valid(b, ids) && OpenIsItsMessages(b.(open := open, openMessage := openMessage))
    ensures Step(b, b.(open := open, openMessage := openMessage), ids)
  {
    hide OneSpanEach, DistinctNumbers, NumbersOf;
    SameMinting(b, b.(open := open, openMessage := openMessage), ids);
  }

  lemma ClosingStep(b: State, m: Message, ids: Ids)
    requires Valid(b, ids)
    ensures Step(b, Closing(b, m), ids)
  {
    hide OneSpanEach, RecordedOnce, Ended;
    if b.openMessage != Some(m) {
      EndedStep(b, b.open, ids);
      ReopenedStep(Ended(b, b.open), None, None, ids);
    }
  }

  lemma AskedStep(b: State, message: Option<Message>, ids: Ids)
    requires Valid(b, ids)
    ensures Step(b, Asked(b, message, ids).0, ids)
  {
    hide OneSpanEach, RecordedOnce, Started, SpanFromContext, Closing;
    if message.Some? && message.value !in b.contexts && b.policy != Never {
      var m := message.value;
      ClosingStep(b, m, ids);
      var s := Started(Closing(b, m), m, ids);
      StartedStep(Closing(b, m), m, ids);
      ReopenedStep(s, SpanOf(s, m), Some(m), ids);
    }
  }

  lemma EnteredStep(b: State, m: Message, ids: Ids)
    requires Valid(b, ids)
    ensures var (after, span) := Entered(b, m, ids);
      Step(b, after, ids) &&
      (span.Some? ==> span.value in after.spans) &&
      (b.policy != Never ==> span.Some? && SpanOf(after, m) == span)
  {
    hide OneSpanEach, RecordedOnce, Started, SpanOf;
    if b.policy != Never {
      ReopenedStep(b, None, None, ids);
      StartedStep(if b.openMessage == Some(m) then b.(open := None, openMessage := None) else b, m, ids);
    }
  }

  /** On every exit of the handler's function the message's span ends. */
  lemma LeftStep(b: State, span: Option<Span>, outcome: Outcome, ids: Ids)
    requires Valid(b, ids) && (span.Some? ==> span.value in b.spans)
    ensures Step(b, Left(b, span, outcome), ids)
    ensures span.Some? ==> span.value.number in Left(b, span, outcome).ended
  {
    hide OneSpanEach, RecordedOnce;
    FailedStep(b, span, ids);
    EndedStep(if outcome == Error then Failed(b, span) else b, span, ids);
  }

  predicate SpanEnded(b: State, m: Message) {
    SpanOf(b, m).Some? && SpanOf(b, m).value.number in b.ended
  }

  lemma {:induction false} ActionsStep(b: State, actions: seq<Action>, ids: Ids)
    requires Valid(b, ids)
    ensures Step(b, RunActions(b, actions, ids).0, ids)
    decreases actions, 0, 0
  {
    hide OneSpanEach, RecordedOnce, RunAction;
    if actions != [] {
      var (b1, panicked) := RunAction(b, actions[0], ids);
      ActionStep(b, actions[0], ids);
      if !panicked {
        ActionsStep(b1, actions[1..], ids);
      }
    }
  }

  lemma {:induction false} ActionStep(b: State, a: Action, ids: Ids)
    requires Valid(b, ids)
    ensures Step(b, RunAction(b, a, ids).0, ids)
    decreases a, 1, 0
  {
    hide Valid, Later;
    match a
    case ContextFor(message) => AskedStep(b, message, ids);
    case Each(bodies, _) => EachStep(b, b.messages, bodies, ids);
  }

  lemma {:induction false} BodyStep(b: State, body: Body, ids: Ids)
    requires Valid(b, ids)
    ensures Step(b, RunBody(b, body, ids).0, ids)
    decreases body, 1, 0
  {
    hide Valid, Later;
    ActionsStep(b, body.actions, ids);
  }

  /** An Each that finishes has ended the span of every message of the batch. */
  lemma {:induction false} EachStep(b: State, messages: seq<Option<Message>>, bodies: seq<Body>, ids: Ids)
    requires Valid(b, ids)
    ensures Step(b, RunEach(b, messages, bodies, ids).0, ids)
    ensures var (after, outcome) := RunEach(b, messages, bodies, ids);
      b.policy != Never && outcome == Return ==>
        forall m :: Some(m) in messages ==> SpanEnded(after, m)
    decreases bodies, 2, |messages|
  {
    hide OneSpanEach, RecordedOnce, Entered, Left, SpanOf, RunBody;
    if messages != [] {
      if messages[0].None? {
        EachStep(b, messages[1..], bodies, ids);
      } else {
        var m := messages[0].value;
        var (entered, span) := Entered(b, m, ids);
        EnteredStep(b, m, ids);
        if bodies == [] {
          LeftStep(entered, span, Return, ids);
          SpanKept(entered, Left(entered, span, Return), m);
          EachRest(b, Left(entered, span, Return), messages, bodies, ids);
        } else {
          var (b1, outcome) := RunBody(entered, bodies[0], ids);
          BodyStep(entered, bodies[0], ids);
          LeftStep(b1, span, outcome, ids);
          SpanKept(entered, Left(b1, span, outcome), m);
          if outcome == Return {
            EachRest(b, Left(b1, span, outcome), messages, bodies[1..], ids);
          }
        }
      }
    }
  }

  lemma SpanKept(b: State, after: State, m: Message)
    requires Later(b, after)
    ensures SpanOf(b, m).Some? ==> SpanOf(after, m) == SpanOf(b, m)
  {
  }

  lemma {:induction false} EachRest(b: State, b1: State, messages: seq<Option<Message>>, bodies: seq<Body>, ids: Ids)
    requires Valid(b1, ids) && Later(b, b1)
    requires messages != [] && messages[0].Some? && (b1.policy != Never ==> SpanEnded(b1, messages[0].value))
    ensures var (after, outcome) := RunEach(b1, messages[1..], bodies, ids);
      Step(b, after, ids) &&
      (b.policy != Never && outcome == Return ==> forall m :: Some(m) in messages ==> SpanEnded(after, m))
    decreases bodies, 2, |messages|, 0
  {
    hide OneSpanEach, RecordedOnce, RunEach;
    EachStep(b1, messages[1..], bodies, ids);
  }

  // ----- The whole run --------------------------------------------------------------------------

  lemma {:induction false} EndedAllStep(b: State, spans: seq<Span>, ids: Ids)
    requires Valid(b, ids) && forall span :: span in spans ==> span in b.spans
    ensures Step(b, EndedAll(b, spans), ids)
    ensures forall span :: span in spans ==> span.number in EndedAll(b, spans).ended
    ensures EndedAll(b, spans).(recorded := b.recorded, ended := b.ended) == b
    decreases |spans|
  {
    hide OneSpanEach, RecordedOnce;
    if spans != [] {
      EndedStep(b, Some(spans[0]), ids);
      EndedAllStep(Ended(b, Some(spans[0])), spans[1..], ids);
    }
  }

  lemma {:induction false} StartedAllStep(b: State, messages: seq<Option<Message>>, ids: Ids)
    requires Valid(b, ids) && b.policy != Never
    ensures Step(b, StartedAll(b, messages, ids), ids)
    ensures forall m :: Some(m) in messages ==> m in StartedAll(b, messages, ids).contexts
    decreases |messages|
  {
    hide OneSpanEach, RecordedOnce, Started;
    if messages != [] {
      var b1 := if messages[0].Some? then Started(b, messages[0].value, ids) else b;
      if messages[0].Some? { StartedStep(b, messages[0].value, ids); }
      StartedAllStep(b1, messages[1..], ids);
    }
  }

  /** The batch when the handler has returned or panicked, before everything is closed. */
  function Handled(b: State, handler: Body, ids: Ids): (State, Outcome) {
    RunBody(if b.policy == Always then StartedAll(b, b.messages, ids) else b, handler, ids)
  }

  lemma HandledStep(b: State, handler: Body, ids: Ids)
    requires Valid(b, ids)
    ensures Step(b, Handled(b, handler, ids).0, ids)
    ensures b.policy == Always ==> forall m :: Some(m) in b.messages ==> m in Handled(b, handler, ids).0.contexts
  {
    hide OneSpanEach, RecordedOnce, RunBody;
    var b0 := if b.policy == Always then StartedAll(b, b.messages, ids) else b;
    if b.policy == Always { StartedAllStep(b, b.messages, ids); }
    BodyStep(b0, handler, ids);
  }

  predicate Numbered(spans: seq<Span>, base: nat) {
    forall i :: 0 <= i < |spans| ==> spans[i].number == Some(base + i)
  }

  lemma SpansNumbered(b: State, ids: Ids)
    requires OneSpanEach(b, ids)
    ensures Numbered(b.spans, b.base)
  {
    hide Carrier.StartProcessSpan, Distinct;
  }

  /** No two spans of the batch are the same, nor is the batch span one of the messages'. */
  lemma SpansDiffer(b: State, ids: Ids)
    requires OneSpanEach(b, ids)
    ensures DistinctNumbers(b.spans)
    ensures b.span.Some? ==> b.span.value.number !in NumbersOf(b.spans)
  {
    hide Paired;
    SpansNumbered(b, ids);
  }

  lemma {:induction false} NoRepeats(spans: seq<Span>, span: Span)
    requires DistinctNumbers(spans)
    ensures multiset(spans)[span] == if span in spans then 1 else 0
  {
    if spans != [] {
      var init, last := spans[..|spans| - 1], spans[|spans| - 1];
      assert spans == init + [last];
      NoRepeats(init, span);
      assert last !in init;
    }
  }

  /** Every message span exactly once, and then the batch span if there is one. */
  predicate AllRecorded(b: State) {
    if b.span.None? then multiset(b.recorded) == multiset(b.spans)
    else b.recorded != [] && b.span == Some(b.recorded[|b.recorded| - 1]) &&
         multiset(b.recorded[..|b.recorded| - 1]) == multiset(b.spans)
  }

  /** No message has two spans, and the traced count is that of the spans and of the contexts. */
  ghost predicate OneTracePerMessage(b: State) {
    Distinct(b.owners) && b.contexts.Keys == MessageSet(b.owners) &&
    b.traced == |b.contexts| == |b.spans| == |b.owners|
  }

  lemma FinishedRecords(b: State, ids: Ids)
    requires Valid(b, ids)
    ensures AllRecorded(Finished(b))
    ensures Finished(b).(recorded := b.recorded, ended := b.ended, open := b.open, openMessage := b.openMessage) == b
    ensures Finished(b).open.None?
  {
    hide OneSpanEach;
    EndedAllStep(b, b.spans, ids);
    SpansDiffer(b, ids);
    var e := EndedAll(b, b.spans);
    EachRecordedOnce(e);
    if b.span.Some? {
      EndedWithin(e);
      assert Finished(b).recorded[..|e.recorded|] == e.recorded;
    }
  }

  lemma EndedWithin(b: State)
    requires RecordedOnce(b)
    ensures b.ended <= NumbersOf(b.spans)
  {
  }

  lemma EachRecordedOnce(b: State)
    requires RecordedOnce(b) && DistinctNumbers(b.spans)
    requires forall span :: span in b.spans ==> span.number in b.ended
    ensures multiset(b.recorded) == multiset(b.spans)
  {
    forall span ensures multiset(b.recorded)[span] == multiset(b.spans)[span] {
      NoRepeats(b.recorded, span);
      NoRepeats(b.spans, span);
    }
  }

  lemma {:induction false} EndedAllFailed(b: State, spans: seq<Span>, failed: set<Option<nat>>)
    ensures EndedAll(b.(failed := failed), spans) == EndedAll(b, spans).(failed := failed)
    decreases |spans|
  {
    if spans != [] {
      EndedAllFailed(Ended(b, Some(spans[0])), spans[1..], failed);
    }
  }

  lemma RunEnds(b: State, outcome: Outcome, ids: Ids)
    requires Valid(b, ids)
    ensures var f := Finished(if outcome == Return then b else Failed(b, b.span));
      AllRecorded(f) && OneTracePerMessage(f) && f.open.None? &&
      f.contexts == b.contexts && f.spans == b.spans && f.span == b.span &&
      (b.span.Some? ==> (b.span.value.number in f.failed <==> outcome != Return))
  {
    hide EndedAll, Paired, DistinctNumbers;
    var failed := Failed(b, b.span).failed;
    assert Paired(b.owners, b.contexts, b.spans, b.parent, b.base, ids);
    MessagesOnce(b, ids);
    FinishedRecords(b, ids);
    SpansDiffer(b, ids);
    EndedAllFailed(b, b.spans, failed);
  }

  lemma MessagesOnce(b: State, ids: Ids)
    requires OneSpanEach(b, ids)
    ensures OneTracePerMessage(b)
  {
    hide Carrier.StartProcessSpan, Distinct, StartedFor;
  }

  /** newBatch reads a message that is there at both ends. */
  predicate Opens(messages: seq<Option<Message>>) {
    messages == [] || (messages[0].Some? && messages[|messages| - 1].Some?)
  }

  /** The batch span starts and nobody is left to end it: the first message is there and the
      last is nil. */
  predicate LosesBatchSpan(messages: seq<Option<Message>>) {
    messages != [] && messages[0].Some? && messages[|messages| - 1].None?
  }

  /** Whatever the policy, the handler and the way it ends: every message span is recorded
      exactly once and then the batch span - unless newBatch panics on a nil last message, which
      is the only way to lose one. No message has two spans, and the traced count is the number
      of spans and of contexts. The batch span is marked failed exactly when the handler did not
      return in peace, and a batch that does not open panics before the handler runs. */
  lemma RunRecordsEverySpan(policy: Policy, messages: seq<Option<Message>>, ctx: Context, ids: Ids, n: nat, handler: Body)
    ensures var (b, outcome) := ProcessBatch(policy, messages, ctx, ids, n, handler);
      (AllRecorded(b) <==> !LosesBatchSpan(messages)) &&
      OneTracePerMessage(b) && b.open.None? &&
      (b.span.Some? <==> messages != [] && messages[0].Some?) &&
      (policy == Never ==> b.spans == []) &&
      (if !Opens(messages) then outcome == Panic && b.spans == [] && b.recorded == []
       else (b.span.Some? ==> (b.span.value.number in b.failed <==> outcome != Return)) &&
            (policy == Always ==> forall m :: Some(m) in messages ==> m in b.contexts))
  {
    hide OneSpanEach, RecordedOnce, Finished, RunBody, StartedAll, AllRecorded, OneTracePerMessage;
    var b := NewBatch(policy, messages, ctx, ids, n).batch;
    NewBatchValid(policy, messages, ctx, ids, n);
    if Opens(messages) {
      HandledStep(b, handler, ids);
      var (b1, outcome) := Handled(b, handler, ids);
      RunEnds(b1, outcome, ids);
    } else {
      NothingRun(policy, messages, ctx, ids, n);
    }
  }

  lemma NothingRun(policy: Policy, messages: seq<Option<Message>>, ctx: Context, ids: Ids, n: nat)
    requires !Opens(messages)
    ensures var b := NewBatch(policy, messages, ctx, ids, n).batch;
      (AllRecorded(b) <==> !LosesBatchSpan(messages)) && OneTracePerMessage(b)
  {
  }

  /** newBatch panics if and only if there are messages and the first or the last of them is nil. */
  lemma PanicsOnNilEnds(policy: Policy, messages: seq<Option<Message>>, ctx: Context, ids: Ids, n: nat)
    ensures NewBatch(policy, messages, ctx, ids, n).panicked <==> !Opens(messages)
  {
  }

  /** A batch that loses its span: one message and a nil behind it. */
  lemma NilLastLosesBatchSpan(policy: Policy, m: Message, ctx: Context, ids: Ids, n: nat, handler: Body)
    ensures var (b, outcome) := ProcessBatch(policy, [Some(m), None], ctx, ids, n, handler);
      outcome == Panic && b.span.Some? && b.span.value.number == Some(n) && b.span.value !in b.recorded
  {
    RunRecordsEverySpan(policy, [Some(m), None], ctx, ids, n, handler);
  }

  lemma RunPairs(b: State, handler: Body, ids: Ids)
    requires Valid(b, ids)
    ensures OneSpanEach(Processed(b, handler, ids).0, ids)
  {
    hide OneSpanEach, RecordedOnce, EndedAll, RunBody, StartedAll, DistinctNumbers, AllRecorded;
    HandledStep(b, handler, ids);
    var (b1, outcome) := Handled(b, handler, ids);
    FinishedRecords(b1, ids);
    EndedAllFailed(b1, b1.spans, Failed(b1, b1.span).failed);
    SameMinting(b1, Processed(b, handler, ids).0, ids);
  }

  /** Each message span continues its message's own publish - in the publisher's trace, a child
      of the publishing span whatever the batch span is - and so does all work started from the
      message's context. */
  lemma SpanFollowsPublish(b: State, ids: Ids, i: nat, work: Work, k: nat)
    requires OneSpanEach(b, ids) && i < |b.owners|
    requires ParseTraceparentContext(Carrier.LastValue(b.owners[i].headers, Carrier.TraceparentHeader())).Some?
    ensures var remote := Carrier.Extracted(b.owners[i].headers).0;
      i < |b.spans| && b.owners[i] in b.contexts &&
      RemoteOf(b.spans[i]).(spanId := b.spans[i].parentId) == remote &&
      Continues(Perform(b.contexts[b.owners[i]], work, ids, k).0, b.spans[i].spanId, RemoteOf(b.spans[i]))
  {
    hide Distinct, Carrier.StartProcessSpan, Carrier.Extracted, Continues, Carrier.LastValue, ParseTraceparentContext;
    assert StartedFor(b.owners[i], b.contexts[b.owners[i]], b.spans[i], b.parent, b.base + i, ids);
    Carrier.MessageContinuesPublish(b.parent, b.owners[i].headers, work, ids, b.base + i, k);
  }

  lemma RunFollowsPublishes(
    policy: Policy, messages: seq<Option<Message>>, ctx: Context, ids: Ids, n: nat, handler: Body,
    i: nat, work: Work, k: nat)
    ensures var b := ProcessBatch(policy, messages, ctx, ids, n, handler).0;
      i < |b.owners| &&
      ParseTraceparentContext(Carrier.LastValue(b.owners[i].headers, Carrier.TraceparentHeader())).Some? ==>
        i < |b.spans| && b.owners[i] in b.contexts &&
        RemoteOf(b.spans[i]).(spanId := b.spans[i].parentId) == Carrier.Extracted(b.owners[i].headers).0 &&
        Continues(Perform(b.contexts[b.owners[i]], work, ids, k).0, b.spans[i].spanId, RemoteOf(b.spans[i]))
  {
    hide OneSpanEach, RecordedOnce, Processed, Carrier.Extracted, Continues, Carrier.LastValue, ParseTraceparentContext;
    NewBatchValid(policy, messages, ctx, ids, n);
    RunPairs(NewBatch(policy, messages, ctx, ids, n).batch, handler, ids);
    var b := ProcessBatch(policy, messages, ctx, ids, n, handler).0;
    if i < |b.owners| && ParseTraceparentContext(Carrier.LastValue(b.owners[i].headers, Carrier.TraceparentHeader())).Some? {
      SpanFollowsPublish(b, ids, i, work, k);
    }
  }

  /** The batch span starts a trace of its own, sampled, where none is active, and is a child of
      the active span otherwise; it is the active span of the batch's context. So it stays. */
  lemma BatchSpanOf(policy: Policy, messages: seq<Option<Message>>, ctx: Context, ids: Ids, n: nat, handler: Body)
    requires messages != [] && messages[0].Some?
    ensures var start, b := NewBatch(policy, messages, ctx, ids, n).batch, ProcessBatch(policy, messages, ctx, ids, n, handler).0;
      b.span == start.span && b.span.Some? && SpanFromContext(start.ctx) == start.span &&
      (if NoTrace(ctx) then b.span.value == Root(ids, n)
       else RemoteOf(b.span.value).(spanId := b.span.value.parentId) == RemoteOf(SpanFromContext(ctx).value))
  {
    hide OneSpanEach, RecordedOnce, Finished, RunBody, StartedAll, AllRecorded, OneTracePerMessage;
    NewBatchValid(policy, messages, ctx, ids, n);
    var b := NewBatch(policy, messages, ctx, ids, n).batch;
    if Opens(messages) {
      HandledStep(b, handler, ids);
      var (b1, outcome) := Handled(b, handler, ids);
      RunEnds(b1, outcome, ids);
    }
  }

  /** Asking for no message, or for one nobody traces, hands back the batch's own context and
      changes nothing. */
  lemma AskedForNone(b: State, message: Option<Message>, ids: Ids)
    requires Valid(b, ids) && (message.None? || b.policy == Never)
    ensures Asked(b, message, ids) == (b, b.ctx)
  {
    hide Carrier.StartProcessSpan;
  }

  /** An Each iteration marks its span failed exactly when its function returned an error - not
      when it panicked - and no other. */
  lemma OnlyErrorsMark(b: State, m: Message, body: Body, ids: Ids)
    requires Valid(b, ids) && b.policy != Never
    ensures var (entered, span) := Entered(b, m, ids);
      var (b1, outcome) := RunBody(entered, body, ids);
      span.Some? && Left(b1, span, outcome).failed == b1.failed + if outcome == Error then {span.value.number} else {}
  {
    hide RunBody, OneSpanEach, RecordedOnce;
    EnteredStep(b, m, ids);
  }

  /** While Each is at a message, asking for another leaves its span running. */
  lemma EachKeepsItsSpan(b: State, m: Message, other: Message, ids: Ids)
    requires Valid(b, ids) && b.policy != Never && m != other
    ensures var (entered, span) := Entered(b, m, ids);
      span.Some? && (span.value.number in Asked(entered, Some(other), ids).0.ended <==> span.value.number in entered.ended)
  {
    hide OneSpanEach, RecordedOnce, Started, SpanOf, Carrier.StartProcessSpan;
    var (entered, span) := Entered(b, m, ids);
    EnteredStep(b, m, ids);
    EnteredOpen(b, m, ids);
    if entered.open.Some? {
      var before := b.openMessage.value;
      SpanKept(b, entered, before);
      SpansApart(entered, m, before, ids);
    }
    AskedEndsOnlyOpen(entered, other, ids);
  }

  lemma EnteredOpen(b: State, m: Message, ids: Ids)
    requires b.policy != Never
    ensures var e := Entered(b, m, ids).0;
      (e.open, e.openMessage) == if b.openMessage == Some(m) then (None, None) else (b.open, b.openMessage)
  {
    hide Carrier.StartProcessSpan;
  }

  lemma AskedEndsOnlyOpen(b: State, other: Message, ids: Ids)
    ensures Asked(b, Some(other), ids).0.ended <= b.ended + if b.open.Some? then {b.open.value.number} else {}
    ensures b.ended <= Asked(b, Some(other), ids).0.ended
  {
    hide Carrier.StartProcessSpan;
  }

  /** The spans of two messages are two. */
  lemma SpansApart(b: State, m: Message, other: Message, ids: Ids)
    requires Valid(b, ids) && m != other && SpanOf(b, m).Some? && SpanOf(b, other).Some?
    ensures SpanOf(b, m).value.number != SpanOf(b, other).value.number
  {
    hide RecordedOnce, OneSpanEach, SpanOf;
    var i := PlaceOf(b, m, ids);
    var j := PlaceOf(b, other, ids);
  }

  lemma PlaceOf(b: State, m: Message, ids: Ids) returns (i: nat)
    requires Valid(b, ids) && SpanOf(b, m).Some?
    ensures i < |b.owners| && b.owners[i] == m && SpanOf(b, m).value.number == Some(b.base + i)
  {
    hide RecordedOnce, Carrier.StartProcessSpan, Distinct;
    assert m in b.owners;
    i :| 0 <= i < |b.owners| && b.owners[i] == m;
    assert StartedFor(b.owners[i], b.contexts[b.owners[i]], b.spans[i], b.parent, b.base + i, ids);
  }

  // ----- Where Each stops -------------------------------------------------------------------------

  /** The messages Each visits. */
  function Live(messages: seq<Option<Message>>): seq<Message> {
    if messages == [] then []
    else (if messages[0].Some? then [messages[0].value] else []) + Live(messages[1..])
  }

  /** What the function does at the k-th message. */
  function BodyAt(bodies: seq<Body>, k: nat): Body {
    if k < |bodies| then bodies[k] else Body([], Return)
  }

  /** The batch on coming to the k-th message, if nothing stops before it, and how the function
      ends there. */
  function Coming(b: State, live: seq<Message>, bodies: seq<Body>, ids: Ids, k: nat): State
    requires k <= |live|
    decreases k, 0
  {
    if k == 0 then b
    else
      var before := Coming(b, live, bodies, ids, k - 1);
      Left(RunBody(Entered(before, live[k - 1], ids).0, BodyAt(bodies, k - 1), ids).0,
           Entered(before, live[k - 1], ids).1, OutcomeAt(b, live, bodies, ids, k - 1))
  }

  function OutcomeAt(b: State, live: seq<Message>, bodies: seq<Body>, ids: Ids, k: nat): Outcome
    requires k < |live|
    decreases k, 1
  {
    RunBody(Entered(Coming(b, live, bodies, ids, k), live[k], ids).0, BodyAt(bodies, k), ids).1
  }

  /** How many messages Each finishes with in peace: all of them, or those before the first that
      ends in an error or a panic. */
  predicate StopsAt(b: State, live: seq<Message>, bodies: seq<Body>, ids: Ids, k: nat) {
    k <= |live| &&
    (forall j :: 0 <= j < k ==> OutcomeAt(b, live, bodies, ids, j) == Return) &&
    (k < |live| ==> OutcomeAt(b, live, bodies, ids, k) != Return)
  }

  lemma EachSkips(b: State, messages: seq<Option<Message>>, bodies: seq<Body>, ids: Ids)
    requires messages != []
    ensures messages[0].None? ==> RunEach(b, messages, bodies, ids) == RunEach(b, messages[1..], bodies, ids)
    ensures messages[0].Some? ==>
      var (entered, span) := Entered(b, messages[0].value, ids);
      var (b1, outcome) := RunBody(entered, BodyAt(bodies, 0), ids);
      RunEach(b, messages, bodies, ids) ==
        if outcome == Return then RunEach(Left(b1, span, outcome), messages[1..], if bodies == [] then [] else bodies[1..], ids)
        else (Left(b1, span, outcome), outcome)
  {
    hide Entered, Left;
    NothingDone(Entered(b, if messages[0].Some? then messages[0].value else Message(0, [], []), ids).0, ids);
  }

  lemma NothingDone(b: State, ids: Ids)
    ensures RunBody(b, Body([], Return), ids) == (b, Return)
  {
  }

  /** Going on behind the first message is going on from the state behind it. */
  lemma {:induction false} ComingOn(b: State, live: seq<Message>, bodies: seq<Body>, ids: Ids, k: nat)
    requires k < |live|
    ensures var rest := if bodies == [] then [] else bodies[1..];
      Coming(b, live, bodies, ids, k + 1) == Coming(Coming(b, live, bodies, ids, 1), live[1..], rest, ids, k) &&
      (k + 1 < |live| ==>
        OutcomeAt(b, live, bodies, ids, k + 1) == OutcomeAt(Coming(b, live, bodies, ids, 1), live[1..], rest, ids, k))
    decreases k
  {
    hide Entered, Left, RunBody;
    if k > 0 {
      ComingOn(b, live, bodies, ids, k - 1);
    }
  }

  /** Each stops behind the first function that ends in an error or a panic, with its outcome, and
      returns if and only if none does. */
  lemma {:induction false} EachStopsAtFirst(b: State, messages: seq<Option<Message>>, bodies: seq<Body>, ids: Ids) returns (k: nat)
    ensures StopsAt(b, Live(messages), bodies, ids, k)
    ensures RunEach(b, messages, bodies, ids) ==
      if k == |Live(messages)| then (Coming(b, Live(messages), bodies, ids, k), Return)
      else (Coming(b, Live(messages), bodies, ids, k + 1), OutcomeAt(b, Live(messages), bodies, ids, k))
    decreases |messages|
  {
    hide Entered, Left, RunBody, RunEach;
    var live := Live(messages);
    if messages == [] {
      NoMessages(b, bodies, ids);
      assert Coming(b, live, bodies, ids, 0) == b;
      k := 0;
      assert StopsAt(b, Live(messages), bodies, ids, k);
    } else {
      EachSkips(b, messages, bodies, ids);
      if messages[0].None? {
        k := EachStopsAtFirst(b, messages[1..], bodies, ids);
        assert Live(messages) == Live(messages[1..]);
      } else if OutcomeAt(b, live, bodies, ids, 0) != Return {
        FirstStep(b, live, bodies, ids);
        k := 0;
        assert StopsAt(b, Live(messages), bodies, ids, k);
      } else {
        var next, rest := Coming(b, live, bodies, ids, 1), if bodies == [] then [] else bodies[1..];
        assert live[1..] == Live(messages[1..]);
        FirstGoesOn(b, messages, bodies, ids);
        var j := EachStopsAtFirst(next, messages[1..], rest, ids);
        StopsOneLater(b, live, bodies, ids, j);
        k := j + 1;
        assert StopsAt(b, Live(messages), bodies, ids, k);
        assert RunEach(b, messages, bodies, ids) == RunEach(next, messages[1..], rest, ids);
      }
    }
  }

  /** Behind a first message that ended in peace. */
  lemma FirstGoesOn(b: State, messages: seq<Option<Message>>, bodies: seq<Body>, ids: Ids)
    requires messages != [] && messages[0].Some? && OutcomeAt(b, Live(messages), bodies, ids, 0) == Return
    ensures RunEach(b, messages, bodies, ids) ==
      RunEach(Coming(b, Live(messages), bodies, ids, 1), messages[1..], if bodies == [] then [] else bodies[1..], ids)
  {
    hide Entered, Left, RunBody, RunEach;
    EachSkips(b, messages, bodies, ids);
    FirstStep(b, Live(messages), bodies, ids);
  }

  lemma FirstStep(b: State, live: seq<Message>, bodies: seq<Body>, ids: Ids)
    requires live != []
    ensures var (entered, span) := Entered(b, live[0], ids);
      var (b1, outcome) := RunBody(entered, BodyAt(bodies, 0), ids);
      Coming(b, live, bodies, ids, 1) == Left(b1, span, outcome) && OutcomeAt(b, live, bodies, ids, 0) == outcome
  {
    hide Entered, Left, RunBody;
    assert Coming(b, live, bodies, ids, 0) == b;
  }

  lemma StopsOneLater(b: State, live: seq<Message>, bodies: seq<Body>, ids: Ids, j: nat)
    requires live != [] && OutcomeAt(b, live, bodies, ids, 0) == Return
    requires StopsAt(Coming(b, live, bodies, ids, 1), live[1..], if bodies == [] then [] else bodies[1..], ids, j)
    ensures var next, rest := Coming(b, live, bodies, ids, 1), if bodies == [] then [] else bodies[1..];
      StopsAt(b, live, bodies, ids, j + 1) &&
      Coming(b, live, bodies, ids, j + 1) == Coming(next, live[1..], rest, ids, j) &&
      (j < |live| - 1 ==>
        Coming(b, live, bodies, ids, j + 2) == Coming(next, live[1..], rest, ids, j + 1) &&
        OutcomeAt(b, live, bodies, ids, j + 1) == OutcomeAt(next, live[1..], rest, ids, j))
  {
    hide Coming, OutcomeAt;
    var next, rest := Coming(b, live, bodies, ids, 1), if bodies == [] then [] else bodies[1..];
    forall i | 0 < i < |live|
      ensures OutcomeAt(b, live, bodies, ids, i) == OutcomeAt(next, live[1..], rest, ids, i - 1)
    {
      ComingOn(b, live, bodies, ids, i - 1);
    }
    ComingOn(b, live, bodies, ids, j);
    if j < |live| - 1 { ComingOn(b, live, bodies, ids, j + 1); }
  }

  lemma NoMessages(b: State, bodies: seq<Body>, ids: Ids)
    ensures RunEach(b, [], bodies, ids) == (b, Return)
  {
  }

  /** What stops an Each makes no difference to what is behind it: no message or function that
      follows is looked at. */
  lemma {:induction false} EachIgnoresRest(
    b: State, messages: seq<Option<Message>>, more: seq<Option<Message>>, bodies: seq<Body>, others: seq<Body>, ids: Ids)
    requires RunEach(b, messages, bodies, ids).1 != Return
    ensures RunEach(b, messages + more, bodies + others, ids) == RunEach(b, messages, bodies, ids)
    decreases |messages|
  {
    hide Entered, Left, RunBody, RunEach;
    if messages == [] {
      NoMessages(b, bodies, ids);
    } else {
      assert (messages + more)[0] == messages[0] && (messages + more)[1..] == messages[1..] + more;
      EachSkips(b, messages, bodies, ids);
      EachSkips(b, messages + more, bodies + others, ids);
      if messages[0].None? {
        EachIgnoresRest(b, messages[1..], more, bodies, others, ids);
      } else {
        IgnoresBehindFirst(b, messages, more, bodies, others, ids);
      }
    }
  }

  lemma {:induction false} IgnoresBehindFirst(
    b: State, messages: seq<Option<Message>>, more: seq<Option<Message>>, bodies: seq<Body>, others: seq<Body>, ids: Ids)
    requires messages != [] && messages[0].Some? && RunEach(b, messages, bodies, ids).1 != Return
    ensures RunEach(b, messages + more, bodies + others, ids) == RunEach(b, messages, bodies, ids)
    decreases |messages|, 0
  {
    hide Entered, Left, RunBody, RunEach;
    var (entered, span) := Entered(b, messages[0].value, ids);
    assert (messages + more)[0] == messages[0] && (messages + more)[1..] == messages[1..] + more;
    EachSkips(b, messages, bodies, ids);
    EachSkips(b, messages + more, bodies + others, ids);
    if bodies == [] {
      NoBodiesReturn(b, messages, ids);
    } else {
      assert (bodies + others)[0] == bodies[0] && (bodies + others)[1..] == bodies[1..] + others;
      var (b1, outcome) := RunBody(entered, bodies[0], ids);
      if outcome == Return {
        EachIgnoresRest(Left(b1, span, outcome), messages[1..], more, bodies[1..], others, ids);
      }
    }
  }

  lemma {:induction false} NoBodiesReturn(b: State, messages: seq<Option<Message>>, ids: Ids)
    ensures RunEach(b, messages, [], ids).1 == Return
    decreases |messages|
  {
    hide Entered, Left;
    if messages != [] {
      if messages[0].None? {
        NoBodiesReturn(b, messages[1..], ids);
      } else {
        var (entered, span) := Entered(b, messages[0].value, ids);
        NoBodiesReturn(Left(entered, span, Return), messages[1..], ids);
      }
    }
  }

  /** A handler stops at an Each that panics and that it does not recover: no later action is run,
      and it panics itself. One that recovers goes on. */
  lemma {:induction false} PanicStopsActions(b: State, before: seq<Action>, a: Action, after: seq<Action>, ids: Ids)
    requires !RunActions(b, before, ids).1
    ensures var b1 := RunActions(b, before, ids).0;
      var (b2, panicked) := RunAction(b1, a, ids);
      RunActions(b, before + [a] + after, ids) == if panicked then (b2, true) else RunActions(b2, after, ids)
    decreases |before|
  {
    hide RunAction;
    var all := before + [a] + after;
    if before == [] {
      assert all[0] == a && all[1..] == after;
    } else {
      var (next, panicked) := RunAction(b, before[0], ids);
      assert all[0] == before[0] && all[1..] == before[1..] + [a] + after;
      PanicStopsActions(next, before[1..], a, after, ids);
    }
  }

  /** So ProcessBatch ends in a panic when some Each of its handler does and nobody recovers,
      whatever the handler would have done next. */
  lemma EachPanicReachesCaller(
    policy: Policy, messages: seq<Option<Message>>, ctx: Context, ids: Ids, n: nat,
    before: seq<Action>, bodies: seq<Body>, after: seq<Action>, outcome: Outcome)
    requires Opens(messages)
    requires var b := Handled(NewBatch(policy, messages, ctx, ids, n).batch, Body([], Return), ids).0;
      !RunActions(b, before, ids).1 &&
      RunEach(RunActions(b, before, ids).0, RunActions(b, before, ids).0.messages, bodies, ids).1 == Panic
    ensures ProcessBatch(policy, messages, ctx, ids, n, Body(before + [Each(bodies, false)] + after, outcome)).1 == Panic
  {
    hide RunEach, RunActions, Finished, StartedAll, NewBatch;
    var start := NewBatch(policy, messages, ctx, ids, n).batch;
    var b := if policy == Always then StartedAll(start, messages, ids) else start;
    PanicsOnNilEnds(policy, messages, ctx, ids, n);
    KeepsArguments(policy, messages, ctx, ids, n);
    NothingDone(b, ids);
    PanicStopsActions(b, before, Each(bodies, false), after, ids);
  }

  lemma KeepsArguments(policy: Policy, messages: seq<Option<Message>>, ctx: Context, ids: Ids, n: nat)
    ensures var b := NewBatch(policy, messages, ctx, ids, n).batch; b.policy == policy && b.messages == messages
  {
  }

  // ----- On demand -------------------------------------------------------------------------------

  /** The span ContextFor opened last is the only one that may be running. */
  predicate OneOpen(b: State) {
    (b.open.Some? <==> b.openMessage.Some?) &&
    (b.openMessage.Some? ==> b.openMessage.value in b.contexts) &&
    forall span :: span in b.spans && span.number !in b.ended ==> b.open == Some(span)
  }

  lemma AskedKeepsOneOpen(b: State, message: Option<Message>, ids: Ids)
    requires Valid(b, ids) && OneOpen(b)
    ensures OneOpen(Asked(b, message, ids).0)
  {
    hide OneSpanEach, RecordedOnce, Carrier.StartProcessSpan;
    if message.Some? && message.value !in b.contexts && b.policy != Never {
      var m := message.value;
      var c := Closing(b, m);
      assert b.openMessage != message;
      assert forall span :: span in c.spans ==> span.number in c.ended;
      var s := Minted(c, m, ids);
      assert SpanFromContext(s.contexts[m]) == Some(s.spans[|c.spans|]);
    }
  }

  /** A handler that only calls ContextFor never has two message spans running: at every moment
      of the run at most one has not ended, that of the last message it asked for. */
  lemma {:induction false} AtMostOneOpen(b: State, actions: seq<Action>, ids: Ids)
    requires Valid(b, ids) && OneOpen(b)
    requires forall a :: a in actions ==> a.ContextFor?
    ensures OneOpen(RunActions(b, actions, ids).0)
    decreases |actions|
  {
    hide Valid, OneOpen, Asked;
    if actions != [] {
      AskedStep(b, actions[0].message, ids);
      AskedKeepsOneOpen(b, actions[0].message, ids);
      AtMostOneOpen(Asked(b, actions[0].message, ids).0, actions[1..], ids);
    }
  }

  lemma OneMessageAtATime(messages: seq<Option<Message>>, ctx: Context, ids: Ids, n: nat, actions: seq<Action>)
    requires forall a :: a in actions ==> a.ContextFor?
    ensures OneOpen(RunActions(NewBatch(OnDemand, messages, ctx, ids, n).batch, actions, ids).0)
  {
    NewBatchValid(OnDemand, messages, ctx, ids, n);
    AtMostOneOpen(NewBatch(OnDemand, messages, ctx, ids, n).batch, actions, ids);
  }

  /** Two message spans are never running at once. */
  predicate AtMostOneRunning(b: State) {
    forall x, y :: x in b.spans && y in b.spans && x.number !in b.ended && y.number !in b.ended ==> x == y
  }

  /** Asking for a new message keeps it so if and only if the span that is running, if one is, is
      the one ContextFor opened last. One that Each has open is not closed. */
  lemma OverlapsUnlessOpen(b: State, m: Message, ids: Ids)
    requires Valid(b, ids) && b.policy != Never && m !in b.contexts && b.openMessage != Some(m)
    ensures AtMostOneRunning(Asked(b, Some(m), ids).0) <==>
      forall span :: span in b.spans && span.number !in b.ended ==> b.open == Some(span)
  {
    hide OneSpanEach, RecordedOnce, DistinctNumbers, NumbersOf, Carrier.StartProcessSpan, Ended;
    var c := Closing(b, m);
    ClosingStep(b, m, ids);
    ClosedSpans(b, m, ids);
    var s := Minted(c, m, ids);
    var minted := NewSpan(c, m, ids);
    if AtMostOneRunning(s) {
      assert minted in s.spans;
      assert forall span :: span in b.spans ==> span in s.spans && span != minted;
    } else {
      assert forall span :: span in s.spans ==> span == minted || span in b.spans;
    }
  }

  /** Moving on ends the span that is open and no other. */
  lemma ClosedSpans(b: State, m: Message, ids: Ids)
    requires Valid(b, ids) && b.openMessage != Some(m)
    ensures var c := Closing(b, m);
      c.spans == b.spans && c.contexts == b.contexts && c.policy == b.policy &&
      forall span :: span in b.spans ==>
        (span.number in c.ended <==> span.number in b.ended || b.open == Some(span))
  {
    hide OneSpanEach, NumbersOf;
    SpansDiffer(b, ids);
  }

  lemma NewSpan(b: State, m: Message, ids: Ids) returns (span: Span)
    requires Valid(b, ids) && m !in b.contexts && b.policy != Never
    ensures var s := Minted(b, m, ids);
      s.spans == b.spans + [span] && span !in b.spans && span.number !in s.ended
  {
    hide Paired, DistinctNumbers, Carrier.StartProcessSpan;
    var s := Minted(b, m, ids);
    span := Carrier.StartProcessSpan(b.parent, m.headers, ids, b.next).1;
    SpansNumbered(b, ids);
    EndedWithin(b);
    assert forall x :: x in b.spans ==> x.number != Some(b.next);
  }

  /** Asking again, however much later in the run, hands back the same context. */
  lemma AskedAgain(b: State, m: Message, actions: seq<Action>, ids: Ids)
    requires Valid(b, ids)
    ensures var (asked, ctx) := Asked(b, Some(m), ids);
      b.policy != Never ==> Asked(RunActions(asked, actions, ids).0, Some(m), ids) == (RunActions(asked, actions, ids).0, ctx)
  {
    hide OneSpanEach, RecordedOnce, RunActions, StartedFor, Carrier.StartProcessSpan;
    AskedStep(b, Some(m), ids);
    ActionsStep(Asked(b, Some(m), ids).0, actions, ids);
  }

  // ----- The object ------------------------------------------------------------------------------

  class Batch {
    const policy: Policy
    const messages: seq<Option<Message>>
    const parent: Context
    const ids: Ids
    const ctx: Context
    const span: Option<Span>
    /** newBatch dereferenced a nil message, and the handler never sees this batch. */
    const panicked: bool
    var open: Option<Span>
    var openMessage: Option<Message>
    var contexts: map<Message, Context>
    var spans: seq<Span>
    var traced: nat
    var next: nat
    var ended: set<Option<nat>>
    var recorded: seq<Span>
    var failed: set<Option<nat>>
    ghost var owners: seq<Message>
    ghost const base: nat

    ghost function View(): State
      reads this
    {
      State(policy, messages, parent, ctx, span, open, openMessage, contexts, spans, traced, next, ended, recorded, failed, owners, base)
    }

    constructor (policy: Policy, messages: seq<Option<Message>>, parent: Context, ids: Ids, n: nat)
      ensures Opening(View(), panicked) == NewBatch(policy, messages, parent, ids, n) && this.ids == ids
    {
      this.policy, this.messages, this.parent, this.ids := policy, messages, parent, ids;
      open, openMessage, contexts, spans, traced := None, None, map[], [], 0;
      ended, recorded, failed, owners := {}, [], {}, [];
      panicked := messages != [] && (messages[0].None? || messages[|messages| - 1].None?);
      if messages == [] || messages[0].None? {
        ctx, span, next, base := parent, None, n, n;
      } else {
        var (inner, started) := StartSpan(parent, ids, n);
        ctx, span, next, base := inner, Some(started), n + 1, n + 1;
      }
    }

    method EndSpan(span: Option<Span>)
      modifies this
      ensures View() == Ended(old(View()), span) && spans == old(spans)
    {
      if span.Some? && span.value.number !in ended {
        ended := ended + {span.value.number};
        recorded := recorded + [span.value];
      }
    }

    method MarkFailed(span: Option<Span>)
      modifies this
      ensures View() == Failed(old(View()), span)
    {
      if span.Some? {
        failed := failed + {span.value.number};
      }
    }

    method Start(m: Message) returns (ctx: Context, span: Option<Span>)
      modifies this
      ensures View() == Started(old(View()), m, ids)
      ensures m in contexts && ctx == contexts[m] && span == SpanOf(View(), m)
    {
      hide Carrier.StartProcessSpan;
      if m in contexts {
        return contexts[m], SpanFromContext(contexts[m]);
      }
      var (inner, started) := Carrier.StartProcessSpan(parent, m.headers, ids, next);
      contexts := contexts[m := inner];
      spans := spans + [started];
      traced := traced + 1;
      next := next + 1;
      owners := owners + [m];
      return inner, Some(started);
    }

    method ContextFor(message: Option<Message>) returns (r: Context)
      modifies this
      ensures (View(), r) == Asked(old(View()), message, ids)
    {
      hide Started, SpanOf;
      if message.None? {
        return ctx;
      }
      var m := message.value;
      if m in contexts {
        return contexts[m];
      }
      if policy == Never {
        return ctx;
      }
      if openMessage != message {
        EndSpan(open);
        open, openMessage := None, None;
      }
      assert View() == Closing(old(View()), m);
      var inner, started := Start(m);
      open, openMessage := started, message;
      return inner;
    }

    /** Each, up to the call of the function. */
    method Enter(m: Message) returns (span: Option<Span>)
      modifies this
      ensures (View(), span) == Entered(old(View()), m, ids)
    {
      hide Started, SpanOf;
      if policy == Never {
        return None;
      }
      if openMessage == Some(m) {
        open, openMessage := None, None;
      }
      var _, started := Start(m);
      return started;
    }

    /** Each, once the function is over. */
    method Leave(span: Option<Span>, outcome: Outcome)
      modifies this
      ensures View() == Left(old(View()), span, outcome)
    {
      hide Failed, Ended;
      if outcome == Error {
        MarkFailed(span);
      }
      EndSpan(span);
    }

    /** The i-th message visited is handled by the i-th body; one without returns at once. */
    method Each(bodies: seq<Body>) returns (outcome: Outcome)
      modifies this
      ensures (View(), outcome) == RunEach(old(View()), messages, bodies, ids)
      decreases bodies
    {
      hide Entered, Left, RunBody;
      var k := 0;
      for i := 0 to |messages|
        invariant k <= |bodies|
        invariant RunEach(View(), messages[i..], bodies[k..], ids) == RunEach(old(View()), messages, bodies, ids)
      {
        var message := messages[i];
        assert messages[i..][0] == message && messages[i..][1..] == messages[i + 1..];
        if message.None? {
          continue;
        }
        var span := Enter(message.value);
        if k == |bodies| {
          Leave(span, Return);
          continue;
        }
        assert bodies[k..][0] == bodies[k] && bodies[k..][1..] == bodies[k + 1..];
        outcome := Perform(bodies[k]);
        Leave(span, outcome);
        k := k + 1;
        if outcome != Return {
          return;
        }
      }
      outcome := Return;
    }

    method Perform(body: Body) returns (outcome: Outcome)
      modifies this
      ensures (View(), outcome) == RunBody(old(View()), body, ids)
      decreases body
    {
      hide RunAction;
      for i := 0 to |body.actions|
        invariant RunActions(View(), body.actions[i..], ids) == RunActions(old(View()), body.actions, ids)
      {
        assert body.actions[i..][0] == body.actions[i] && body.actions[i..][1..] == body.actions[i + 1..];
        var panicked := Act(body.actions[i]);
        if panicked {
          return Panic;
        }
      }
      return body.outcome;
    }

    method Act(action: Action) returns (panicked: bool)
      modifies this
      ensures (View(), panicked) == RunAction(old(View()), action, ids)
      decreases action
    {
      hide Asked;
      match action
      case ContextFor(message) =>
        var _ := ContextFor(message);
        return false;
      case Each(bodies, recovers) =>
        var outcome := Each(bodies);
        return outcome == Panic && !recovers;
    }

    method End()
      modifies this
      ensures View() == Finished(old(View()))
    {
      hide Ended;
      for i := 0 to |spans|
        invariant spans == old(spans)
        invariant EndedAll(View(), spans[i..]) == EndedAll(old(View()), spans)
      {
        assert spans[i..][1..] == spans[i + 1..];
        EndSpan(Some(spans[i]));
      }
      open, openMessage := None, None;
      EndSpan(span);
    }

    method Run(handler: Body) returns (outcome: Outcome)
      modifies this
      ensures (View(), outcome) == Processed(old(View()), handler, ids)
    {
      hide Started, RunBody, Finished, Failed;
      if policy == Always {
        for i := 0 to |messages|
          invariant StartedAll(View(), messages[i..], ids) == StartedAll(old(View()), messages, ids)
        {
          assert messages[i..][1..] == messages[i + 1..];
          if messages[i].Some? {
            var _, _ := Start(messages[i].value);
          }
        }
      }
      outcome := Perform(handler);
      if outcome != Return {
        MarkFailed(span);
      }
      End();
    }
  }

  method RunBatch(policy: Policy, messages: seq<Option<Message>>, ctx: Context, ids: Ids, n: nat, handler: Body)
    returns (batch: Batch, outcome: Outcome)
    ensures fresh(batch)
    ensures (batch.View(), outcome) == ProcessBatch(policy, messages, ctx, ids, n, handler)
  {
    hide Processed;
    batch := new Batch(policy, messages, ctx, ids, n);
    if batch.panicked {
      return batch, Panic;
    }
    outcome := batch.Run(handler);
  }
}
