/** Spans and contexts (tracing.go, propagation.go) of an enabled client. A context is a linked
    list of the spans put into it; the innermost one is the active span. Ids come from an
    arbitrary source. */
module Tracing {
  import opened Bytes
  import opened Traceparent

  /** A span and the fields it passes on. `number` says which span of this process it is, as a
      pointer would; a span of another process, known by its header, has none. */
  datatype Span = Span(
    number: Option<nat>,
    traceId: Text, spanId: Text, parentId: Text, sampled: bool, tracestate: Text, baggage: Text)

  datatype Context = Background | WithSpan(parent: Context, span: Span)

  /** newTraceID and newSpanID at the n-th span started. */
  datatype Ids = Ids(trace: nat -> Text, span: nat -> Text)

  function SpanFromContext(ctx: Context): Option<Span> {
    match ctx
    case Background => None
    case WithSpan(_, span) => Some(span)
  }

  /** Makes an extracted context the parent of what is started under the result. */
  function ContextWithRemoteContext(ctx: Context, remote: RemoteContext): Context {
    if !remote.Valid() then ctx
    else WithSpan(ctx, Span(None, remote.traceId, remote.spanId, [], remote.sampled, remote.tracestate, remote.baggage))
  }

  /** The n-th span this process starts, under the active span if there is one. */
  function StartSpan(ctx: Context, ids: Ids, n: nat): (r: (Context, Span))
    ensures SpanFromContext(r.0) == Some(r.1) && r.1.number == Some(n) && r.1.spanId == ids.span(n)
  {
    var parent := SpanFromContext(ctx);
    var span :=
      if parent.Some? && parent.value.traceId != [] then
        var p := parent.value;
        Span(Some(n), p.traceId, ids.span(n), p.spanId, p.sampled, p.tracestate, p.baggage)
      else Span(Some(n), ids.trace(n), ids.span(n), [], true, [], []);
    (WithSpan(ctx, span), span)
  }

  /** The context a span hands to the next hop. */
  function RemoteOf(span: Span): RemoteContext {
    RemoteContext(span.traceId, span.spanId, span.sampled, span.tracestate, span.baggage)
  }

  // ----- A tree of work -------------------------------------------------------------------

  /** Work that starts a span and does further work under its context. */
  datatype Work = Work(children: seq<Work>)

  datatype Trace = Node(span: Span, children: seq<Trace>)

  /** The spans a tree of work starts under ctx, and the number of the next one. */
  function Perform(ctx: Context, work: Work, ids: Ids, n: nat): (Trace, nat)
    decreases work, 0
  {
    var (inner, span) := StartSpan(ctx, ids, n);
    var (children, next) := PerformAll(inner, work.children, ids, n + 1);
    (Node(span, children), next)
  }

  function PerformAll(ctx: Context, works: seq<Work>, ids: Ids, n: nat): (seq<Trace>, nat)
    decreases works, 1
  {
    if works == [] then ([], n)
    else
      var (first, n1) := Perform(ctx, works[0], ids, n);
      var (rest, n2) := PerformAll(ctx, works[1..], ids, n1);
      ([first] + rest, n2)
  }

  /** Every span of the tree is in the trace `origin` belongs to, with its sampling decision and
      companion headers, and is a child of the nearest span around it. */
  predicate Continues(t: Trace, parentId: Text, origin: RemoteContext)
    decreases t, 0
  {
    t.span.traceId == origin.traceId && t.span.sampled == origin.sampled &&
    t.span.tracestate == origin.tracestate && t.span.baggage == origin.baggage &&
    t.span.parentId == parentId &&
    AllContinue(t.children, t.span.spanId, origin)
  }

  predicate AllContinue(ts: seq<Trace>, parentId: Text, origin: RemoteContext)
    decreases ts, 1
  {
    ts == [] || (Continues(ts[0], parentId, origin) && AllContinue(ts[1..], parentId, origin))
  }

  /** Work done under a context continues the trace of its active span. */
  lemma {:induction false} WorkContinues(ctx: Context, work: Work, ids: Ids, n: nat)
    requires SpanFromContext(ctx).Some? && SpanFromContext(ctx).value.traceId != []
    ensures var p := SpanFromContext(ctx).value;
      Continues(Perform(ctx, work, ids, n).0, p.spanId, RemoteOf(p))
    decreases work, 0
  {
    var p := SpanFromContext(ctx).value;
    var (inner, span) := StartSpan(ctx, ids, n);
    AllWorkContinues(inner, work.children, ids, n + 1, RemoteOf(p));
  }

  lemma {:induction false} AllWorkContinues(ctx: Context, works: seq<Work>, ids: Ids, n: nat, origin: RemoteContext)
    requires SpanFromContext(ctx).Some? && SpanFromContext(ctx).value.traceId != []
    requires RemoteOf(SpanFromContext(ctx).value).(spanId := origin.spanId) == origin
    ensures AllContinue(PerformAll(ctx, works, ids, n).0, SpanFromContext(ctx).value.spanId, origin)
    decreases works, 1
  {
    if works != [] {
      var (first, n1) := Perform(ctx, works[0], ids, n);
      WorkContinues(ctx, works[0], ids, n);
      SameOrigin(first, SpanFromContext(ctx).value.spanId, RemoteOf(SpanFromContext(ctx).value), origin);
      AllWorkContinues(ctx, works[1..], ids, n1, origin);
      assert PerformAll(ctx, works, ids, n).0[1..] == PerformAll(ctx, works[1..], ids, n1).0;
    }
  }

  /** The span id of the origin plays no part in what its trace's spans carry. */
  lemma {:induction false} SameOrigin(t: Trace, parentId: Text, a: RemoteContext, b: RemoteContext)
    requires Continues(t, parentId, a) && a.(spanId := b.spanId) == b
    ensures Continues(t, parentId, b)
    decreases t, 0
  {
    AllSameOrigin(t.children, t.span.spanId, a, b);
  }

  lemma {:induction false} AllSameOrigin(ts: seq<Trace>, parentId: Text, a: RemoteContext, b: RemoteContext)
    requires AllContinue(ts, parentId, a) && a.(spanId := b.spanId) == b
    ensures AllContinue(ts, parentId, b)
    decreases ts, 1
  {
    if ts != [] {
      SameOrigin(ts[0], parentId, a, b);
      AllSameOrigin(ts[1..], parentId, a, b);
    }
  }

  // ----- Where a trace starts ---------------------------------------------------------------------

  /** No span is active, or one that belongs to no trace. */
  predicate NoTrace(ctx: Context) {
    SpanFromContext(ctx).None? || SpanFromContext(ctx).value.traceId == []
  }

  /** The span that starts a trace: no parent, sampled, nothing carried. */
  function Root(ids: Ids, n: nat): Span {
    Span(Some(n), ids.trace(n), ids.span(n), [], true, [], [])
  }

  /** Work done where no trace is active is one trace of its own: it has the id made for its first
      span, which has no parent, and every span in it is sampled and carries nothing. */
  lemma WorkStartsTrace(ctx: Context, work: Work, ids: Ids, n: nat)
    requires NoTrace(ctx) && ids.trace(n) != []
    ensures var t := Perform(ctx, work, ids, n).0;
      t.span == Root(ids, n) && Continues(t, [], RemoteOf(Root(ids, n)))
  {
    var (inner, span) := StartSpan(ctx, ids, n);
    AllWorkContinues(inner, work.children, ids, n + 1, RemoteOf(span));
  }

  /** A remote context that is not valid is put aside; a valid one becomes the active span. */
  lemma RemoteBecomesActive(ctx: Context, remote: RemoteContext)
    ensures var c := ContextWithRemoteContext(ctx, remote);
      if remote.traceId == [] || remote.spanId == [] then c == ctx
      else SpanFromContext(c).Some? && RemoteOf(SpanFromContext(c).value) == remote
  {
  }
}
