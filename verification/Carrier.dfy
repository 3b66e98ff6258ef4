/** Trace context on a Kafka record's headers (contrib/sarama/sarama.go): inject, extract, and
    the span opened for a consumed message. */
module Carrier {
  import opened Bytes
  import opened Strings
  import opened Traceparent
  import opened Tracing
  import Tracestate
  import Baggage

  datatype Header = Header(key: Text, value: Text)

  function TraceparentHeader(): Text { Ascii("traceparent") }

  function TracestateHeader(): Text { Ascii("tracestate") }

  function BaggageHeader(): Text { Ascii("baggage") }

  function EnqueuedAtHeader(): Text { Ascii("x-chronos-enqueued-at") }

  // ----- Header keys, whatever their case ---------------------------------------------------

  /** How many bytes at the head of key fold to the lower-case ASCII byte c, 0 if none do.
      Two characters outside ASCII fold into it: the long s, and the Kelvin sign. */
  function FoldLength(key: Text, c: byte): (n: nat)
    ensures n <= |key|
  {
    if key == [] then 0
    else if key[0] == c then 1
    else if 0x61 <= c <= 0x7A && key[0] == c - 0x20 then 1
    else if c == 0x73 && |key| >= 2 && key[..2] == [0xC5, 0xBF] then 2
    else if c == 0x6B && |key| >= 3 && key[..3] == [0xE2, 0x84, 0xAA] then 3
    else 0
  }

  /** strings.EqualFold(key, name) for a lower-case ASCII name. */
  predicate EqualFold(key: Text, name: Text)
    decreases |name|
  {
    if name == [] then key == []
    else
      var n := FoldLength(key, name[0]);
      n > 0 && EqualFold(key[n..], name[1..])
  }

  lemma {:induction false} EqualFoldSelf(name: Text)
    ensures EqualFold(name, name)
    decreases |name|
  {
    if name != [] {
      EqualFoldSelf(name[1..]);
    }
  }

  predicate IsLower(s: Text) {
    forall i :: 0 <= i < |s| ==> s[i] < 0x41 || 0x5A < s[i] < 0x80
  }

  /** A key equals at most one lower-case name. */
  lemma {:induction false} EqualFoldUnique(key: Text, a: Text, b: Text)
    requires IsLower(a) && IsLower(b) && EqualFold(key, a) && EqualFold(key, b)
    ensures a == b
    decreases |a|
  {
    if a != [] && b != [] {
      assert a[0] == b[0];
      var n := FoldLength(key, a[0]);
      EqualFoldUnique(key[n..], a[1..], b[1..]);
      assert a == [a[0]] + a[1..] && b == [b[0]] + b[1..];
    }
  }

  /** The key with each character that folds into ASCII replaced by what it folds to. */
  function Folded(key: Text): Text
    decreases |key|
  {
    if key == [] then []
    else if 'A' as int <= key[0] <= 'Z' as int then [key[0] - 'A' as int + 'a' as int] + Folded(key[1..])
    else if |key| >= 2 && key[..2] == Utf8(0x17F) then ['s' as int] + Folded(key[2..])
    else if |key| >= 3 && key[..3] == Utf8(0x212A) then ['k' as int] + Folded(key[3..])
    else [key[0]] + Folded(key[1..])
  }

  /** A key equals a lower-case name, whatever its case, if and only if it folds to it. */
  lemma {:induction false} EqualFoldIsFolded(key: Text, name: Text)
    requires IsLower(name)
    ensures EqualFold(key, name) <==> Folded(key) == name
    decreases |name|
  {
    assert Utf8(0x17F) == [0xC5, 0xBF] && Utf8(0x212A) == [0xE2, 0x84, 0xAA];
    if name != [] && key != [] {
      var n := FoldLength(key, name[0]);
      FoldedHead(key, name[0]);
      assert name == [name[0]] + name[1..];
      if n > 0 {
        EqualFoldIsFolded(key[n..], name[1..]);
        assert Folded(key)[1..] == Folded(key[n..]);
      }
    }
  }

  lemma FoldedHead(key: Text, c: byte)
    requires key != [] && (c < 0x41 || 0x5A < c < 0x80)
    ensures var n := FoldLength(key, c);
      Folded(key) != [] &&
      (if n > 0 then Folded(key) == [c] + Folded(key[n..]) else Folded(key)[0] != c)
  {
    assert Utf8(0x17F) == [0xC5, 0xBF] && Utf8(0x212A) == [0xE2, 0x84, 0xAA];
    assert |key| >= 2 ==> key[..2][0] == key[0];
    assert |key| >= 3 ==> key[..3][0] == key[0];
  }

  lemma NamesAreLower()
    ensures IsLower(TraceparentHeader()) && IsLower(TracestateHeader()) && IsLower(BaggageHeader()) && IsLower(EnqueuedAtHeader())
  {
  }

  predicate IsContextName(name: Text) {
    name == TraceparentHeader() || name == TracestateHeader() || name == BaggageHeader() || name == EnqueuedAtHeader()
  }

  // ----- Writing ------------------------------------------------------------------------------

  predicate Carries(headers: seq<Header>, name: Text) {
    exists i :: 0 <= i < |headers| && EqualFold(headers[i].key, name)
  }

  function WithHeader(headers: seq<Header>, name: Text, value: Text): seq<Header> {
    if value == [] || Carries(headers, name) then headers else headers + [Header(name, value)]
  }

  function TraceparentOf(span: Option<Span>): Text {
    if span.None? then [] else FormatTraceparent(span.value.traceId, span.value.spanId, span.value.sampled)
  }

  function Injected(headers: seq<Header>, span: Option<Span>, stamp: Text): seq<Header> {
    var h1 := WithHeader(headers, TraceparentHeader(), TraceparentOf(span));
    var h2 := WithHeader(h1, TracestateHeader(), if span.None? then [] else span.value.tracestate);
    var h3 := WithHeader(h2, BaggageHeader(), if span.None? then [] else span.value.baggage);
    WithHeader(h3, EnqueuedAtHeader(), stamp)
  }

  class ProducerMessage {
    var headers: seq<Header>

    constructor (headers: seq<Header>)
      ensures this.headers == headers
    {
      this.headers := headers;
    }

    /** Appends one header unless it is empty or the caller already wrote that key. */
    method SetHeader(key: Text, value: Text)
      modifies this
      ensures headers == WithHeader(old(headers), key, value)
    {
      if value == [] {
        return;
      }
      for i := 0 to |headers|
        invariant headers == old(headers)
        invariant forall j :: 0 <= j < i ==> !EqualFold(headers[j].key, key)
      {
        if EqualFold(headers[i].key, key) {
          return;
        }
      }
      headers := headers + [Header(key, value)];
    }

    /** `stamp` is FormatEnqueuedAt of the send. */
    method Inject(ctx: Context, stamp: Text)
      modifies this
      ensures headers == Injected(old(headers), SpanFromContext(ctx), stamp)
    {
      hide Ascii, WithHeader, TraceparentHeader, TracestateHeader, BaggageHeader, EnqueuedAtHeader;
      var span := SpanFromContext(ctx);
      SetHeader(TraceparentHeader(), TraceparentOf(span));
      SetHeader(TracestateHeader(), if span.None? then [] else span.value.tracestate);
      SetHeader(BaggageHeader(), if span.None? then [] else span.value.baggage);
      SetHeader(EnqueuedAtHeader(), stamp);
    }
  }

  /** Headers the caller set are left alone: injecting only ever appends, and never a key that
      was there in any case. */
  lemma InjectRespectsCaller(headers: seq<Header>, span: Option<Span>, stamp: Text)
    ensures var h := Injected(headers, span, stamp);
      headers <= h &&
      forall i :: |headers| <= i < |h| ==> IsContextName(h[i].key) && !Carries(headers, h[i].key)
  {
    hide EqualFold, Ascii, FormatTraceparent;
    var h1 := WithHeader(headers, TraceparentHeader(), TraceparentOf(span));
    var h2 := WithHeader(h1, TracestateHeader(), if span.None? then [] else span.value.tracestate);
    var h3 := WithHeader(h2, BaggageHeader(), if span.None? then [] else span.value.baggage);
    CarriesPrefix(headers, h1);
    CarriesPrefix(headers, h2);
    CarriesPrefix(headers, h3);
  }

  lemma CarriesPrefix(a: seq<Header>, b: seq<Header>)
    requires a <= b
    ensures forall name :: Carries(a, name) ==> Carries(b, name)
  {
    forall name | Carries(a, name) ensures Carries(b, name) {
      var i :| 0 <= i < |a| && EqualFold(a[i].key, name);
      assert b[i] == a[i];
    }
  }

  // ----- Reading ------------------------------------------------------------------------------

  /** The value of the last header of that name, empty if there is none. */
  function LastValue(headers: seq<Option<Header>>, name: Text): Text {
    if headers == [] then []
    else
      var last := headers[|headers| - 1];
      if last.Some? && EqualFold(last.value.key, name) then last.value.value
      else LastValue(headers[..|headers| - 1], name)
  }

  function Extracted(headers: seq<Option<Header>>): (RemoteContext, Text) {
    var parsed := ParseTraceparentContext(LastValue(headers, TraceparentHeader()));
    var stamp := LastValue(headers, EnqueuedAtHeader());
    if parsed.None? then (NO_CONTEXT, stamp)
    else (parsed.value.(tracestate := Tracestate.Normal(LastValue(headers, TracestateHeader())),
                        baggage := Baggage.Normal(LastValue(headers, BaggageHeader()))), stamp)
  }

  method Extract(headers: seq<Option<Header>>) returns (remote: RemoteContext, enqueuedAt: Text)
    ensures (remote, enqueuedAt) == Extracted(headers)
  {
    hide EqualFold, ParseTraceparentContext, Tracestate.Normal, Baggage.Normal;
    var traceparent, tracestate, baggage: Text := [], [], [];
    enqueuedAt := [];
    assert headers[..0] == [];
    for i := 0 to |headers|
      invariant traceparent == LastValue(headers[..i], TraceparentHeader())
      invariant tracestate == LastValue(headers[..i], TracestateHeader())
      invariant baggage == LastValue(headers[..i], BaggageHeader())
      invariant enqueuedAt == LastValue(headers[..i], EnqueuedAtHeader())
    {
      assert headers[..i + 1][..i] == headers[..i];
      var header := headers[i];
      if header.None? {
        continue;
      }
      var key, value := header.value.key, header.value.value;
      OneNameOnly(key);
      if EqualFold(key, TraceparentHeader()) {
        traceparent := value;
      } else if EqualFold(key, TracestateHeader()) {
        tracestate := value;
      } else if EqualFold(key, BaggageHeader()) {
        baggage := value;
      } else if EqualFold(key, EnqueuedAtHeader()) {
        enqueuedAt := value;
      }
    }
    assert headers[..|headers|] == headers;
    var parsed := ParseTraceparentContext(traceparent);
    if parsed.None? {
      return NO_CONTEXT, enqueuedAt;
    }
    var state := Tracestate.NormalizeTracestate(tracestate);
    var bag := Baggage.NormalizeBaggage(baggage);
    return parsed.value.(tracestate := state, baggage := bag), enqueuedAt;
  }

  /** No key is two of the four names at once. */
  lemma OneNameOnly(key: Text)
    ensures forall a, b {:trigger EqualFold(key, a), EqualFold(key, b)} ::
      IsContextName(a) && IsContextName(b) && EqualFold(key, a) && EqualFold(key, b) ==> a == b
  {
    NamesAreLower();
    forall a, b | IsContextName(a) && IsContextName(b) && EqualFold(key, a) && EqualFold(key, b) ensures a == b {
      EqualFoldUnique(key, a, b);
    }
  }

  // ----- Across the broker ----------------------------------------------------------------------

  /** The broker delivers every header as it was produced. */
  function Delivered(headers: seq<Header>): seq<Option<Header>> {
    seq(|headers|, i requires 0 <= i < |headers| => Some(headers[i]))
  }

  lemma {:induction false} LastValueAbsent(headers: seq<Header>, name: Text)
    requires !Carries(headers, name)
    ensures LastValue(Delivered(headers), name) == []
  {
    hide EqualFold;
    if headers != [] {
      var init := headers[..|headers| - 1];
      CarriesPrefix(init, headers);
      LastValueAbsent(init, name);
      assert Delivered(headers)[..|headers| - 1] == Delivered(init);
    }
  }

  /** A header written by WithHeader is what a reader of that name finds; readers of the other
      names find what they found before. */
  lemma LastValueWith(headers: seq<Header>, name: Text, value: Text, other: Text)
    requires IsContextName(name) && IsContextName(other)
    requires !Carries(headers, name)
    ensures LastValue(Delivered(WithHeader(headers, name, value)), name) == value
    ensures other != name ==>
      LastValue(Delivered(WithHeader(headers, name, value)), other) == LastValue(Delivered(headers), other)
    ensures other != name ==> (Carries(WithHeader(headers, name, value), other) <==> Carries(headers, other))
  {
    hide EqualFold, Ascii, LastValue, Carries, Delivered, IsLower;
    NamesAreLower();
    EqualFoldSelf(name);
    LastValueAbsent(headers, name);
    if EqualFold(name, other) { EqualFoldUnique(name, name, other); }
    LastValueSnoc(headers, Header(name, value), name);
    LastValueSnoc(headers, Header(name, value), other);
  }

  lemma LastValueSnoc(headers: seq<Header>, header: Header, name: Text)
    ensures LastValue(Delivered(headers + [header]), name) ==
      if EqualFold(header.key, name) then header.value else LastValue(Delivered(headers), name)
    ensures Carries(headers + [header], name) <==> Carries(headers, name) || EqualFold(header.key, name)
  {
    hide EqualFold;
    var h := headers + [header];
    assert Delivered(h)[..|h| - 1] == Delivered(headers);
    assert h[|headers|] == header;
    CarriesPrefix(headers, h);
  }

  predicate CarriesNone(headers: seq<Header>) {
    !Carries(headers, TraceparentHeader()) && !Carries(headers, TracestateHeader()) &&
    !Carries(headers, BaggageHeader()) && !Carries(headers, EnqueuedAtHeader())
  }

  /** What a consumer's four reads find of a publish onto headers that carried none of them. */
  lemma InjectedValues(headers: seq<Header>, span: Span, stamp: Text)
    requires CarriesNone(headers)
    ensures var d := Delivered(Injected(headers, Some(span), stamp));
      LastValue(d, TraceparentHeader()) == TraceparentOf(Some(span)) &&
      LastValue(d, TracestateHeader()) == span.tracestate &&
      LastValue(d, BaggageHeader()) == span.baggage &&
      LastValue(d, EnqueuedAtHeader()) == stamp
  {
    var tp, ts, bg, at := TraceparentHeader(), TracestateHeader(), BaggageHeader(), EnqueuedAtHeader();
    assert |tp| == 11 && |ts| == 10 && |bg| == 7 && |at| == 21;
    hide Carries, LastValue, WithHeader, Delivered, TraceparentHeader, TracestateHeader, BaggageHeader, EnqueuedAtHeader, TraceparentOf;
    var h1 := WithHeader(headers, tp, TraceparentOf(Some(span)));
    LastValueWith(headers, tp, TraceparentOf(Some(span)), ts);
    LastValueWith(headers, tp, TraceparentOf(Some(span)), bg);
    LastValueWith(headers, tp, TraceparentOf(Some(span)), at);
    var h2 := WithHeader(h1, ts, span.tracestate);
    LastValueWith(h1, ts, span.tracestate, tp);
    LastValueWith(h1, ts, span.tracestate, bg);
    LastValueWith(h1, ts, span.tracestate, at);
    var h3 := WithHeader(h2, bg, span.baggage);
    LastValueWith(h2, bg, span.baggage, tp);
    LastValueWith(h2, bg, span.baggage, ts);
    LastValueWith(h2, bg, span.baggage, at);
    LastValueWith(h3, at, stamp, tp);
    LastValueWith(h3, at, stamp, ts);
    LastValueWith(h3, at, stamp, bg);
  }

  /** Publishing and consuming hands the consumer the span's ids and flag, and its companion
      headers in normal form. */
  lemma ExtractInvertsInject(headers: seq<Header>, span: Span, stamp: Text)
    requires CarriesNone(headers) && WellFormedIds(span.traceId, span.spanId)
    ensures Extracted(Delivered(Injected(headers, Some(span), stamp))) ==
      (RemoteContext(span.traceId, span.spanId, span.sampled,
                     Tracestate.Normal(span.tracestate), Baggage.Normal(span.baggage)), stamp)
    ensures Extracted(Delivered(Injected(headers, Some(span), stamp))).0 == RemoteOf(span) <==>
      Tracestate.Normal(span.tracestate) == span.tracestate && Baggage.Normal(span.baggage) == span.baggage
  {
    hide Injected, LastValue, Tracestate.Normal, Baggage.Normal, ParseTraceparentContext, FormatTraceparent;
    InjectedValues(headers, span, stamp);
    ParseInvertsFormat(span.traceId, span.spanId, span.sampled);
  }

  // ----- The span of a consumed message ---------------------------------------------------------

  /** startProcessSpan: the n-th span, under what the message's headers say. */
  function StartProcessSpan(ctx: Context, headers: seq<Option<Header>>, ids: Ids, n: nat): (r: (Context, Span))
    ensures SpanFromContext(r.0) == Some(r.1) && r.1.number == Some(n) && r.1.spanId == ids.span(n)
  {
    StartSpan(ContextWithRemoteContext(ctx, Extracted(headers).0), ids, n)
  }

  /** A message with a valid traceparent is processed in its publisher's trace, as a child of
      the publish - whatever span is active in the context the consumer runs under - and so is
      all work started from the message's context. */
  lemma MessageContinuesPublish(ctx: Context, headers: seq<Option<Header>>, work: Work, ids: Ids, n: nat, m: nat)
    requires ParseTraceparentContext(LastValue(headers, TraceparentHeader())).Some?
    ensures var (inner, span) := StartProcessSpan(ctx, headers, ids, n);
      var remote := Extracted(headers).0;
      span == Span(Some(n), remote.traceId, ids.span(n), remote.spanId, remote.sampled, remote.tracestate, remote.baggage) &&
      Continues(Perform(inner, work, ids, m).0, span.spanId, RemoteOf(span))
  {
    hide LastValue, Tracestate.Normal, Baggage.Normal;
    var header := LastValue(headers, TraceparentHeader());
    ParsesExactlyVersion00(header);
    var (inner, span) := StartProcessSpan(ctx, headers, ids, n);
    WorkContinues(inner, work, ids, m);
  }

  /** A message without a valid traceparent is processed where the consumer is: in the trace that
      is active there, or in a new one, sampled, if none is. So is all work under it. */
  lemma MessageWithoutPublish(ctx: Context, headers: seq<Option<Header>>, work: Work, ids: Ids, n: nat, m: nat)
    requires ParseTraceparentContext(LastValue(headers, TraceparentHeader())).None? && ids.trace(n) != []
    ensures var (inner, span) := StartProcessSpan(ctx, headers, ids, n);
      Continues(Perform(inner, work, ids, m).0, span.spanId, RemoteOf(span)) &&
      (if NoTrace(ctx) then span == Root(ids, n)
       else RemoteOf(span).(spanId := span.parentId) == RemoteOf(SpanFromContext(ctx).value))
  {
    hide LastValue, ParseTraceparentContext;
    var (inner, span) := StartProcessSpan(ctx, headers, ids, n);
    WorkContinues(inner, work, ids, m);
  }

  /** A trace started here reaches the next consumer sampled, with its ids and nothing else. */
  lemma RootReachesConsumer(headers: seq<Header>, stamp: Text, ids: Ids, n: nat)
    requires CarriesNone(headers) && WellFormedIds(ids.trace(n), ids.span(n))
    ensures Extracted(Delivered(Injected(headers, Some(Root(ids, n)), stamp))) ==
      (RemoteContext(ids.trace(n), ids.span(n), true, [], []), stamp)
  {
    hide Injected, Delivered, Extracted, Carries, Tracestate.Normal, Baggage.Normal;
    ExtractInvertsInject(headers, Root(ids, n), stamp);
    NothingNormal();
  }

  lemma NothingTrimmed()
    ensures TrimSpace([]) == []
  {
  }

  lemma NothingNormal()
    ensures Tracestate.Normal([]) == [] && Baggage.Normal([]) == []
  {
    NothingTrimmed();
    Tracestate.NothingKept([]);
    Baggage.NothingKept([]);
  }

  predicate WellFormedSpanId(id: Text) {
    LowerHex(id, 16) && !AllZero(id)
  }

  /** From the second hop on nothing changes any more: a span started from an extracted context
      reaches the next consumer exactly, if its baggage fits the header cap. */
  lemma SecondHopIsExact(ctx: Context, headers: seq<Option<Header>>, outbound: seq<Header>, stamp: Text, ids: Ids, n: nat)
    requires WellFormedSpanId(ids.span(n)) && CarriesNone(outbound)
    requires ParseTraceparentContext(LastValue(headers, TraceparentHeader())).Some?
    ensures var span := StartProcessSpan(ctx, headers, ids, n).1;
      Extracted(Delivered(Injected(outbound, Some(span), stamp))).0 == RemoteOf(span) <==>
        |span.baggage| <= Baggage.MAX_HEADER_BYTES
  {
    hide LastValue, Tracestate.Normal, Baggage.Normal, Injected, Delivered, Carries;
    var header := LastValue(headers, TraceparentHeader());
    ParsesExactlyVersion00(header);
    var span := StartProcessSpan(ctx, headers, ids, n).1;
    MessageContinuesPublish(ctx, headers, Work([]), ids, n, n);
    ExtractInvertsInject(outbound, span, stamp);
    Tracestate.Idempotent(LastValue(headers, TracestateHeader()));
    Baggage.IdempotentWhenItFits(LastValue(headers, BaggageHeader()));
  }
}
