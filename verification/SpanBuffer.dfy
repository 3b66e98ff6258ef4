/** The bounded span buffer and the flush that drains it (span_buffer.go). The classes change
    their fields as the source does; `Buffer` and `Store` are the values those fields hold, and
    the functions on them say what each method does. */
module SpanBuffer {
  import opened Bytes

  const DEFAULT_SPAN_BATCH_SIZE := 200

  // ----- The buffer as a value --------------------------------------------------------------

  datatype Buffer<T> = Buffer(spans: seq<T>, dropped: nat, batchSize: nat, maxBuffered: nat)

  /** What newSpanBuffer guarantees and every operation keeps. */
  predicate Sane<T>(b: Buffer<T>) {
    1 <= b.batchSize <= b.maxBuffered && |b.spans| <= b.maxBuffered
  }

  function EffectiveBatchSize(batchSize: int, maxBuffered: int): (n: nat)
    ensures n >= 1
    ensures maxBuffered > 0 ==> n <= maxBuffered
    ensures batchSize > 0 ==> n <= batchSize
  {
    var wanted := if batchSize <= 0 then DEFAULT_SPAN_BATCH_SIZE else batchSize;
    if 0 < maxBuffered < wanted then maxBuffered else wanted
  }

  function EffectiveCap(batchSize: int, maxBuffered: int): (n: nat)
    ensures n >= EffectiveBatchSize(batchSize, maxBuffered)
    ensures maxBuffered > 0 ==> n == maxBuffered
  {
    if maxBuffered <= 0 then EffectiveBatchSize(batchSize, maxBuffered) else maxBuffered
  }

  function NewBuffer<T>(batchSize: int, maxBuffered: int): (b: Buffer<T>)
    ensures Sane(b)
  {
    Buffer([], 0, EffectiveBatchSize(batchSize, maxBuffered), EffectiveCap(batchSize, maxBuffered))
  }

  predicate AtCap<T>(b: Buffer<T>) {
    |b.spans| >= b.maxBuffered
  }

  /** add: bank the span, or count it as dropped when the buffer is at its cap. */
  function Added<T>(b: Buffer<T>, record: T): Buffer<T> {
    if AtCap(b) then b.(dropped := b.dropped + 1) else b.(spans := b.spans + [record])
  }

  /** add's result: the flush threshold is reached by a span that was banked. */
  predicate FillsBatch<T>(b: Buffer<T>) {
    !AtCap(b) && |b.spans| + 1 >= b.batchSize
  }

  function TakeCount<T>(b: Buffer<T>, all: bool): (n: nat)
    ensures n <= |b.spans| && (b.spans != [] && b.batchSize > 0 ==> n > 0)
  {
    if !all && |b.spans| > b.batchSize then b.batchSize else |b.spans|
  }

  /** How much of a failed batch still fits. */
  function Room<T>(b: Buffer<T>, records: seq<T>): (n: nat)
    ensures n <= |records|
  {
    if |b.spans| + |records| <= b.maxBuffered then |records|
    else if |b.spans| <= b.maxBuffered then b.maxBuffered - |b.spans|
    else 0
  }

  function Requeued<T>(b: Buffer<T>, records: seq<T>): Buffer<T> {
    var room := Room(b, records);
    b.(spans := records[..room] + b.spans, dropped := b.dropped + (|records| - room))
  }

  // ----- The buffer, changed in place ---------------------------------------------------------

  class Spans<T> {
    var spans: seq<T>
    var dropped: nat
    const batchSize: nat
    const maxBuffered: nat

    ghost function View(): Buffer<T>
      reads this
    {
      Buffer(spans, dropped, batchSize, maxBuffered)
    }

    ghost predicate Valid()
      reads this
    {
      Sane(View())
    }

    constructor (batchSize: int, maxBuffered: int)
      ensures View() == NewBuffer(batchSize, maxBuffered)
    {
      var size, cap := batchSize, maxBuffered;
      if size <= 0 {
        size := DEFAULT_SPAN_BATCH_SIZE;
      }
      if cap > 0 && cap < size {
        size := cap;
      }
      if cap <= 0 {
        cap := size;
      }
      this.spans, this.dropped := [], 0;
      this.batchSize, this.maxBuffered := size, cap;
    }

    method Add(record: T) returns (full: bool)
      requires Valid()
      modifies this
      ensures Valid() && View() == Added(old(View()), record)
      ensures full <==> FillsBatch(old(View()))
    {
      if |spans| >= maxBuffered {
        dropped := dropped + 1;
        return false;
      }
      spans := spans + [record];
      return |spans| >= batchSize;
    }

    /** Up to batchSize spans from the head, or everything. */
    method Take(all: bool) returns (out: seq<T>)
      requires Valid()
      modifies this
      ensures Valid()
      ensures out + spans == old(spans) && |out| == TakeCount(old(View()), all)
      ensures |out| == if all || |old(spans)| <= batchSize then |old(spans)| else batchSize
      ensures dropped == old(dropped)
    {
      if |spans| == 0 {
        return [];
      }
      var n := |spans|;
      if !all && n > batchSize {
        n := batchSize;
      }
      out := spans[..n];
      var remaining := spans[n..];
      spans := [];
      spans := spans + remaining;
    }

    method Requeue(records: seq<T>)
      requires Valid()
      modifies this
      ensures Valid() && View() == Requeued(old(View()), records)
    {
      var room := maxBuffered - |spans|;
      if room < 0 {
        room := 0;
      }
      var kept := records;
      if |kept| > room {
        dropped := dropped + (|kept| - room);
        kept := kept[..room];
      }
      assert kept == records[..Room(old(View()), records)];
      spans := kept + spans;
    }
  }

  // ----- The flush, one goroutine at a time -----------------------------------------------------

  /** The buffer, the documents the spool has taken, and how often it has been asked. */
  datatype Store<T> = Store(buffer: Buffer<T>, documents: seq<seq<T>>, attempts: nat)

  /** Whether the spool takes the n-th document it is offered. */
  type Spool = nat -> bool

  function Flushed<T>(st: Store<T>, all: bool, accepts: Spool): Store<T> {
    var n := TakeCount(st.buffer, all);
    if n == 0 then st
    else if accepts(st.attempts) then
      Store(st.buffer.(spans := st.buffer.spans[n..]), st.documents + [st.buffer.spans[..n]], st.attempts + 1)
    else st.(attempts := st.attempts + 1)
  }

  function Enqueued<T>(st: Store<T>, record: T, accepts: Spool): Store<T> {
    var banked := st.(buffer := Added(st.buffer, record));
    if FillsBatch(st.buffer) then Flushed(banked, false, accepts) else banked
  }

  function EnqueuedAll<T>(st: Store<T>, records: seq<T>, accepts: Spool): Store<T>
    decreases |records|
  {
    if records == [] then st else EnqueuedAll(Enqueued(st, records[0], accepts), records[1..], accepts)
  }

  class Client<T> {
    const buffer: Spans<T>
    var documents: seq<seq<T>>
    var attempts: nat
    const accepts: Spool

    ghost function View(): Store<T>
      reads this, buffer
    {
      Store(buffer.View(), documents, attempts)
    }

    ghost predicate Valid()
      reads this, buffer
    {
      buffer.Valid()
    }

    constructor (batchSize: int, maxBuffered: int, accepts: Spool)
      ensures Valid() && fresh(buffer) && this.accepts == accepts
      ensures View() == Store(NewBuffer(batchSize, maxBuffered), [], 0)
    {
      buffer := new Spans<T>(batchSize, maxBuffered);
      documents, attempts := [], 0;
      this.accepts := accepts;
    }

    /** writer.WriteJSON: appends one document, or fails and appends nothing. */
    method WriteDocument(records: seq<T>) returns (ok: bool)
      modifies this
      ensures ok <==> accepts(old(attempts))
      ensures attempts == old(attempts) + 1
      ensures documents == if ok then old(documents) + [records] else old(documents)
    {
      ok := accepts(attempts);
      attempts := attempts + 1;
      if ok {
        documents := documents + [records];
      }
    }

    /** A failed write puts the whole batch back where it was. */
    method FlushSpanBatch(all: bool) returns (ok: bool)
      requires Valid()
      modifies this, buffer
      ensures Valid() && View() == Flushed(old(View()), all, accepts)
      ensures ok <==> old(buffer.spans) == [] || accepts(old(attempts))
    {
      ghost var first := true;
      while true
        invariant Valid()
        invariant first ==> View() == old(View())
        invariant !first ==> all && old(buffer.spans) != [] && accepts(old(attempts)) && buffer.spans == []
        invariant !first ==> View() == Flushed(old(View()), all, accepts)
        decreases first
      {
        ghost var before := buffer.spans;
        var records := buffer.Take(all);
        if |records| == 0 {
          assert buffer.spans == before;
          return true;
        }
        assert records == before[..|records|] && buffer.spans == before[|records|..];
        var written := WriteDocument(records);
        if !written {
          buffer.Requeue(records);
          assert buffer.spans == before;
          return false;
        }
        if !all {
          return true;
        }
        first := false;
      }
    }

    method EnqueueSpan(record: T)
      requires Valid()
      modifies this, buffer
      ensures Valid() && View() == Enqueued(old(View()), record, accepts)
    {
      var full := buffer.Add(record);
      if !full {
        return;
      }
      var _ := FlushSpanBatch(false);
    }

    method FlushSpans() returns (ok: bool)
      requires Valid()
      modifies this, buffer
      ensures Valid() && View() == Flushed(old(View()), true, accepts)
      ensures ok <==> old(buffer.spans) == [] || accepts(old(attempts))
    {
      ok := FlushSpanBatch(true);
    }
  }

  // ----- A sequential run with a working spool ---------------------------------------------------

  /** A sequence cut into pieces of k, the last one possibly shorter. */
  function Chunks<T>(s: seq<T>, k: nat): seq<seq<T>>
    requires k > 0
    decreases |s|
  {
    if |s| == 0 then []
    else if |s| <= k then [s]
    else [s[..k]] + Chunks(s[k..], k)
  }

  /** c is n divided by k, rounded up. */
  predicate IsCeiling(c: nat, n: nat, k: nat) {
    n <= c * k && c * k < n + k
  }

  /** The pieces, together, are the sequence; none is empty or longer than k; and there are
      as many as N divided by k, rounded up. */
  lemma {:induction false} ChunksPartition<T>(s: seq<T>, k: nat)
    requires k > 0
    ensures Flatten(Chunks(s, k)) == s
    ensures forall i :: 0 <= i < |Chunks(s, k)| ==> 1 <= |Chunks(s, k)[i]| <= k
    ensures IsCeiling(|Chunks(s, k)|, |s|, k)
    decreases |s|
  {
    var c := Chunks(s, k);
    if |s| > k {
      var rest := Chunks(s[k..], k);
      ChunksPartition(s[k..], k);
      hide Chunks;
      assert c[1..] == rest && s == s[..k] + s[k..];
      assert (|rest| + 1) * k == |rest| * k + k;
    } else if |s| > 0 {
      assert Flatten(c) == s + Flatten([]);
    }
  }

  ghost predicate AlwaysAccepts(accepts: Spool) {
    forall n: nat :: accepts(n)
  }

  lemma ChunksStep<T>(head: seq<T>, tail: seq<T>, k: nat)
    requires |head| == k > 0
    ensures Chunks(head + tail, k) == [head] + Chunks(tail, k)
  {
    assert (head + tail)[..k] == head && (head + tail)[k..] == tail;
    if tail == [] {
      assert head + tail == head;
    }
  }

  /** Feeding the rest of the spans to a partly filled buffer and flushing writes the pending
      and the remaining spans in batches. */
  lemma {:induction false} DrainsInChunks<T>(st: Store<T>, records: seq<T>, accepts: Spool)
    requires Sane(st.buffer) && |st.buffer.spans| < st.buffer.batchSize && AlwaysAccepts(accepts)
    ensures var done := Flushed(EnqueuedAll(st, records, accepts), true, accepts);
      done.documents == st.documents + Chunks(st.buffer.spans + records, st.buffer.batchSize) &&
      done.buffer == st.buffer.(spans := [])
    decreases |records|
  {
    var pending, k := st.buffer.spans, st.buffer.batchSize;
    if records == [] {
      assert pending + records == pending;
    } else {
      var grown := pending + [records[0]];
      var next := Enqueued(st, records[0], accepts);
      EnqueuedOne(st, records[0], accepts);
      hide Flushed, Enqueued, Chunks;
      DrainsInChunks(next, records[1..], accepts);
      assert pending + records == grown + records[1..];
      if |grown| == k {
        ChunksStep(grown, records[1..], k);
        assert [] + records[1..] == records[1..];
        assert st.documents + ([grown] + Chunks(records[1..], k)) == (st.documents + [grown]) + Chunks(records[1..], k);
      }
    }
  }

  /** A span that fills the batch sends it off. */
  lemma EnqueuedOne<T>(st: Store<T>, record: T, accepts: Spool)
    requires Sane(st.buffer) && |st.buffer.spans| < st.buffer.batchSize && AlwaysAccepts(accepts)
    ensures var grown := st.buffer.spans + [record];
      var next := Enqueued(st, record, accepts);
      if |grown| == st.buffer.batchSize then
        next.buffer == st.buffer.(spans := []) && next.documents == st.documents + [grown]
      else next == st.(buffer := st.buffer.(spans := grown))
  {
    var grown := st.buffer.spans + [record];
    assert grown[..|grown|] == grown;
  }

  /** For every pair of constructor arguments: N spans and then FlushSpans produce ceil(N / k)
      documents, none longer than k, whose concatenation is the N spans in order, and drop
      none. */
  lemma SequentialRun<T>(batchSize: int, maxBuffered: int, records: seq<T>, accepts: Spool)
    requires AlwaysAccepts(accepts)
    ensures var k := EffectiveBatchSize(batchSize, maxBuffered);
      var done := Flushed(EnqueuedAll(Store(NewBuffer(batchSize, maxBuffered), [], 0), records, accepts), true, accepts);
      && IsCeiling(|done.documents|, |records|, k)
      && (forall i :: 0 <= i < |done.documents| ==> 1 <= |done.documents[i]| <= k)
      && Flatten(done.documents) == records
      && done.buffer.spans == [] && done.buffer.dropped == 0
  {
    var st: Store<T> := Store(NewBuffer(batchSize, maxBuffered), [], 0);
    DrainsInChunks(st, records, accepts);
    ChunksPartition(records, st.buffer.batchSize);
    assert [] + records == records;
    assert [] + Chunks(records, st.buffer.batchSize) == Chunks(records, st.buffer.batchSize);
  }

  // ----- A spool that fails ----------------------------------------------------------------------

  /** Taking a batch and putting it straight back changes nothing. */
  lemma TakeThenRequeue<T>(b: Buffer<T>, all: bool)
    requires Sane(b)
    ensures var n := TakeCount(b, all);
      Requeued(b.(spans := b.spans[n..]), b.spans[..n]) == b
  {
    var n := TakeCount(b, all);
    assert b.spans[..n][..n] + b.spans[n..] == b.spans;
  }

  /** At the cap the inline flush is never retried: further spans are only counted, and the
      spool is not asked again until a FlushSpans. */
  lemma {:induction false} AtCapNeverRetries<T>(st: Store<T>, records: seq<T>, accepts: Spool)
    requires AtCap(st.buffer)
    ensures EnqueuedAll(st, records, accepts)
         == st.(buffer := st.buffer.(dropped := st.buffer.dropped + |records|))
    decreases |records|
  {
    if records != [] {
      AtCapNeverRetries(Enqueued(st, records[0], accepts), records[1..], accepts);
    }
  }

  /** The spool is asked for a span if and only if the span is banked and fills the batch. */
  lemma AskedIffFilled<T>(st: Store<T>, record: T, accepts: Spool)
    requires Sane(st.buffer)
    ensures Enqueued(st, record, accepts).attempts == st.attempts + if FillsBatch(st.buffer) then 1 else 0
  {
  }

  /** Short of the cap, some number of spans fills the batch. */
  lemma FillsEventually<T>(st: Store<T>, record: T, accepts: Spool) returns (records: seq<T>)
    requires Sane(st.buffer) && !AtCap(st.buffer)
    ensures EnqueuedAll(st, records, accepts).attempts == st.attempts + 1
    decreases st.buffer.batchSize - |st.buffer.spans|
  {
    var next := Enqueued(st, record, accepts);
    AskedIffFilled(st, record, accepts);
    if FillsBatch(st.buffer) {
      records := [record];
      assert EnqueuedAll(next, [], accepts) == next;
    } else {
      var rest := FillsEventually(next, record, accepts);
      records := [record] + rest;
      assert records[1..] == rest;
    }
  }

  /** No sequence of spans makes the client ask the spool again if and only if the buffer is at
      its cap. */
  lemma NeverAskedIffAtCap<T>(st: Store<T>, record: T, accepts: Spool)
    requires Sane(st.buffer)
    ensures (forall records: seq<T> :: EnqueuedAll(st, records, accepts).attempts == st.attempts) <==> AtCap(st.buffer)
  {
    hide EnqueuedAll;
    if AtCap(st.buffer) {
      forall records: seq<T> ensures EnqueuedAll(st, records, accepts).attempts == st.attempts {
        AtCapNeverRetries(st, records, accepts);
      }
    } else {
      var records := FillsEventually(st, record, accepts);
    }
  }

  // ----- What a flush offers, and what a refusal leaves --------------------------------------------

  function Least(a: nat, b: nat): nat {
    if a <= b then a else b
  }

  /** A flush that is not of everything offers the first batchSize spans, or what there is, and
      takes them out if and only if the spool accepts; an empty buffer is not offered. */
  lemma FlushOffersOneBatch<T>(st: Store<T>, accepts: Spool)
    requires Sane(st.buffer)
    ensures var n := Least(st.buffer.batchSize, |st.buffer.spans|);
      Flushed(st, false, accepts) ==
        if st.buffer.spans == [] then st
        else if accepts(st.attempts) then
          Store(st.buffer.(spans := st.buffer.spans[n..]), st.documents + [st.buffer.spans[..n]], st.attempts + 1)
        else st.(attempts := st.attempts + 1)
  {
  }

  lemma EnqueuedKeepsSane<T>(st: Store<T>, record: T, accepts: Spool)
    requires Sane(st.buffer)
    ensures var next := Enqueued(st, record, accepts);
      Sane(next.buffer) && next.buffer.batchSize == st.buffer.batchSize && st.documents <= next.documents &&
      forall i :: |st.documents| <= i < |next.documents| ==> 1 <= |next.documents[i]| <= st.buffer.batchSize
  {
  }

  /** Whatever the spool does, no document an inline flush writes is longer than a batch. */
  lemma {:induction false} InlineDocumentsAreBatches<T>(st: Store<T>, records: seq<T>, accepts: Spool)
    requires Sane(st.buffer)
    ensures var done := EnqueuedAll(st, records, accepts);
      Sane(done.buffer) && done.buffer.batchSize == st.buffer.batchSize && st.documents <= done.documents &&
      forall i :: |st.documents| <= i < |done.documents| ==> 1 <= |done.documents[i]| <= st.buffer.batchSize
    decreases |records|
  {
    hide Sane, Enqueued;
    if records != [] {
      EnqueuedKeepsSane(st, records[0], accepts);
      InlineDocumentsAreBatches(Enqueued(st, records[0], accepts), records[1..], accepts);
    }
  }

  /** What is put back is the first of what was taken, as much as fits, and the rest is counted. */
  lemma RequeueKeepsWhatFits<T>(b: Buffer<T>, records: seq<T>)
    requires Sane(b)
    ensures var r := Requeued(b, records);
      var kept := |r.spans| - |b.spans|;
      Sane(r) && |r.spans| == Least(b.maxBuffered, |records| + |b.spans|) &&
      0 <= kept <= |records| && r.spans == records[..kept] + b.spans && r.dropped == b.dropped + (|records| - kept)
  {
  }

  /** The constructor's corrections: the smaller of the cap and the size asked for, 200 if none is;
      and the cap asked for, or one batch if none is. */
  lemma EffectiveSizes(batchSize: int, maxBuffered: int)
    ensures var wanted := if batchSize > 0 then batchSize else 200;
      EffectiveBatchSize(batchSize, maxBuffered) == (if maxBuffered > 0 then Least(wanted, maxBuffered) else wanted) &&
      EffectiveCap(batchSize, maxBuffered) == (if maxBuffered > 0 then maxBuffered else wanted)
  {
  }
}
