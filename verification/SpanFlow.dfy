/** Spans on their way to the spool with any number of flushes in flight: each operation of the
    buffer is one step under its mutex, and a flush takes, writes and, if that fails, requeues
    in separate steps. An arbitrary event list is a run. */
module SpanFlow {
  import opened Bytes
  import opened SpanBuffer

  /** `inFlight` holds the batches that flushers have taken and not yet written or put back, the
      oldest first. `ended` and `shed` record every span ended and every span discarded. */
  datatype Flow<T> = Flow(
    buffer: Buffer<T>, inFlight: seq<seq<T>>, written: seq<seq<T>>,
    ended: seq<T>, shed: seq<T>)

  /** Commit and Fail are the write of the i-th oldest batch in flight. */
  datatype Event<T> = End(span: T) | Take(all: bool) | Commit(i: nat) | Fail(i: nat)

  function Start<T>(batchSize: int, maxBuffered: int): Flow<T> {
    Flow(NewBuffer(batchSize, maxBuffered), [], [], [], [])
  }

  function Without<T>(parts: seq<T>, i: nat): seq<T>
    requires i < |parts|
  {
    parts[..i] + parts[i + 1..]
  }

  function Apply<T>(f: Flow<T>, e: Event<T>): Flow<T> {
    match e
    case End(x) =>
      f.(buffer := Added(f.buffer, x), ended := f.ended + [x],
         shed := if AtCap(f.buffer) then f.shed + [x] else f.shed)
    case Take(all) =>
      var n := TakeCount(f.buffer, all);
      if n == 0 then f
      else f.(buffer := f.buffer.(spans := f.buffer.spans[n..]), inFlight := f.inFlight + [f.buffer.spans[..n]])
    case Commit(i) =>
      if i >= |f.inFlight| then f
      else f.(written := f.written + [f.inFlight[i]], inFlight := Without(f.inFlight, i))
    case Fail(i) =>
      if i >= |f.inFlight| then f
      else
        var records := f.inFlight[i];
        f.(buffer := Requeued(f.buffer, records), inFlight := Without(f.inFlight, i),
           shed := f.shed + records[Room(f.buffer, records)..])
  }

  function Execute<T>(f: Flow<T>, run: seq<Event<T>>): Flow<T>
    decreases |run|
  {
    if run == [] then f else Execute(Apply(f, run[0]), run[1..])
  }

  // ----- Conservation, for any number of flushers --------------------------------------------

  function Accounted<T(==)>(f: Flow<T>): multiset<T> {
    multiset(Flatten(f.written)) + multiset(Flatten(f.inFlight)) + multiset(f.buffer.spans) + multiset(f.shed)
  }

  /** Every span ended is written, in flight, buffered or dropped, as often as it was ended;
      the counter counts the dropped ones; and the buffer is within its cap. */
  predicate Conserved<T(==)>(f: Flow<T>) {
    multiset(f.ended) == Accounted(f) &&
    f.buffer.dropped == |f.shed| &&
    Sane(f.buffer)
  }

  lemma FlattenAround<T>(parts: seq<seq<T>>, i: nat)
    requires i < |parts|
    ensures Flatten(parts) == Flatten(parts[..i]) + parts[i] + Flatten(parts[i + 1..])
    ensures Flatten(Without(parts, i)) == Flatten(parts[..i]) + Flatten(parts[i + 1..])
  {
    hide Flatten;
    var older, younger := parts[..i], parts[i + 1..];
    var upTo := older + [parts[i]];
    FlattenSnoc(older, parts[i]);
    FlattenAppend(upTo, younger);
    assert parts == upTo + younger;
    FlattenAppend(older, younger);
  }

  lemma MultisetWithout<T>(parts: seq<seq<T>>, i: nat)
    requires i < |parts|
    ensures multiset(Flatten(parts)) == multiset(Flatten(Without(parts, i))) + multiset(parts[i])
  {
    hide Flatten, Without;
    FlattenAround(parts, i);
  }

  lemma MultisetSplit<T>(s: seq<T>, n: nat)
    requires n <= |s|
    ensures multiset(s) == multiset(s[..n]) + multiset(s[n..])
  {
    assert s == s[..n] + s[n..];
  }

  /** Part of what was held moves from one place to another. */
  lemma Moved<T>(w: multiset<T>, f: multiset<T>, b: multiset<T>, s: multiset<T>, f': multiset<T>, x: multiset<T>, y: multiset<T>)
    ensures f' == f + x && b == x + y ==> w + f' + y + s == w + f + b + s
    ensures f' + x == f ==> (w + x) + f' + b + s == w + f + b + s
    ensures f' + (x + y) == f ==> w + f' + (x + b) + (s + y) == w + f + b + s
  {
  }

  lemma ConservedTake<T>(f: Flow<T>, all: bool)
    ensures Accounted(Apply(f, Take(all))) == Accounted(f)
  {
    hide Flatten;
    var n, f' := TakeCount(f.buffer, all), Apply(f, Take(all));
    FlattenSnoc(f.inFlight, f.buffer.spans[..n]);
    MultisetSplit(f.buffer.spans, n);
    Moved(multiset(Flatten(f.written)), multiset(Flatten(f.inFlight)), multiset(f.buffer.spans), multiset(f.shed),
          multiset(Flatten(f'.inFlight)), multiset(f.buffer.spans[..n]), multiset(f'.buffer.spans));
  }

  lemma ConservedCommit<T>(f: Flow<T>, i: nat)
    requires i < |f.inFlight|
    ensures Accounted(Apply(f, Commit(i))) == Accounted(f)
  {
    hide Flatten, Without;
    FlattenSnoc(f.written, f.inFlight[i]);
    MultisetWithout(f.inFlight, i);
    var f' := Apply(f, Commit(i));
    Moved(multiset(Flatten(f.written)), multiset(Flatten(f.inFlight)), multiset(f.buffer.spans), multiset(f.shed),
          multiset(Flatten(f'.inFlight)), multiset(f.inFlight[i]), multiset{});
  }

  lemma ConservedFail<T>(f: Flow<T>, i: nat)
    requires i < |f.inFlight|
    ensures Accounted(Apply(f, Fail(i))) == Accounted(f)
  {
    hide Flatten, Without;
    MultisetWithout(f.inFlight, i);
    var records := f.inFlight[i];
    var room := Room(f.buffer, records);
    MultisetSplit(records, room);
    var f' := Apply(f, Fail(i));
    Moved(multiset(Flatten(f.written)), multiset(Flatten(f.inFlight)), multiset(f.buffer.spans), multiset(f.shed),
          multiset(Flatten(f'.inFlight)), multiset(records[..room]), multiset(records[room..]));
  }

  lemma ConservedEnd<T>(f: Flow<T>, x: T)
    requires Conserved(f)
    ensures Conserved(Apply(f, End(x)))
  {
  }

  lemma ConservedStep<T>(f: Flow<T>, e: Event<T>)
    requires Conserved(f)
    ensures Conserved(Apply(f, e))
  {
    hide Accounted, Without;
    match e
    case End(x) => ConservedEnd(f, x);
    case Take(all) => ConservedTake(f, all);
    case Commit(i) => if i < |f.inFlight| { ConservedCommit(f, i); }
    case Fail(i) => if i < |f.inFlight| { ConservedFail(f, i); }
  }

  /** Conservation in every state of every run, with any number of flushers in flight. */
  lemma {:induction false} ConservedAlways<T>(f: Flow<T>, run: seq<Event<T>>)
    requires Conserved(f)
    ensures Conserved(Execute(f, run))
    decreases |run|
  {
    hide Apply, Conserved;
    if run != [] {
      ConservedStep(f, run[0]);
      ConservedAlways(Apply(f, run[0]), run[1..]);
    }
  }

  /** So conservation holds from any start: nothing is lost that the counter does not count. */
  lemma SpansConserved<T>(batchSize: int, maxBuffered: int, run: seq<Event<T>>)
    ensures Conserved(Execute(Start(batchSize, maxBuffered), run))
  {
    hide Execute;
    FlattenNothing<T>();
    ConservedAlways(Start(batchSize, maxBuffered), run);
  }

  // ----- Order -----------------------------------------------------------------------------------

  /** The spans that are still with us: written, then in flight, then buffered. */
  function Line<T>(f: Flow<T>): seq<T> {
    Flatten(f.written) + Flatten(f.inFlight) + f.buffer.spans
  }

  predicate NoneEmpty<T>(parts: seq<seq<T>>) {
    forall i :: 0 <= i < |parts| ==> |parts[i]| > 0
  }

  /** The line is the order of ending with exactly `dropped` spans left out. */
  ghost predicate InOrder<T>(f: Flow<T>) {
    Sane(f.buffer) && NoneEmpty(f.inFlight) &&
    Subsequence(Line(f), f.ended) && |Line(f)| + f.buffer.dropped == |f.ended|
  }

  /** A write that succeeds is of the oldest batch in flight, and one that fails is of the
      youngest or finds no room for any of its spans. */
  predicate Orderly<T>(f: Flow<T>, e: Event<T>) {
    match e
    case Commit(i) => i == 0 || i >= |f.inFlight|
    case Fail(i) => i + 1 >= |f.inFlight| || Room(f.buffer, f.inFlight[i]) == 0
    case _ => true
  }

  lemma OrderEnd<T>(f: Flow<T>, x: T)
    requires InOrder(f)
    ensures InOrder(Apply(f, End(x)))
  {
    hide Flatten;
    SubsequenceRefl([x]);
    SubsequenceConcat(Line(f), f.ended, [x], [x]);
    var none: seq<T> := [];
    SubsequenceConcat(Line(f), f.ended, none, [x]);
    assert Line(f) + none == Line(f);
    assert Line(f) + [x] == Flatten(f.written) + Flatten(f.inFlight) + (f.buffer.spans + [x]);
  }

  lemma OrderTake<T>(f: Flow<T>, all: bool)
    requires InOrder(f)
    ensures InOrder(Apply(f, Take(all)))
  {
    hide Flatten;
    var n, f' := TakeCount(f.buffer, all), Apply(f, Take(all));
    FlattenSnoc(f.inFlight, f.buffer.spans[..n]);
    assert Line(f') == Line(f);
  }

  lemma OrderCommit<T>(f: Flow<T>)
    requires InOrder(f) && f.inFlight != []
    ensures InOrder(Apply(f, Commit(0)))
  {
    hide Flatten, Subsequence;
    var f' := Apply(f, Commit(0));
    FlattenSnoc(f.written, f.inFlight[0]);
    FlattenHead(f.inFlight);
    assert f'.inFlight == f.inFlight[1..];
    assert Line(f') == Line(f);
  }

  /** Shedding what does not fit leaves a subsequence, if what does is put back in its place. */
  lemma ShedTail<T>(front: seq<T>, records: seq<T>, room: nat, younger: seq<T>, spans: seq<T>)
    requires room <= |records| && (room == 0 || younger == [])
    ensures Subsequence(front + younger + (records[..room] + spans), front + records + younger + spans)
  {
    hide Subsequence;
    LeftOut(front + records[..room], records[room..], younger + spans);
    Rearranged(front, records, room, younger, spans);
  }

  lemma LeftOut<T>(front: seq<T>, out: seq<T>, back: seq<T>)
    ensures Subsequence(front + back, front + out + back)
  {
    hide Subsequence;
    var none: seq<T> := [];
    SubsequenceRefl(front);
    SubsequenceRefl(back);
    NothingIsSubsequence(out);
    SubsequenceConcat(front, front, none, out);
    assert front + none == front;
    SubsequenceConcat(front, front + out, back, back);
  }

  lemma Rearranged<T>(front: seq<T>, records: seq<T>, room: nat, younger: seq<T>, spans: seq<T>)
    requires room <= |records| && (room == 0 || younger == [])
    ensures front + younger + (records[..room] + spans) == (front + records[..room]) + (younger + spans)
    ensures front + records + younger + spans == (front + records[..room]) + records[room..] + (younger + spans)
  {
  }

  lemma NothingIsSubsequence<T>(s: seq<T>)
    ensures Subsequence([], s)
  {
  }

  lemma LineOfFail<T>(f: Flow<T>, i: nat)
    requires i < |f.inFlight|
    ensures var records, front, younger :=
        f.inFlight[i], Flatten(f.written) + Flatten(f.inFlight[..i]), Flatten(f.inFlight[i + 1..]);
      Line(f) == front + records + younger + f.buffer.spans &&
      Line(Apply(f, Fail(i))) == front + younger + (records[..Room(f.buffer, records)] + f.buffer.spans)
  {
    hide Flatten, Without;
    FlattenAround(f.inFlight, i);
  }

  lemma OrderFail<T>(f: Flow<T>, i: nat)
    requires InOrder(f) && i < |f.inFlight| && Orderly(f, Fail(i))
    ensures InOrder(Apply(f, Fail(i)))
  {
    hide Flatten, Subsequence, Line;
    var records, f' := f.inFlight[i], Apply(f, Fail(i));
    var front, younger := Flatten(f.written) + Flatten(f.inFlight[..i]), Flatten(f.inFlight[i + 1..]);
    assert i + 1 == |f.inFlight| ==> younger == [] by { FlattenNothing<T>(); }
    LineOfFail(f, i);
    ShedTail(front, records, Room(f.buffer, records), younger, f.buffer.spans);
    SubsequenceTrans(Line(f'), Line(f), f.ended);
  }

  lemma OrderlyKeepsOrder<T>(f: Flow<T>, e: Event<T>)
    requires InOrder(f) && Orderly(f, e)
    ensures InOrder(Apply(f, e))
  {
    hide InOrder;
    match e
    case End(x) => OrderEnd(f, x);
    case Take(all) => OrderTake(f, all);
    case Commit(i) => if i < |f.inFlight| { OrderCommit(f); }
    case Fail(i) => if i < |f.inFlight| { OrderFail(f, i); }
  }

  // ----- Disorder --------------------------------------------------------------------------------

  ghost predicate Before<T>(s: seq<T>, x: T, y: T) {
    exists i, j :: 0 <= i < j < |s| && s[i] == x && s[j] == y
  }

  lemma BeforeAcross<T>(a: seq<T>, b: seq<T>, i: nat, j: nat)
    requires i < |a| && j < |b|
    ensures Before(a + b, a[i], b[j])
  {
    var s := a + b;
    assert s[i] == a[i] && s[|a| + j] == b[j];
  }

  /** One sequence without repetitions does not have both orders. */
  lemma OneOrder<T>(s: seq<T>, x: T, y: T)
    requires Distinct(s) && Before(s, x, y)
    ensures !Before(s, y, x)
  {
  }

  lemma {:induction false} SubsequenceIndex<T>(a: seq<T>, b: seq<T>, i: nat) returns (k: nat)
    requires Subsequence(a, b) && i < |a|
    ensures k < |b| && b[k] == a[i]
    decreases |b|
  {
    if a[0] == b[0] && Subsequence(a[1..], b[1..]) {
      if i == 0 {
        k := 0;
      } else {
        var rest := SubsequenceIndex(a[1..], b[1..], i - 1);
        k := rest + 1;
      }
    } else {
      var rest := SubsequenceIndex(a, b[1..], i);
      k := rest + 1;
    }
  }

  lemma {:induction false} SubsequenceBefore<T>(a: seq<T>, b: seq<T>, x: T, y: T)
    requires Subsequence(a, b) && Before(a, x, y)
    ensures Before(b, x, y)
    decreases |b|
  {
    var i: nat, j: nat :| i < j < |a| && a[i] == x && a[j] == y;
    if a[0] == b[0] && Subsequence(a[1..], b[1..]) {
      if i == 0 {
        var k := SubsequenceIndex(a[1..], b[1..], j - 1);
        assert b[0] == x && b[k + 1] == y;
      } else {
        assert a[1..][i - 1] == x && a[1..][j - 1] == y;
        SubsequenceBefore(a[1..], b[1..], x, y);
        BeforeBehind(b, x, y);
      }
    } else {
      SubsequenceBefore(a, b[1..], x, y);
      BeforeBehind(b, x, y);
    }
  }

  lemma BeforeBehind<T>(b: seq<T>, x: T, y: T)
    requires b != [] && Before(b[1..], x, y)
    ensures Before(b, x, y)
  {
    var i: nat, j: nat :| i < j < |b| - 1 && b[1..][i] == x && b[1..][j] == y;
    assert b[i + 1] == x && b[j + 1] == y;
  }

  lemma {:induction false} FlattenIndex<T>(parts: seq<seq<T>>, i: nat) returns (k: nat)
    requires i < |parts| && |parts[i]| > 0
    ensures k < |Flatten(parts)| && Flatten(parts)[k] == parts[i][0]
  {
    if i == 0 {
      k := 0;
    } else {
      var rest := FlattenIndex(parts[1..], i - 1);
      k := |parts[0]| + rest;
    }
  }

  /** Two spans in one order before and in the other after: one of the two lines is not in the
      order of ending. */
  lemma Reordered<T>(f: Flow<T>, f': Flow<T>, x: T, y: T)
    requires InOrder(f) && f'.ended == f.ended && Distinct(f.ended)
    requires Before(Line(f), x, y) && Before(Line(f'), y, x)
    ensures !InOrder(f')
  {
    hide Line, Before, Distinct, Subsequence;
    SubsequenceBefore(Line(f), f.ended, x, y);
    OneOrder(f.ended, x, y);
    if Subsequence(Line(f'), f.ended) {
      SubsequenceBefore(Line(f'), f.ended, y, x);
    }
  }

  /** The batch written overtakes the oldest one. */
  lemma CommitDisorders<T>(f: Flow<T>, i: nat)
    requires InOrder(f) && Distinct(f.ended) && 0 < i < |f.inFlight|
    ensures !InOrder(Apply(f, Commit(i)))
  {
    hide Flatten, Subsequence, Before;
    var f', oldest, batch := Apply(f, Commit(i)), f.inFlight[0], f.inFlight[i];
    FlattenHead(f.inFlight);
    var later := f.inFlight[1..];
    var k := FlattenIndex(later, i - 1);
    BeforeAcross(Flatten(f.written) + oldest, Flatten(later) + f.buffer.spans, |Flatten(f.written)|, k);
    assert Line(f) == (Flatten(f.written) + oldest) + (Flatten(later) + f.buffer.spans);
    FlattenSnoc(f.written, batch);
    var l := FlattenIndex(f'.inFlight, 0);
    BeforeAcross(Flatten(f.written) + batch, Flatten(f'.inFlight) + f.buffer.spans, |Flatten(f.written)|, l);
    assert Line(f') == (Flatten(f.written) + batch) + (Flatten(f'.inFlight) + f.buffer.spans);
    Reordered(f, f', oldest[0], batch[0]);
  }

  /** The batch put back falls behind the youngest one. */
  lemma FailDisorders<T>(f: Flow<T>, i: nat)
    requires InOrder(f) && Distinct(f.ended) && i + 1 < |f.inFlight| && Room(f.buffer, f.inFlight[i]) > 0
    ensures !InOrder(Apply(f, Fail(i)))
  {
    hide Flatten, Subsequence, Before, Line, Without;
    var f', records := Apply(f, Fail(i)), f.inFlight[i];
    var front, younger := Flatten(f.written) + Flatten(f.inFlight[..i]), Flatten(f.inFlight[i + 1..]);
    LineOfFail(f, i);
    var k := FlattenIndex(f.inFlight[i + 1..], 0);
    var kept := records[..Room(f.buffer, records)] + f.buffer.spans;
    BeforeAcross(front + records, younger + f.buffer.spans, |front|, k);
    assert Line(f) == (front + records) + (younger + f.buffer.spans);
    BeforeAcross(front + younger, kept, |front| + k, 0);
    Reordered(f, f', records[0], f.inFlight[i + 1][0]);
  }

  /** One event keeps the order if and only if it is orderly, when no span ends twice. */
  lemma OrderKeptIff<T>(f: Flow<T>, e: Event<T>)
    requires InOrder(f) && Distinct(Apply(f, e).ended)
    ensures InOrder(Apply(f, e)) <==> Orderly(f, e)
  {
    hide InOrder, Distinct;
    if Orderly(f, e) {
      OrderlyKeepsOrder(f, e);
    } else if e.Commit? {
      CommitDisorders(f, e.i);
    } else {
      FailDisorders(f, e.i);
    }
  }

  // ----- Whole runs ------------------------------------------------------------------------------

  predicate OrderlyRun<T>(f: Flow<T>, run: seq<Event<T>>)
    decreases |run|
  {
    run == [] || (Orderly(f, run[0]) && OrderlyRun(Apply(f, run[0]), run[1..]))
  }

  /** In every state of the run the line is in order. */
  ghost predicate InOrderThroughout<T>(f: Flow<T>, run: seq<Event<T>>)
    decreases |run|
  {
    InOrder(f) && (run == [] || InOrderThroughout(Apply(f, run[0]), run[1..]))
  }

  lemma {:induction false} OrderKept<T>(f: Flow<T>, run: seq<Event<T>>)
    requires InOrder(f) && OrderlyRun(f, run)
    ensures InOrderThroughout(f, run) && InOrder(Execute(f, run))
    decreases |run|
  {
    hide Apply, InOrder, Orderly;
    if run != [] {
      OrderlyKeepsOrder(f, run[0]);
      OrderKept(Apply(f, run[0]), run[1..]);
    }
  }

  lemma {:induction false} EndedGrows<T>(f: Flow<T>, run: seq<Event<T>>)
    ensures f.ended <= Execute(f, run).ended
    decreases |run|
  {
    if run != [] {
      EndedGrows(Apply(f, run[0]), run[1..]);
    }
  }

  /** For spans that each end once, a run is in order throughout if and only if every write that
      succeeds is of the oldest batch in flight and every one that fails of the youngest, or
      without room for any of it. */
  lemma {:induction false} OrderKeptExactly<T>(f: Flow<T>, run: seq<Event<T>>)
    requires InOrder(f) && Distinct(Execute(f, run).ended)
    ensures InOrderThroughout(f, run) <==> OrderlyRun(f, run)
    decreases |run|
  {
    hide Apply, InOrder, Orderly;
    if run != [] {
      var next := Apply(f, run[0]);
      EndedGrows(next, run[1..]);
      OrderKeptIff(f, run[0]);
      if Orderly(f, run[0]) {
        OrderKeptExactly(next, run[1..]);
      }
    }
  }

  /** No state of the run has more than k batches in flight. */
  predicate AtMostInFlight<T>(f: Flow<T>, run: seq<Event<T>>, k: nat)
    decreases |run|
  {
    |f.inFlight| <= k && (run == [] || AtMostInFlight(Apply(f, run[0]), run[1..], k))
  }

  lemma {:induction false} OneIsOrderly<T>(f: Flow<T>, run: seq<Event<T>>)
    requires AtMostInFlight(f, run, 1)
    ensures OrderlyRun(f, run)
    decreases |run|
  {
    hide Apply;
    if run != [] {
      OneIsOrderly(Apply(f, run[0]), run[1..]);
    }
  }

  lemma StartInOrder<T>(batchSize: int, maxBuffered: int)
    ensures InOrder<T>(Start(batchSize, maxBuffered))
  {
    FlattenNothing<T>();
    NothingIsSubsequence<T>([]);
  }

  /** With at most one flush in flight, whatever spans end meanwhile and however many writes
      fail, order is kept and the losses are exactly those counted. */
  lemma SpansInOrder<T>(batchSize: int, maxBuffered: int, run: seq<Event<T>>)
    requires AtMostInFlight(Start(batchSize, maxBuffered), run, 1)
    ensures InOrder(Execute(Start(batchSize, maxBuffered), run))
  {
    hide InOrder, Execute, AtMostInFlight, OrderlyRun;
    StartInOrder<T>(batchSize, maxBuffered);
    OneIsOrderly(Start(batchSize, maxBuffered), run);
    OrderKept(Start(batchSize, maxBuffered), run);
  }

  /** Two flushes, the younger one written first. */
  function Overtaking<T>(a: T, b: T): seq<Event<T>> {
    [End(a), Take(true), End(b), Take(true), Commit(1), Commit(0)]
  }

  lemma TwoTaken<T>(buffer: Buffer<T>, a: T, b: T)
    requires Sane(buffer) && buffer.spans == []
    ensures var s0: Flow<T> := Flow(buffer, [], [], [], []);
      var s1, s2 := Flow(buffer.(spans := [a]), [], [], [a], []), Flow(buffer, [[a]], [], [a], []);
      var s3, s4 := Flow(buffer.(spans := [b]), [[a]], [], [a, b], []), Flow(buffer, [[a], [b]], [], [a, b], []);
      Apply(s0, End(a)) == s1 && Apply(s1, Take(true)) == s2 &&
      Apply(s2, End(b)) == s3 && Apply(s3, Take(true)) == s4
  {
    assert [a][..1] == [a] && [b][..1] == [b];
    assert [[a]] + [[b]] == [[a], [b]] && [a] + [b] == [a, b];
  }

  lemma Overtaken<T>(buffer: Buffer<T>, a: T, b: T)
    ensures var s4, s5 := Flow(buffer, [[a], [b]], [], [a, b], []), Flow(buffer, [[a]], [[b]], [a, b], []);
      Apply(s4, Commit(1)) == s5 && Apply(s5, Commit(0)) == Flow(buffer, [], [[b], [a]], [a, b], [])
  {
  }

  lemma ExecuteStep<T>(f: Flow<T>, e: Event<T>, rest: seq<Event<T>>, k: nat)
    ensures Execute(f, [e] + rest) == Execute(Apply(f, e), rest)
    ensures AtMostInFlight(f, [e] + rest, k) <==> |f.inFlight| <= k && AtMostInFlight(Apply(f, e), rest, k)
  {
    hide Apply;
    assert ([e] + rest)[1..] == rest;
  }

  lemma NothingLeft<T>(f: Flow<T>, k: nat)
    ensures Execute(f, []) == f && (AtMostInFlight(f, [], k) <==> |f.inFlight| <= k)
  {
  }

  lemma NotReversed<T>(a: T, b: T)
    requires a != b
    ensures !Subsequence([b, a], [a, b])
  {
    assert [b, a][1..] == [a] && [a, b][1..] == [b] && [b][1..] == [];
    assert !Subsequence([a], []) && !Subsequence([b, a], []);
    assert !Subsequence([b, a], [b]);
  }

  /** For every pair of constructor arguments, two flushes in flight are enough to write two
      spans in the wrong order, with no write failing. */
  lemma TwoFlushesReorder<T>(batchSize: int, maxBuffered: int, a: T, b: T)
    requires a != b
    ensures var s0, run := Start(batchSize, maxBuffered), Overtaking(a, b);
      AtMostInFlight(s0, run, 2) && Execute(s0, run).written == [[b], [a]] && !InOrder(Execute(s0, run))
  {
    hide Apply, Execute, AtMostInFlight, Subsequence, Flatten;
    var s0: Flow<T> := Start(batchSize, maxBuffered);
    TwoTaken(s0.buffer, a, b);
    Overtaken(s0.buffer, a, b);
    var s1, s2 := Apply(s0, End(a)), Apply(Apply(s0, End(a)), Take(true));
    var s3, s4 := Apply(s2, End(b)), Apply(Apply(s2, End(b)), Take(true));
    var s5 := Apply(s4, Commit(1));
    var last := Apply(s5, Commit(0));
    var r5: seq<Event<T>> := [Commit(0)];
    var r4 := [Commit(1)] + r5;
    var r3 := [Take(true)] + r4;
    var r2 := [End(b)] + r3;
    var r1 := [Take(true)] + r2;
    ExecuteStep(s0, End(a), r1, 2);
    ExecuteStep(s1, Take(true), r2, 2);
    ExecuteStep(s2, End(b), r3, 2);
    ExecuteStep(s3, Take(true), r4, 2);
    ExecuteStep(s4, Commit(1), r5, 2);
    ExecuteStep(s5, Commit(0), [], 2);
    assert r5 == [Commit(0)] + [];
    NothingLeft(last, 2);
    assert [End(a)] + r1 == Overtaking(a, b);
    assert Line(last) == [b, a] by { TwoParts(a, b); }
    NotReversed(a, b);
  }

  lemma TwoParts<T>(a: T, b: T)
    ensures Flatten<T>([[b], [a]]) + Flatten<T>([]) + [] == [b, a]
  {
    FlattenSnoc([[b]], [a]);
    assert [[b]] + [[a]] == [[b], [a]];
    FlattenHead([[b]]);
    FlattenNothing<T>();
  }

  /** Order is kept by every run with at most k flushes in flight if and only if k is at most
      one, whatever the constructor arguments. */
  lemma OneFlightKeepsOrder<T>(batchSize: int, maxBuffered: int, k: nat, a: T, b: T)
    requires a != b
    ensures (forall run: seq<Event<T>> :: AtMostInFlight(Start(batchSize, maxBuffered), run, k) ==>
              InOrder(Execute(Start(batchSize, maxBuffered), run))) <==> k <= 1
  {
    hide InOrder, Execute, AtMostInFlight, Apply;
    var s0: Flow<T> := Start(batchSize, maxBuffered);
    if k <= 1 {
      forall run: seq<Event<T>> | AtMostInFlight(s0, run, k) ensures InOrder(Execute(s0, run)) {
        FewerInFlight(s0, run, k, 1);
        SpansInOrder(batchSize, maxBuffered, run);
      }
    } else {
      TwoFlushesReorder(batchSize, maxBuffered, a, b);
      FewerInFlight(s0, Overtaking(a, b), 2, k);
    }
  }

  lemma {:induction false} FewerInFlight<T>(f: Flow<T>, run: seq<Event<T>>, k: nat, more: nat)
    requires AtMostInFlight(f, run, k) && k <= more
    ensures AtMostInFlight(f, run, more)
    decreases |run|
  {
    hide Apply;
    if run != [] {
      FewerInFlight(Apply(f, run[0]), run[1..], k, more);
    }
  }

  /** Two failed flushes put back in the order they were taken come out reversed: the first span
      put back is no longer at the head. */
  lemma TwoFailedFlushesReorder<T>(batchSize: int, maxBuffered: int, a: T, b: T)
    requires EffectiveCap(batchSize, maxBuffered) >= 2
    ensures var s0 := Start(batchSize, maxBuffered);
      Execute(s0, [End(a), Take(true), End(b), Take(true), Fail(0), Fail(0)]).buffer.spans == [b, a]
  {
    hide Apply, Execute, AtMostInFlight;
    var s0: Flow<T> := Start(batchSize, maxBuffered);
    TwoTaken(s0.buffer, a, b);
    var s1, s2 := Apply(s0, End(a)), Apply(Apply(s0, End(a)), Take(true));
    var s3, s4 := Apply(s2, End(b)), Apply(Apply(s2, End(b)), Take(true));
    PutBack(s0.buffer, a, b);
    var r5: seq<Event<T>> := [Fail(0)];
    var r4 := [Fail(0)] + r5;
    var r3 := [Take(true)] + r4;
    var r2 := [End(b)] + r3;
    var r1 := [Take(true)] + r2;
    ExecuteStep(s0, End(a), r1, 2);
    ExecuteStep(s1, Take(true), r2, 2);
    ExecuteStep(s2, End(b), r3, 2);
    ExecuteStep(s3, Take(true), r4, 2);
    ExecuteStep(s4, Fail(0), r5, 2);
    ExecuteStep(Apply(s4, Fail(0)), Fail(0), [], 2);
    assert r5 == [Fail(0)] + [];
    NothingLeft(Apply(Apply(s4, Fail(0)), Fail(0)), 2);
    assert [End(a)] + r1 == [End(a), Take(true), End(b), Take(true), Fail(0), Fail(0)];
  }

  lemma PutBack<T>(buffer: Buffer<T>, a: T, b: T)
    requires buffer.spans == [] && buffer.maxBuffered >= 2
    ensures var s4: Flow<T> := Flow(buffer, [[a], [b]], [], [a, b], []);
      Apply(Apply(s4, Fail(0)), Fail(0)).buffer.spans == [b, a]
  {
    var s4: Flow<T> := Flow(buffer, [[a], [b]], [], [a, b], []);
    assert Apply(s4, Fail(0)).buffer.spans == [a];
    assert Apply(s4, Fail(0)).inFlight == [[b]];
  }

  // ----- Batches -----------------------------------------------------------------------------------

  predicate NoneLonger<T>(parts: seq<seq<T>>, n: nat) {
    forall i :: 0 <= i < |parts| ==> |parts[i]| <= n
  }

  lemma BatchStep<T>(f: Flow<T>, e: Event<T>)
    requires e != Take(true)
    requires NoneLonger(f.inFlight, f.buffer.batchSize) && NoneLonger(f.written, f.buffer.batchSize)
    ensures var g := Apply(f, e);
      g.buffer.batchSize == f.buffer.batchSize &&
      NoneLonger(g.inFlight, f.buffer.batchSize) && NoneLonger(g.written, f.buffer.batchSize)
  {
  }

  /** Over any run of inline flushes, nothing longer than a batch is ever in flight or written. */
  lemma {:induction false} InlineFlushesAreBatches<T>(f: Flow<T>, run: seq<Event<T>>)
    requires Take(true) !in run
    requires NoneLonger(f.inFlight, f.buffer.batchSize) && NoneLonger(f.written, f.buffer.batchSize)
    ensures var g := Execute(f, run);
      NoneLonger(g.inFlight, f.buffer.batchSize) && NoneLonger(g.written, f.buffer.batchSize)
    decreases |run|
  {
    hide Apply, NoneLonger;
    if run != [] {
      BatchStep(f, run[0]);
      InlineFlushesAreBatches(Apply(f, run[0]), run[1..]);
    }
  }

  // ----- The client on its own ----------------------------------------------------------------------

  /** The client's buffer and documents, with no flush in flight. */
  ghost predicate Mirrors<T>(f: Flow<T>, st: Store<T>) {
    f.buffer == st.buffer && f.written == st.documents && f.inFlight == []
  }

  /** One span of a client on its own is a run of the flow with one flush in flight at most, whether
      the spool takes its batch or not. */
  lemma EnqueuedIsRun<T>(f: Flow<T>, st: Store<T>, record: T, accepts: Spool) returns (run: seq<Event<T>>)
    requires Mirrors(f, st) && Sane(st.buffer)
    ensures AtMostInFlight(f, run, 1)
    ensures var g := Execute(f, run);
      Mirrors(g, Enqueued(st, record, accepts)) && g.ended == f.ended + [record]
  {
    hide Execute, AtMostInFlight, Apply;
    EndMirrors(f, st, record);
    var f1 := Apply(f, End(record));
    if !FillsBatch(st.buffer) {
      run := [End(record)];
      assert [End(record)] == [End(record)] + [];
      ExecuteStep(f, End(record), [], 1);
      NothingLeft(f1, 1);
    } else {
      var last: Event<T> := if accepts(st.attempts) then Commit(0) else Fail(0);
      var f2 := Apply(f1, Take(false));
      FlushMirrors(f1, st.(buffer := Added(st.buffer, record)), accepts);
      run := [End(record)] + ([Take(false)] + ([last] + []));
      ExecuteStep(f, End(record), [Take(false)] + ([last] + []), 1);
      ExecuteStep(f1, Take(false), [last] + [], 1);
      ExecuteStep(f2, last, [], 1);
      NothingLeft(Apply(f2, last), 1);
    }
  }

  lemma EndMirrors<T>(f: Flow<T>, st: Store<T>, record: T)
    requires Mirrors(f, st)
    ensures Mirrors(Apply(f, End(record)), st.(buffer := Added(st.buffer, record)))
    ensures Apply(f, End(record)).ended == f.ended + [record]
  {
  }

  lemma FlushMirrors<T>(f: Flow<T>, st: Store<T>, accepts: Spool)
    requires Mirrors(f, st) && Sane(st.buffer) && st.buffer.spans != []
    ensures var taken := Apply(f, Take(false));
      var g := Apply(taken, if accepts(st.attempts) then Commit(0) else Fail(0));
      |taken.inFlight| == 1 && Mirrors(g, Flushed(st, false, accepts)) && g.ended == f.ended
  {
    var n := TakeCount(st.buffer, false);
    TakeThenRequeue(st.buffer, false);
    assert n > 0;
  }

  lemma {:induction false} AllEnqueuedIsRun<T>(f: Flow<T>, st: Store<T>, records: seq<T>, accepts: Spool) returns (run: seq<Event<T>>)
    requires Mirrors(f, st) && Sane(st.buffer)
    ensures AtMostInFlight(f, run, 1)
    ensures var g := Execute(f, run);
      Mirrors(g, EnqueuedAll(st, records, accepts)) && g.ended == f.ended + records
    decreases |records|
  {
    hide Mirrors, Sane, Apply, Enqueued;
    if records == [] {
      NothingInFlight(f, st);
      run := [];
    } else {
      var first := EnqueuedIsRun(f, st, records[0], accepts);
      EnqueuedKeepsSane(st, records[0], accepts);
      var g := Execute(f, first);
      var rest := AllEnqueuedIsRun(g, Enqueued(st, records[0], accepts), records[1..], accepts);
      RunsJoin(f, first, rest, 1);
      assert f.ended + records == (f.ended + [records[0]]) + records[1..];
      run := first + rest;
    }
  }

  lemma NothingInFlight<T>(f: Flow<T>, st: Store<T>)
    requires Mirrors(f, st)
    ensures f.inFlight == []
  {
  }

  lemma {:induction false} RunsJoin<T>(f: Flow<T>, a: seq<Event<T>>, b: seq<Event<T>>, k: nat)
    requires AtMostInFlight(f, a, k) && AtMostInFlight(Execute(f, a), b, k)
    ensures AtMostInFlight(f, a + b, k) && Execute(f, a + b) == Execute(Execute(f, a), b)
    decreases |a|
  {
    hide Apply;
    if a == [] {
      assert a + b == b;
    } else {
      assert (a + b)[1..] == a[1..] + b;
      RunsJoin(Apply(f, a[0]), a[1..], b, k);
    }
  }

  /** So for every pair of constructor arguments and every spool, what a client on its own has
      written and still holds is the order its spans ended in, short by exactly the dropped count. */
  lemma ClientKeepsOrder<T>(batchSize: int, maxBuffered: int, records: seq<T>, accepts: Spool)
    ensures var done := EnqueuedAll(Store(NewBuffer(batchSize, maxBuffered), [], 0), records, accepts);
      var line := Flatten(done.documents) + done.buffer.spans;
      Subsequence(line, records) && |line| + done.buffer.dropped == |records|
  {
    hide Execute, AtMostInFlight, EnqueuedAll, Subsequence;
    var f: Flow<T> := Start(batchSize, maxBuffered);
    var st: Store<T> := Store(NewBuffer(batchSize, maxBuffered), [], 0);
    var run := AllEnqueuedIsRun(f, st, records, accepts);
    SpansInOrder(batchSize, maxBuffered, run);
    var g := Execute(f, run);
    FlattenNothing<T>();
    assert [] + records == records;
    assert Line(g) == Flatten(g.written) + g.buffer.spans;
  }
}
