/** The segmented log refines a queue that only loses from the front: whatever one writer
    appends, and however many of the oldest segments the agent or the budget deletes in
    between, Read returns exactly a suffix of the append history, in order. */
module SpoolFifo {
  import opened Bytes
  import opened Frames
  import opened Generations
  import opened SegmentLog
  import Fill = SpoolFill
  import M = SpoolMachine

  datatype Op = Append(frame: Frame) | Ship(count: nat)

  function Ran(dir: Dir, ops: seq<Op>): Dir
    decreases |ops|
  {
    if ops == [] then dir else Ran(After(dir, ops[0]), ops[1..])
  }

  function After(dir: Dir, op: Op): Dir {
    match op
    case Append(f) => if Encodable(f) then Appended(dir, FrameBytes(f)) else dir
    case Ship(k) => Shipped(dir, k)
  }

  /** The frames Append accepted, in order. */
  function History(ops: seq<Op>): seq<Frame> {
    if ops == [] then []
    else (if ops[0].Append? && Encodable(ops[0].frame) then [ops[0].frame] else []) + History(ops[1..])
  }

  /** An append would rotate to a generation that is free only because the counter wrapped. */
  predicate Wraps(dir: Dir) {
    Overfull(dir).Some? && M.NextGeneration(Newest(Opened(dir).Keys)) <= Newest(Opened(dir).Keys)
  }

  /** No append of the run does. */
  predicate NeverWraps(dir: Dir, ops: seq<Op>)
    decreases |ops|
  {
    ops == [] || ((ops[0].Append? ==> !Wraps(dir)) && NeverWraps(After(dir, ops[0]), ops[1..]))
  }

  ghost predicate IsSuffix<T>(a: seq<T>, b: seq<T>) {
    |a| <= |b| && b[|b| - |a|..] == a
  }

  // ----- What a directory holds -------------------------------------------------------------

  function FramesAt(bytes: Text, unmarshal: Unmarshal): seq<Frame> {
    Decode(bytes, 0, unmarshal).frames
  }

  /** The bytes are exactly a log of frames this reader can read. */
  predicate SoundSegment(bytes: Text, unmarshal: Unmarshal) {
    AllWritable(unmarshal, FramesAt(bytes, unmarshal)) && bytes == Log(FramesAt(bytes, unmarshal))
  }

  predicate Sound(dir: Dir, unmarshal: Unmarshal) {
    forall g :: g in dir ==> SoundSegment(dir[g], unmarshal)
  }

  function FramesOf(dir: Dir, generation: nat, unmarshal: Unmarshal): seq<Frame> {
    if generation in dir then FramesAt(dir[generation], unmarshal) else []
  }

  function Parts(dir: Dir, generations: seq<nat>, unmarshal: Unmarshal): (p: seq<seq<Frame>>)
    ensures |p| == |generations|
  {
    seq(|generations|, i requires 0 <= i < |generations| => FramesOf(dir, generations[i], unmarshal))
  }

  /** The frames in the directory, oldest segment first. */
  function Queue(dir: Dir, unmarshal: Unmarshal): seq<Frame> {
    Flatten(Parts(dir, Ascending(dir.Keys), unmarshal))
  }

  lemma SoundLog(fs: seq<Frame>, unmarshal: Unmarshal)
    requires AllWritable(unmarshal, fs)
    ensures SoundSegment(Log(fs), unmarshal) && FramesAt(Log(fs), unmarshal) == fs
  {
    hide Decode, Readable, Encodable;
    RoundTrip(fs, unmarshal);
  }

  /** Reading a sound directory returns its queue and no error. */
  lemma {:induction false} ReadSound(dir: Dir, generations: seq<nat>, i: nat, unmarshal: Unmarshal)
    requires i <= |generations| && forall g :: g in generations ==> g in dir
    requires Sound(dir, unmarshal)
    ensures ReadFrom(dir, generations, i, unmarshal) == Decoded(Flatten(Parts(dir, generations, unmarshal)[i..]), None)
    decreases |generations| - i
  {
    hide Decode, Readable, Encodable, Log;
    var p := Parts(dir, generations, unmarshal);
    if i < |generations| {
      ReadSound(dir, generations, i + 1, unmarshal);
      assert generations[i] in generations;
      RoundTrip(p[i], unmarshal);
      assert p[i..] == [p[i]] + p[i + 1..];
    }
  }

  lemma ContentsAreQueue(dir: Dir, unmarshal: Unmarshal)
    requires Sound(dir, unmarshal)
    ensures Contents(dir, unmarshal) == Decoded(Queue(dir, unmarshal), None)
  {
    hide Sound, Ascending, Parts;
    var generations := Ascending(dir.Keys);
    ReadSound(dir, generations, 0, unmarshal);
    assert Parts(dir, generations, unmarshal)[0..] == Parts(dir, generations, unmarshal);
  }

  lemma FlattenSplit<T>(p: seq<seq<T>>, k: nat)
    requires k <= |p|
    ensures Flatten(p) == Flatten(p[..k]) + Flatten(p[k..])
    ensures IsSuffix(Flatten(p[k..]), Flatten(p))
  {
    FlattenAppend(p[..k], p[k..]);
    assert p == p[..k] + p[k..];
  }

  // ----- One operation ------------------------------------------------------------------------

  /** Deleting the k oldest segments leaves the parts behind them. */
  lemma DropOldest(dir: Dir, k: nat, unmarshal: Unmarshal)
    requires Sound(dir, unmarshal) && k <= |dir.Keys|
    ensures var d, all := Without(dir, Ascending(dir.Keys)[..k]), Ascending(dir.Keys);
      Sound(d, unmarshal) && Ascending(d.Keys) == all[k..] &&
      Queue(d, unmarshal) == Flatten(Parts(dir, all, unmarshal)[k..])
  {
    hide SoundSegment, FramesOf, Ascending;
    var all := Ascending(dir.Keys);
    var d := Without(dir, all[..k]);
    var oldest := set g | g in all[..k];
    assert d.Keys == dir.Keys - oldest;
    AscendingDrop(dir.Keys, oldest, k);
    PartsBehind(dir, d, all, k, unmarshal);
  }

  lemma PartsBehind(dir: Dir, d: Dir, all: seq<nat>, k: nat, unmarshal: Unmarshal)
    requires k <= |all| && forall g :: g in all[k..] ==> g in d && g in dir && d[g] == dir[g]
    ensures Parts(d, all[k..], unmarshal) == Parts(dir, all, unmarshal)[k..]
  {
    hide FramesAt;
    forall i | 0 <= i < |all| - k ensures FramesOf(d, all[k..][i], unmarshal) == FramesOf(dir, all[k + i], unmarshal) {
      assert all[k..][i] in all[k..];
    }
  }

  /** Shipping loses exactly the frames of the segments deleted, at the front. */
  lemma ShipLosesFront(dir: Dir, k: nat, unmarshal: Unmarshal)
    requires Sound(dir, unmarshal)
    ensures Sound(Shipped(dir, k), unmarshal)
    ensures Queue(dir, unmarshal) ==
      Flatten(Parts(dir, Oldest(dir, k), unmarshal)) + Queue(Shipped(dir, k), unmarshal)
  {
    hide Sound, Parts, Without, Flatten, Ascending, StrictlyAscending, Oldest;
    var all := Ascending(dir.Keys);
    var n := if k >= |all| then |all| else k;
    OldestIsPrefix(dir, k);
    DropOldest(dir, n, unmarshal);
    SplitParts(dir, all, n, unmarshal);
  }

  lemma OldestIsPrefix(dir: Dir, k: nat)
    ensures var all := Ascending(dir.Keys);
      Oldest(dir, k) == all[..if k >= |all| then |all| else k]
  {
    hide Ascending, StrictlyAscending;
  }

  /** Only the last part changes. */
  lemma PartsOfWrite(dir: Dir, d: Dir, all: seq<nat>, unmarshal: Unmarshal)
    requires all != [] && StrictlyAscending(all)
    requires forall g :: g in dir && g != all[|all| - 1] ==> g in d && d[g] == dir[g]
    requires d.Keys == dir.Keys
    ensures var n := |all| - 1;
      Parts(d, all, unmarshal) == Parts(dir, all, unmarshal)[..n] + [FramesOf(d, all[n], unmarshal)] &&
      Parts(dir, all, unmarshal) == Parts(dir, all, unmarshal)[..n] + [FramesOf(dir, all[n], unmarshal)]
  {
    hide FramesAt;
    var n := |all| - 1;
    forall i | 0 <= i < n ensures FramesOf(d, all[i], unmarshal) == FramesOf(dir, all[i], unmarshal) {
      assert all[i] < all[n];
    }
  }

  lemma FramesOfGeneration(dir: Dir, generation: nat, unmarshal: Unmarshal)
    requires generation in dir
    ensures FramesOf(dir, generation, unmarshal) == FramesAt(dir[generation], unmarshal)
  {
  }

  lemma SoundAppend(bytes: Text, f: Frame, unmarshal: Unmarshal)
    requires SoundSegment(bytes, unmarshal) && Encodable(f) && Readable(unmarshal, f)
    ensures SoundSegment(bytes + FrameBytes(f), unmarshal)
    ensures FramesAt(bytes + FrameBytes(f), unmarshal) == FramesAt(bytes, unmarshal) + [f]
  {
    hide Decode, Readable, Encodable, FrameBytes, Log, FramesAt;
    var fs := FramesAt(bytes, unmarshal);
    LogSnoc(fs, f);
    SoundLog(fs + [f], unmarshal);
  }

  lemma SoundUpdate(dir: Dir, generation: nat, bytes: Text, unmarshal: Unmarshal)
    requires Sound(dir, unmarshal) && SoundSegment(bytes, unmarshal)
    ensures Sound(dir[generation := bytes], unmarshal)
  {
    hide SoundSegment;
  }

  /** Writing a frame to the last of the segments listed appends it to their frames. */
  lemma WriteLast(dir: Dir, all: seq<nat>, f: Frame, unmarshal: Unmarshal)
    requires all != [] && StrictlyAscending(all) && all[|all| - 1] in dir
    requires Encodable(f) && Readable(unmarshal, f) && SoundSegment(dir[all[|all| - 1]], unmarshal)
    ensures var g := all[|all| - 1];
      Flatten(Parts(dir[g := dir[g] + FrameBytes(f)], all, unmarshal)) == Flatten(Parts(dir, all, unmarshal)) + [f]
  {
    hide Readable, Encodable, FrameBytes, Parts, SoundSegment, FramesOf, StrictlyAscending, Flatten;
    var n := |all| - 1;
    var g := all[n];
    var d, p := dir[g := dir[g] + FrameBytes(f)], Parts(dir, all, unmarshal);
    assert d.Keys == dir.Keys;
    SoundAppend(dir[g], f, unmarshal);
    FramesOfGeneration(d, g, unmarshal);
    FramesOfGeneration(dir, g, unmarshal);
    PartsOfWrite(dir, d, all, unmarshal);
    FlattenSnoc(p[..n], FramesOf(dir, g, unmarshal));
    FlattenSnoc(p[..n], FramesOf(d, g, unmarshal));
  }

  /** Writing a frame to the newest segment appends it to the queue. */
  lemma WriteNewest(dir: Dir, f: Frame, unmarshal: Unmarshal)
    requires Sound(dir, unmarshal) && dir.Keys != {} && Encodable(f) && Readable(unmarshal, f)
    ensures var d := Written(dir, Newest(dir.Keys), FrameBytes(f));
      Sound(d, unmarshal) && Queue(d, unmarshal) == Queue(dir, unmarshal) + [f]
  {
    hide Readable, Encodable, FrameBytes, SoundSegment, StrictlyAscending, Flatten, Parts, Newest, Ascending;
    var all, active := Ascending(dir.Keys), Newest(dir.Keys);
    NewestIsLast(dir.Keys);
    var bytes := dir[active] + FrameBytes(f);
    SoundAppend(dir[active], f, unmarshal);
    WriteLast(dir, all, f, unmarshal);
    SoundUpdate(dir, active, bytes, unmarshal);
    assert dir[active := bytes].Keys == dir.Keys;
  }

  lemma NewestIsLast(s: set<nat>)
    requires s != {}
    ensures Ascending(s)[|s| - 1] == Newest(s)
  {
  }

  /** A new, empty newest segment leaves the queue as it is. */
  lemma AddSegment(dir: Dir, next: nat, unmarshal: Unmarshal)
    requires Sound(dir, unmarshal) && forall g :: g in dir ==> g < next
    ensures var d: Dir := dir[next := []];
      Sound(d, unmarshal) && Queue(d, unmarshal) == Queue(dir, unmarshal) &&
      Ascending(d.Keys) == Ascending(dir.Keys) + [next]
  {
    hide FramesAt, SoundSegment, Ascending, StrictlyAscending, Parts, Flatten, FramesOf;
    var all := Ascending(dir.Keys);
    var d: Dir := dir[next := []];
    assert d.Keys == dir.Keys + {next};
    AscendingSnoc(dir.Keys, next);
    EmptySegment(unmarshal);
    FramesOfGeneration(d, next, unmarshal);
    PartsOfAdd(dir, d, all, next, unmarshal);
    FlattenSnoc(Parts(dir, all, unmarshal), []);
  }

  lemma PartsOfAdd(dir: Dir, d: Dir, all: seq<nat>, next: nat, unmarshal: Unmarshal)
    requires forall g :: g in all ==> g in dir && g in d && d[g] == dir[g]
    ensures Parts(d, all + [next], unmarshal) == Parts(dir, all, unmarshal) + [FramesOf(d, next, unmarshal)]
  {
    hide FramesAt;
    forall i | 0 <= i < |all| ensures FramesOf(d, (all + [next])[i], unmarshal) == FramesOf(dir, all[i], unmarshal) {
      assert all[i] in all;
    }
  }

  lemma EmptySegment(unmarshal: Unmarshal)
    ensures FramesAt([], unmarshal) == [] && SoundSegment([], unmarshal)
  {
    var none: seq<Frame> := [];
    assert Log(none) == [];
    SoundLog(none, unmarshal);
  }

  lemma OpenedKeepsQueue(dir: Dir, unmarshal: Unmarshal)
    requires Sound(dir, unmarshal)
    ensures Sound(Opened(dir), unmarshal) && Queue(Opened(dir), unmarshal) == Queue(dir, unmarshal)
    ensures dir.Keys == {} ==> Newest(Opened(dir).Keys) == 1
  {
    hide Queue, Sound, Ascending;
    if dir.Keys == {} {
      var first: Dir := map[];
      assert dir == first;
      AddSegment(dir, 1, unmarshal);
    }
  }

  /** The budget never drops the newest segment. */
  lemma BudgetedQueue(dir: Dir, unmarshal: Unmarshal)
    requires Sound(dir, unmarshal) && dir.Keys != {}
    ensures Sound(Budgeted(dir), unmarshal) && Budgeted(dir).Keys != {}
    ensures Newest(Budgeted(dir).Keys) == Newest(dir.Keys)
    ensures Queue(dir, unmarshal) == Flatten(Parts(dir, Victims(dir), unmarshal)) + Queue(Budgeted(dir), unmarshal)
  {
    hide Sound, Parts, Flatten, Newest, Ascending, Without, Budgeted, StrictlyAscending, Victims;
    var all, d := Ascending(dir.Keys), Budgeted(dir);
    var k := BudgetedIs(dir);
    DropOldest(dir, k, unmarshal);
    assert |d.Keys| == |Ascending(d.Keys)| == |all| - k > 0;
    SplitParts(dir, all, k, unmarshal);
    NewestIsLast(dir.Keys);
    NewestIsLast(d.Keys);
  }

  lemma BudgetedIs(dir: Dir) returns (k: nat)
    requires dir.Keys != {}
    ensures k < |dir.Keys| && Victims(dir) == Ascending(dir.Keys)[..k]
    ensures Budgeted(dir) == Without(dir, Ascending(dir.Keys)[..k])
    ensures |dir.Keys| - k == if |dir.Keys| <= M.MAX_SEGMENTS then |dir.Keys| else M.MAX_SEGMENTS
  {
    hide Ascending, Without;
    k := if |dir.Keys| <= M.MAX_SEGMENTS then 0 else |dir.Keys| - M.MAX_SEGMENTS;
  }

  lemma SplitParts(dir: Dir, all: seq<nat>, k: nat, unmarshal: Unmarshal)
    requires k <= |all|
    ensures Flatten(Parts(dir, all, unmarshal)) ==
      Flatten(Parts(dir, all[..k], unmarshal)) + Flatten(Parts(dir, all, unmarshal)[k..])
  {
    hide Flatten, FramesOf;
    assert Parts(dir, all[..k], unmarshal) == Parts(dir, all, unmarshal)[..k];
    FlattenSplit(Parts(dir, all, unmarshal), k);
  }

  /** The budget keeps the newest four, or all there are, and drops only older ones. */
  lemma BudgetKeepsNewest(dir: Dir)
    ensures var d := Budgeted(dir);
      |d.Keys| == (if |dir.Keys| <= M.MAX_SEGMENTS then |dir.Keys| else M.MAX_SEGMENTS) &&
      d.Keys <= dir.Keys && (forall g :: g in d ==> d[g] == dir[g]) &&
      forall gone, kept :: gone in dir && gone !in d && kept in d ==> gone < kept
  {
    hide Ascending, Budgeted, StrictlyAscending;
    if dir.Keys != {} {
      var k := BudgetedIs(dir);
      var all, d := Ascending(dir.Keys), Budgeted(dir);
      KeptAreNewer(all, k);
      var oldest := set g | g in all[..k];
      assert d.Keys == dir.Keys - oldest;
      AscendingDrop(dir.Keys, oldest, k);
      assert |d.Keys| == |Ascending(d.Keys)|;
    } else {
      var none: Dir := map[];
      assert dir == none && Budgeted(none) == none by { NothingToDrop(); }
    }
  }

  lemma NothingToDrop()
    ensures Budgeted(map[]) == map[]
  {
  }

  lemma KeptAreNewer(all: seq<nat>, k: nat)
    requires StrictlyAscending(all) && k <= |all|
    ensures forall gone, kept :: gone in all[..k] && kept in all && kept !in all[..k] ==> gone < kept
  {
    assert forall j :: 0 <= j < k ==> all[..k][j] == all[j] && all[j] in all[..k];
    forall gone, kept | gone in all[..k] && kept in all && kept !in all[..k] ensures gone < kept {
      var i :| 0 <= i < k && all[..k][i] == gone;
      var j :| 0 <= j < |all| && all[j] == kept;
    }
  }

  /** The frames an append pushes out: those of the segments the budget drops, if it gets there. */
  function Lost(dir: Dir, unmarshal: Unmarshal): seq<Frame> {
    match Overfull(dir)
    case None => []
    case Some(over) => Flatten(Parts(over, Victims(over), unmarshal))
  }

  /** One Append: the frames of the dropped segments leave at the front, none other, and the new
      one is last. */
  lemma AppendEnqueues(dir: Dir, f: Frame, unmarshal: Unmarshal)
    requires Sound(dir, unmarshal) && Encodable(f) && Readable(unmarshal, f)
    requires !Wraps(dir)
    ensures Sound(Appended(dir, FrameBytes(f)), unmarshal)
    ensures Queue(dir, unmarshal) + [f] == Lost(dir, unmarshal) + Queue(Appended(dir, FrameBytes(f)), unmarshal)
  {
    hide Sound, Queue, Readable, Encodable, FrameBytes, Budgeted, Opened, Newest, Written, Ascending, StrictlyAscending, Victims, Parts;
    OpenedKeepsQueue(dir, unmarshal);
    var open := Opened(dir);
    var active := Newest(open.Keys);
    if |open[active]| >= M.SEGMENT_MAX_BYTES {
      var next := M.NextGeneration(active);
      if next in open {
        assert Lost(dir, unmarshal) == [];
        WriteNewest(open, f, unmarshal);
      } else {
        var over: Dir := open[next := []];
        AddSegment(open, next, unmarshal);
        assert next in over.Keys;
        NewestIs(over.Keys, next);
        BudgetedQueue(over, unmarshal);
        WriteNewest(Budgeted(over), f, unmarshal);
        assert Lost(dir, unmarshal) == Flatten(Parts(over, Victims(over), unmarshal));
      }
    } else {
      assert Lost(dir, unmarshal) == [];
      WriteNewest(open, f, unmarshal);
    }
  }

  /** A segment that is not empty ends the queue, if it is the newest. */
  lemma QueueEnds(dir: Dir, unmarshal: Unmarshal)
    requires dir.Keys != {} && FramesOf(dir, Newest(dir.Keys), unmarshal) != []
    ensures var q, last := Queue(dir, unmarshal), FramesOf(dir, Newest(dir.Keys), unmarshal);
      q != [] && q[|q| - 1] == last[|last| - 1]
  {
    hide Ascending, StrictlyAscending, Newest, FramesOf;
    var all := Ascending(dir.Keys);
    var p := Parts(dir, all, unmarshal);
    NewestIsLast(dir.Keys);
    FlattenSnoc(p[..|p| - 1], p[|p| - 1]);
    assert p == p[..|p| - 1] + [p[|p| - 1]];
  }

  lemma FullHoldsFrames(bytes: Text, unmarshal: Unmarshal)
    requires SoundSegment(bytes, unmarshal) && bytes != []
    ensures FramesAt(bytes, unmarshal) != []
  {
    hide Decode, Readable, Encodable;
  }

  /** After an append that wraps, the queue still ends with what it ended with before. */
  lemma WrappedAppend(dir: Dir, f: Frame, unmarshal: Unmarshal)
    requires Sound(dir, unmarshal) && Encodable(f) && Wraps(dir)
    ensures var q, q' := Queue(dir, unmarshal), Queue(Appended(dir, FrameBytes(f)), unmarshal);
      q != [] && q' != [] && q'[|q'| - 1] == q[|q| - 1]
  {
    hide Queue, Encodable, FrameBytes, Budgeted, Newest, Ascending, StrictlyAscending, Victims, Parts, FramesAt, SoundSegment;
    var active := Newest(Opened(dir).Keys);
    WrapsNonEmpty(dir);
    var next := M.NextGeneration(active);
    var over: Dir := dir[next := []];
    FullHoldsFrames(dir[active], unmarshal);
    assert active in over.Keys;
    NewestIs(over.Keys, active);
    BudgetKeepsNewest(over);
    BudgetKeepsTop(over);
    var after := Appended(dir, FrameBytes(f));
    assert after == Written(Budgeted(over), next, FrameBytes(f));
    assert after.Keys == Budgeted(over).Keys;
    assert after[active] == dir[active];
    QueueEnds(dir, unmarshal);
    QueueEnds(after, unmarshal);
  }

  lemma WrapsNonEmpty(dir: Dir)
    requires Wraps(dir)
    ensures dir.Keys != {} && Opened(dir) == dir
  {
    var first: Dir := map[1 := []];
    NewestIs(first.Keys, 1);
  }

  lemma BudgetKeepsTop(dir: Dir)
    requires dir.Keys != {}
    ensures Budgeted(dir).Keys != {} && Newest(Budgeted(dir).Keys) == Newest(dir.Keys)
  {
    hide Budgeted;
    BudgetKeepsNewest(dir);
    var d := Budgeted(dir);
    assert |d.Keys| > 0;
    var top, kept := Newest(dir.Keys), Newest(d.Keys);
    assert top !in d ==> top < kept;
    NewestIs(d.Keys, top);
  }

  /** For a frame that is not in the queue yet, an append loses only what the budget drops and
      enqueues the frame if and only if the generation counter does not wrap to a free name. */
  lemma EnqueuesUnlessItWraps(dir: Dir, f: Frame, unmarshal: Unmarshal)
    requires Sound(dir, unmarshal) && Encodable(f) && Readable(unmarshal, f) && f !in Queue(dir, unmarshal)
    ensures Queue(dir, unmarshal) + [f] == Lost(dir, unmarshal) + Queue(Appended(dir, FrameBytes(f)), unmarshal)
      <==> !Wraps(dir)
  {
    hide Sound, Queue, Readable, Encodable, FrameBytes, Wraps, Lost, Appended;
    if Wraps(dir) {
      WrappedAppend(dir, f, unmarshal);
      var q, q' := Queue(dir, unmarshal), Queue(Appended(dir, FrameBytes(f)), unmarshal);
      assert q[|q| - 1] in q;
      var whole := Lost(dir, unmarshal) + q';
      assert whole[|whole| - 1] == q'[|q'| - 1];
      assert (q + [f])[|q|] == f;
    } else {
      AppendEnqueues(dir, f, unmarshal);
    }
  }

  // ----- What the drop counter counts ---------------------------------------------------------

  /** Of parts none of which is empty, as many as elements if and only if each has one. */
  lemma {:induction false} OneElementEach<T>(parts: seq<seq<T>>)
    requires forall i :: 0 <= i < |parts| ==> |parts[i]| > 0
    ensures |Flatten(parts)| >= |parts|
    ensures |Flatten(parts)| == |parts| <==> forall i :: 0 <= i < |parts| ==> |parts[i]| == 1
  {
    if parts != [] {
      OneElementEach(parts[1..]);
      assert forall i :: 0 < i < |parts| ==> parts[i] == parts[1..][i - 1];
    }
  }

  /** An append counts the segments the budget drops. When none of them is empty, that is the
      number of frames they held if and only if each held exactly one, and less otherwise. */
  lemma CountsSegmentsNotFrames(dir: Dir, over: Dir, unmarshal: Unmarshal)
    requires Overfull(dir) == Some(over)
    requires forall g :: g in Victims(over) ==> FramesOf(over, g, unmarshal) != []
    ensures DroppedSegments(dir) <= |Lost(dir, unmarshal)|
    ensures DroppedSegments(dir) == |Lost(dir, unmarshal)| <==>
      forall g :: g in Victims(over) ==> |FramesOf(over, g, unmarshal)| == 1
  {
    hide Overfull, Victims, FramesOf;
    var victims := Victims(over);
    var p := Parts(over, victims, unmarshal);
    OneElementEach(p);
    assert forall i :: 0 <= i < |p| ==> victims[i] in victims && p[i] == FramesOf(over, victims[i], unmarshal);
  }

  /** A directory within the budget drops one segment at most, so there the count is that of the
      frames lost if and only if it drops none or that one held exactly one. */
  lemma CountsFramesWithinBudget(dir: Dir, unmarshal: Unmarshal)
    requires |dir.Keys| <= M.MAX_SEGMENTS
    ensures DroppedSegments(dir) <= 1
    ensures DroppedSegments(dir) == |Lost(dir, unmarshal)| <==>
      Overfull(dir).None? || forall g :: g in Victims(Overfull(dir).value) ==>
        |FramesOf(Overfull(dir).value, g, unmarshal)| == 1
  {
    hide FramesOf, Opened, Newest;
    match Overfull(dir)
    case None =>
    case Some(over) =>
      OneVictimAtMost(dir, over);
      var victims := Victims(over);
      if victims == [] {
        FlattenNothing<Frame>();
      } else {
        assert Parts(over, victims, unmarshal) == [FramesOf(over, victims[0], unmarshal)];
        FlattenHead(Parts(over, victims, unmarshal));
        FlattenNothing<Frame>();
      }
  }

  lemma OneVictimAtMost(dir: Dir, over: Dir)
    requires |dir.Keys| <= M.MAX_SEGMENTS && Overfull(dir) == Some(over)
    ensures |Victims(over)| <= 1
  {
    hide Newest, Ascending;
    var open := Opened(dir);
    assert |open.Keys| <= M.MAX_SEGMENTS by { OneFirst(dir); }
    var next := M.NextGeneration(Newest(open.Keys));
    assert over.Keys == open.Keys + {next};
  }

  lemma OneFirst(dir: Dir)
    ensures |Opened(dir).Keys| <= if |dir.Keys| == 0 then 1 else |dir.Keys|
  {
    var first: Dir := map[1 := []];
    assert first.Keys == {1};
  }

  function AppendsOf(f: Frame, n: nat): seq<Op> {
    seq(n, _ => Append(f))
  }

  lemma {:induction false} RanIsGrown(f: Frame, n: nat, more: nat)
    requires Encodable(f)
    ensures Ran(Fill.Grown(FrameBytes(f), n), AppendsOf(f, more)) == Fill.Grown(FrameBytes(f), n + more)
    decreases more
  {
    hide Encodable, FrameBytes, Appended;
    if more > 0 {
      assert AppendsOf(f, more)[1..] == AppendsOf(f, more - 1);
      RanIsGrown(f, n + 1, more - 1);
    }
  }

  lemma {:induction false} CopiesAreLog(f: Frame, n: nat)
    requires Encodable(f)
    ensures AllEncodable(seq(n, _ => f)) && Fill.Copies(FrameBytes(f), n) == Log(seq(n, _ => f))
  {
    hide Encodable, FrameBytes;
    if n > 0 {
      CopiesAreLog(f, n - 1);
      LogSnoc(seq(n - 1, _ => f), f);
      assert seq(n, _ => f) == seq(n - 1, _ => f) + [f];
    }
  }

  /** A full segment of one writer's is sound and holds its eight frames. */
  lemma EightFrames(f: Frame, unmarshal: Unmarshal)
    requires Encodable(f) && Readable(unmarshal, f)
    ensures var full := Fill.Copies(FrameBytes(f), Fill.FRAMES_PER_SEGMENT);
      SoundSegment(full, unmarshal) && FramesAt(full, unmarshal) == [f, f, f, f, f, f, f, f]
  {
    hide Encodable, FrameBytes, FramesAt, SoundSegment, Readable, Fill.Copies;
    CopiesAreLog(f, 8);
    assert seq(8, _ => f) == [f, f, f, f, f, f, f, f];
    SoundLog(seq(8, _ => f), unmarshal);
  }

  /** One writer that has appended thirty-two frames of the largest size leaves four full segments;
      its next append drops eight frames and counts one. */
  lemma EightFramesCountedOnce(f: Frame, unmarshal: Unmarshal)
    requires Encodable(f) && Fill.Largest(FrameBytes(f)) && Readable(unmarshal, f)
    ensures var dir := Ran(map[], AppendsOf(f, 32));
      Sound(dir, unmarshal) && DroppedSegments(dir) == 1 && Lost(dir, unmarshal) == [f, f, f, f, f, f, f, f]
  {
    hide Encodable, Readable, FrameBytes, FramesAt, SoundSegment, Fill.Grown, Fill.Copies, Overfull, Victims, Ran, Appended;
    var dir, frame := Ran(map[], AppendsOf(f, 32)), FrameBytes(f);
    assert Fill.Grown(frame, 0) == map[] by { NothingGrown(frame); }
    RanIsGrown(f, 0, 32);
    Fill.GrownIsFilled(frame, 32);
    Fill.AppendRotates(dir, frame, 1, 4);
    EightFrames(f, unmarshal);
    var over: Dir := dir[5 := []];
    assert over[1] == Fill.Copies(frame, 8);
    LostOfOne(dir, over, 1, unmarshal);
  }

  lemma NothingGrown(frame: Text)
    ensures Fill.Grown(frame, 0) == map[]
  {
  }

  lemma LostOfOne(dir: Dir, over: Dir, g: nat, unmarshal: Unmarshal)
    requires Overfull(dir) == Some(over) && Victims(over) == [g]
    ensures Lost(dir, unmarshal) == FramesOf(over, g, unmarshal)
  {
    hide Overfull, Victims, FramesOf;
    assert Parts(over, [g], unmarshal) == [FramesOf(over, g, unmarshal)];
    FlattenHead([FramesOf(over, g, unmarshal)]);
    FlattenNothing<Frame>();
  }

  // ----- A damaged segment -----------------------------------------------------------------------

  lemma {:induction false} ReadUntil(dir: Dir, generations: seq<nat>, i: nat, k: nat, unmarshal: Unmarshal)
    requires i <= k < |generations| && forall g :: g in generations ==> g in dir
    requires forall j :: 0 <= j < k ==> SoundSegment(dir[generations[j]], unmarshal)
    requires Decode(dir[generations[k]], 0, unmarshal).error.Some?
    ensures var damaged := Decode(dir[generations[k]], 0, unmarshal);
      ReadFrom(dir, generations, i, unmarshal) ==
        Decoded(Flatten(Parts(dir, generations, unmarshal)[i..k]) + damaged.frames, damaged.error)
    decreases k - i
  {
    hide Decode, Readable, Encodable, Log;
    var p := Parts(dir, generations, unmarshal);
    if i == k {
      assert p[i..k] == [] && [] + Decode(dir[generations[k]], 0, unmarshal).frames == Decode(dir[generations[k]], 0, unmarshal).frames;
    } else {
      ReadUntil(dir, generations, i + 1, k, unmarshal);
      assert generations[i] in generations;
      RoundTrip(p[i], unmarshal);
      assert p[i..k] == [p[i]] + p[i + 1..k];
      FlattenHead(p[i..k]);
    }
  }

  /** Read stops at the first segment that does not decode: it returns the frames of the segments
      before it, those of its own before the damage, and the error. What is behind is not read. */
  lemma ReadStopsAtDamage(dir: Dir, k: nat, unmarshal: Unmarshal)
    requires k < |dir.Keys|
    requires forall j :: 0 <= j < k ==> SoundSegment(dir[Ascending(dir.Keys)[j]], unmarshal)
    requires Decode(dir[Ascending(dir.Keys)[k]], 0, unmarshal).error.Some?
    ensures var all := Ascending(dir.Keys);
      var damaged := Decode(dir[all[k]], 0, unmarshal);
      Contents(dir, unmarshal) == Decoded(Flatten(Parts(dir, all[..k], unmarshal)) + damaged.frames, damaged.error)
  {
    hide Decode, SoundSegment, Ascending, StrictlyAscending, FramesOf;
    var all := Ascending(dir.Keys);
    ReadUntil(dir, all, 0, k, unmarshal);
    assert Parts(dir, all, unmarshal)[0..k] == Parts(dir, all[..k], unmarshal);
  }

  // ----- When an append wraps -------------------------------------------------------------------

  predicate Below(dir: Dir, n: nat) {
    forall g :: g in dir ==> g <= n
  }

  /** An append raises the newest generation by one at most, and below the last it does not wrap. */
  lemma RisesByOne(dir: Dir, op: Op, n: nat)
    requires Below(dir, n) && n < M.LAST_GENERATION
    ensures !Wraps(dir) && Below(After(dir, op), n + 1)
  {
    hide Newest, Encodable, FrameBytes, Victims, Oldest;
    var open := Opened(dir);
    var first: Dir := map[1 := []];
    assert dir.Keys == {} ==> open == first;
    var active := Newest(open.Keys);
    assert active <= n + 1;
    if dir.Keys == {} { NewestIs(first.Keys, 1); }
  }

  lemma {:induction false} ShortRunsNeverWrap(dir: Dir, ops: seq<Op>, n: nat)
    requires Below(dir, n) && n + |ops| <= M.LAST_GENERATION
    ensures NeverWraps(dir, ops)
    decreases |ops|
  {
    hide After, Wraps, Below;
    if ops != [] {
      RisesByOne(dir, ops[0], n);
      ShortRunsNeverWrap(After(dir, ops[0]), ops[1..], n + 1);
    }
  }

  /** So from an empty directory Read returns a suffix of the history after any number of
      operations there are generations for. */
  lemma ReadReturnsSuffixOfShortRuns(ops: seq<Op>, unmarshal: Unmarshal)
    requires Legible(ops, unmarshal) && |ops| <= M.LAST_GENERATION
    ensures var d := Contents(Ran(map[], ops), unmarshal);
      d.error.None? && IsSuffix(d.frames, History(ops))
  {
    hide Ran, NeverWraps, History, Contents, Legible;
    ShortRunsNeverWrap(map[], ops, 0);
    ReadReturnsSuffix(ops, unmarshal);
  }

  /** A sound directory in which the next append wraps: the last generation alone, full. */
  lemma LastAloneWraps(f: Frame, unmarshal: Unmarshal) returns (dir: Dir)
    requires Encodable(f) && Fill.Largest(FrameBytes(f)) && Readable(unmarshal, f)
    ensures Sound(dir, unmarshal) && Wraps(dir)
  {
    hide Encodable, Readable, FrameBytes, FramesAt, SoundSegment, Fill.Copies, Newest;
    var full := Fill.Copies(FrameBytes(f), Fill.FRAMES_PER_SEGMENT);
    EightFrames(f, unmarshal);
    Fill.SizesOf(FrameBytes(f), Fill.FRAMES_PER_SEGMENT);
    dir := map[M.LAST_GENERATION := full];
    assert M.LAST_GENERATION in dir.Keys;
    NewestIs(dir.Keys, M.LAST_GENERATION);
    assert M.NextGeneration(M.LAST_GENERATION) == 0;
  }

  lemma SuffixSelf<T>(a: seq<T>)
    ensures IsSuffix(a, a)
  {
  }

  lemma SuffixBehind<T>(front: seq<T>, back: seq<T>, whole: seq<T>)
    requires whole == front + back
    ensures IsSuffix(back, whole)
  {
  }

  // ----- Any sequence of operations -----------------------------------------------------------

  lemma SuffixChain<T>(a: seq<T>, b: seq<T>, c: seq<T>)
    requires IsSuffix(a, b) && IsSuffix(b, c)
    ensures IsSuffix(a, c)
  {
    assert c[|c| - |a|..] == c[|c| - |b|..][|b| - |a|..];
  }

  lemma SuffixExtend<T>(a: seq<T>, b: seq<T>, tail: seq<T>)
    requires IsSuffix(a, b)
    ensures IsSuffix(a + tail, b + tail)
  {
    assert (b + tail)[|b| - |a|..] == b[|b| - |a|..] + tail;
  }

  predicate Legible(ops: seq<Op>, unmarshal: Unmarshal) {
    forall op :: op in ops && op.Append? ==> Readable(unmarshal, op.frame)
  }

  lemma {:induction false} QueueIsSuffix(dir: Dir, ops: seq<Op>, unmarshal: Unmarshal)
    requires Sound(dir, unmarshal) && Legible(ops, unmarshal) && NeverWraps(dir, ops)
    ensures Sound(Ran(dir, ops), unmarshal)
    ensures IsSuffix(Queue(Ran(dir, ops), unmarshal), Queue(dir, unmarshal) + History(ops))
    decreases |ops|
  {
    hide Sound, Queue, Readable, Encodable, After, Wraps, IsSuffix;
    var before := Queue(dir, unmarshal);
    if ops == [] {
      assert before + [] == before;
      SuffixSelf(before);
    } else {
      var op, rest, next := ops[0], ops[1..], After(dir, ops[0]);
      var gained := History([op]);
      HistoryOfOne(ops);
      AfterIsSuffix(dir, op, unmarshal);
      hide History;
      QueueIsSuffix(next, rest, unmarshal);
      SuffixOnward(Queue(Ran(next, rest), unmarshal), Queue(next, unmarshal), before, gained, History(rest));
    }
  }

  lemma SuffixOnward<T>(last: seq<T>, next: seq<T>, before: seq<T>, gained: seq<T>, later: seq<T>)
    requires IsSuffix(next, before + gained) && IsSuffix(last, next + later)
    ensures IsSuffix(last, before + (gained + later))
  {
    hide IsSuffix;
    SuffixExtend(next, before + gained, later);
    assert before + (gained + later) == (before + gained) + later;
    SuffixChain(last, next + later, before + (gained + later));
  }

  lemma HistoryOfOne(ops: seq<Op>)
    requires ops != []
    ensures History(ops) == History([ops[0]]) + History(ops[1..])
  {
  }

  lemma AfterIsSuffix(dir: Dir, op: Op, unmarshal: Unmarshal)
    requires Sound(dir, unmarshal) && (op.Append? ==> Readable(unmarshal, op.frame))
    requires op.Append? ==> !Wraps(dir)
    ensures Sound(After(dir, op), unmarshal)
    ensures IsSuffix(Queue(After(dir, op), unmarshal), Queue(dir, unmarshal) + History([op]))
  {
    hide Sound, Queue, Readable, Encodable, Appended, Shipped, FrameBytes, Wraps, Parts, Flatten, Oldest, IsSuffix;
    SuffixSelf(Queue(dir, unmarshal));
    var before := Queue(dir, unmarshal);
    assert before + [] == before;
    match op
    case Append(f) =>
      assert History([op]) == if Encodable(f) then [f] else [];
      if Encodable(f) {
        hide Lost;
        AppendEnqueues(dir, f, unmarshal);
        SuffixBehind(Lost(dir, unmarshal), Queue(After(dir, op), unmarshal), before + [f]);
      }
    case Ship(k) =>
      ShipLosesFront(dir, k, unmarshal);
      assert History([op]) == [];
      SuffixBehind(Flatten(Parts(dir, Oldest(dir, k), unmarshal)), Queue(After(dir, op), unmarshal), before);
  }

  /** From an empty directory, Read returns a suffix of everything appended, without an error. */
  lemma ReadReturnsSuffix(ops: seq<Op>, unmarshal: Unmarshal)
    requires Legible(ops, unmarshal) && NeverWraps(map[], ops)
    ensures var d := Contents(Ran(map[], ops), unmarshal);
      d.error.None? && IsSuffix(d.frames, History(ops))
  {
    hide Readable, Ran, NeverWraps, History;
    var none: Dir := map[];
    assert Queue(none, unmarshal) == [];
    QueueIsSuffix(none, ops, unmarshal);
    ContentsAreQueue(Ran(none, ops), unmarshal);
    assert [] + History(ops) == History(ops);
  }
}
