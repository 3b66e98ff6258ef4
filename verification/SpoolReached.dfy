/** The size limit is exact: for every number of writers there is a run, from an empty directory
    and without an agent, in which one segment reaches it. The writers all see the segment one
    byte below the threshold and then all write. A second run shows a rotation loser filling a
    segment that was full before it opened it. */
module SpoolReached {
  import opened Bytes
  import opened Frames
  import opened Generations
  import opened JsonHeader
  import opened SpoolMachine
  import opened SpoolOrder
  import opened SpoolSize
  import opened SpoolSolo
  import opened SpoolFill
  import L = SegmentLog

  function Empty(writers: nat): State {
    State(map[], [], seq(writers, _ => Idle), 0, 0)
  }

  predicate NoShips(run: seq<Event>) {
    forall e :: e in run ==> !e.Ship?
  }

  lemma {:induction false} NoShipsCareful(s: State, run: seq<Event>)
    requires Valid(s) && NoShips(run)
    ensures Careful(s, run)
    decreases |run|
  {
    hide Apply, Valid, Top;
    if run != [] {
      ApplyValid(s, run[0]);
      NoShipsCareful(Apply(s, run[0]), run[1..]);
    }
  }

  // ----- Frames of every size ---------------------------------------------------------------------

  lemma FrameOfSize(n: nat) returns (f: Frame)
    requires 100 <= n <= MAX_FRAME_BYTES
    ensures Encodable(f) && |FrameBytes(f)| == n
  {
    hide MarshalHeader, FramePrefix;
    var rest := n - FRAME_PREFIX_BYTES - 36;
    var payload := if rest - 1 <= MAX_FRAME_PAYLOAD then rest - 1 else MAX_FRAME_PAYLOAD;
    var signal: Text := seq(rest - payload, _ => 0x61);
    f := Frame(signal, [0x62], [], seq(payload, _ => 0));
    PlainHeaderLength(signal);
  }

  // ----- One segment, filled by one writer --------------------------------------------------------

  /** At most segment 1, of that size. */
  predicate OneSegment(dir: L.Dir, size: nat) {
    dir.Keys <= {1} && (if 1 in dir then |dir[1]| else 0) == size
  }

  lemma AppendsToOne(dir: L.Dir, size: nat, frame: Text)
    requires OneSegment(dir, size) && size < SEGMENT_MAX_BYTES
    ensures OneSegment(L.Appended(dir, frame), size + |frame|) && 1 in L.Appended(dir, frame)
  {
    hide Ascending;
    var open := L.Opened(dir);
    assert open.Keys == {1} by { if 1 in dir { assert dir.Keys == {1}; } else { assert dir.Keys == {}; } }
    NewestIs(open.Keys, 1);
  }

  lemma {:induction false} FillsOne(dir: L.Dir, size: nat, frame: Text, n: nat)
    requires OneSegment(dir, size) && 0 < |frame| && size + Times(n, |frame|) < SEGMENT_MAX_BYTES + |frame|
    ensures OneSegment(AppendedTimes(dir, frame, n), size + Times(n, |frame|))
    ensures n > 0 ==> 1 in AppendedTimes(dir, frame, n)
    decreases n
  {
    hide L.Appended, OneSegment, Times;
    OneTime(n, |frame|);
    if n > 0 {
      AppendsToOne(dir, size, frame);
      FillsOne(L.Appended(dir, frame), size + |frame|, frame, n - 1);
    }
  }

  function Times(n: nat, k: nat): nat {
    n * k
  }

  lemma OneTime(n: nat, k: nat)
    ensures n > 0 ==> Times(n, k) == k + Times(n - 1, k)
    ensures Times(0, k) == 0
  {
  }

  // ----- Every writer past Stat, and then every write -----------------------------------------------

  predicate AllIdle(s: State) {
    forall w :: 0 <= w < |s.writers| ==> s.writers[w].Idle?
  }

  /** Begin, Scan and Open of the newest segment. */
  lemma OpensNewest(s: State, w: nat, f: Frame) returns (run: seq<Event>)
    requires Valid(s) && w < |s.writers| && s.writers[w].Idle? && Encodable(f) && s.dir.Keys != {}
    ensures var g := Newest(s.dir.Keys);
      OnlyWriter(run, w, f) && Execute(s, run) == Goto(s, w, Stat(f, g, s.dir[g]))
  {
    hide Encodable, Newest;
    var g := Newest(s.dir.Keys);
    GotoValid(s, w, Scan(f, None));
    GotoValid(s, w, Open(f, None, g));
    GotoValid(s, w, Stat(f, g, s.dir[g]));
    BegunRuns(s, Begin(w, f), w, 2);
    assert RunWriter(Goto(s, w, Scan(f, None)), w) == Goto(s, w, Open(f, None, g));
    assert RunWriter(Goto(s, w, Open(f, None, g)), w) == Goto(s, w, Stat(f, g, s.dir[g]));
    TwoTurns(Goto(s, w, Scan(f, None)), w);
    run := [Begin(w, f)] + Runs(w, 2);
  }

  lemma TwoTurns(s: State, w: nat)
    requires Valid(s) && w < |s.writers|
    ensures var t := RunWriter(s, w);
      Valid(t) && |t.writers| == |s.writers| && Turns(s, w, 2) == RunWriter(t, w)
  {
    hide RunWriter, Valid;
    RunWriterValid(s, w);
    RunWriterValid(RunWriter(s, w), w);
  }

  /** And then Stat: on to the write below the threshold, to the rotation from it on. */
  lemma Stats(s: State, w: nat, f: Frame) returns (run: seq<Event>)
    requires Valid(s) && w < |s.writers| && s.writers[w].Idle? && Encodable(f) && s.dir.Keys != {}
    ensures OnlyWriter(run, w, f)
    ensures var g := Newest(s.dir.Keys);
      Execute(s, run) ==
        Goto(s, w, if |s.inodes[s.dir[g]].bytes| >= SEGMENT_MAX_BYTES then Rotate(f, g) else Write(f, s.dir[g]))
  {
    hide Encodable, Valid, Newest;
    var g := Newest(s.dir.Keys);
    var open := OpensNewest(s, w, f);
    assert g in s.dir;
    ValidParts(s, w);
    var t := Goto(s, w, Stat(f, g, s.dir[g]));
    ApplyValid(t, Run(w));
    assert t.writers[w] == Stat(f, g, s.dir[g]);
    var last := [Run(w)];
    assert last[1..] == [];
    ExecuteAppend(s, open, last);
    run := open + last;
  }

  /** The first k writers are about to write. */
  function ReadyUpTo(s: State, f: Frame, k: nat): State
    requires 1 in s.dir
  {
    s.(writers := seq(|s.writers|, w requires 0 <= w < |s.writers| => if w < k then Write(f, s.dir[1]) else s.writers[w]))
  }

  lemma {:induction false} AllPassStat(s: State, f: Frame, k: nat) returns (run: seq<Event>)
    requires Valid(s) && AllIdle(s) && Encodable(f) && k <= |s.writers|
    requires s.dir.Keys == {1} && |s.inodes[s.dir[1]].bytes| < SEGMENT_MAX_BYTES
    ensures 1 in s.dir && NoShips(run) && Execute(s, run) == ReadyUpTo(s, f, k)
  {
    hide Encodable, Apply, Newest;
    assert 1 in s.dir.Keys;
    NewestIs(s.dir.Keys, 1);
    if k == 0 {
      run := [];
      assert ReadyUpTo(s, f, 0) == s;
    } else {
      var before := AllPassStat(s, f, k - 1);
      var t := Execute(s, before);
      var next := Stats(t, k - 1, f);
      ExecuteAppend(s, before, next);
      assert Goto(ReadyUpTo(s, f, k - 1), k - 1, Write(f, s.dir[1])) == ReadyUpTo(s, f, k);
      run := before + next;
    }
  }

  /** The writers from k on write, one after the other. */
  lemma {:induction false} AllWrite(s: State, f: Frame, i: nat, k: nat) returns (run: seq<Event>)
    requires Valid(s) && Encodable(f) && k <= |s.writers| && i < |s.inodes|
    requires forall w :: k <= w < |s.writers| ==> s.writers[w] == Write(f, i)
    ensures NoShips(run)
    ensures var t := Execute(s, run);
      i < |t.inodes| && t.dir == s.dir &&
      |t.inodes[i].bytes| == |s.inodes[i].bytes| + (|s.writers| - k) * |FrameBytes(f)|
    decreases |s.writers| - k
  {
    hide Encodable, FrameBytes, Valid;
    if k == |s.writers| {
      run := [];
    } else {
      ApplyValid(s, Run(k));
      var t := Apply(s, Run(k));
      var rest := AllWrite(t, f, i, k + 1);
      run := [Run(k)] + rest;
      assert run[1..] == rest;
      OneTime(|s.writers| - k, |FrameBytes(f)|);
    }
  }

  /** From one writer's idle turn on: all of them write to a segment one byte short of full. */
  lemma RaceFillsOne(s: State, f: Frame) returns (run: seq<Event>)
    requires Valid(s) && AllIdle(s) && Encodable(f) && s.dir.Keys == {1}
    requires |s.inodes[s.dir[1]].bytes| == SEGMENT_MAX_BYTES - 1
    ensures 1 in s.dir && NoShips(run)
    ensures var t := Execute(s, run);
      t.dir == s.dir && s.dir[1] < |t.inodes| &&
      |t.inodes[s.dir[1]].bytes| == SEGMENT_MAX_BYTES - 1 + |s.writers| * |FrameBytes(f)|
  {
    hide Encodable, FrameBytes, Execute;
    assert 1 in s.dir.Keys;
    var first := AllPassStat(s, f, |s.writers|);
    var rest := AllWrite(Execute(s, first), f, s.dir[1], 0);
    ExecuteAppend(s, first, rest);
    run := first + rest;
  }

  /** One writer appends n frames to a directory of at most one segment. */
  lemma AppendsAlone(s: State, f: Frame, size: nat, n: nat) returns (run: seq<Event>)
    requires Valid(s) && |s.writers| > 0 && AllIdle(s) && Encodable(f) && OneSegment(View(s), size)
    requires n > 0 && size + n * |FrameBytes(f)| < SEGMENT_MAX_BYTES + |FrameBytes(f)|
    ensures NoShips(run)
    ensures var t := Execute(s, run);
      AllIdle(t) && |t.writers| == |s.writers| && t.dir.Keys == {1} &&
      |t.inodes[t.dir[1]].bytes| == size + n * |FrameBytes(f)|
  {
    hide Encodable, FrameBytes, Execute, AppendedTimes, Valid;
    run := RepeatedAppends(s, 0, f, n);
    FillsOne(View(s), size, FrameBytes(f), n);
    var t := Execute(s, run);
    ViewKeys(t);
  }

  lemma SizeOfOne(s: State)
    requires Valid(s) && s.dir.Keys == {1}
    ensures 1 in s.dir && OneSegment(View(s), |s.inodes[s.dir[1]].bytes|)
  {
    assert 1 in s.dir.Keys;
    ViewKeys(s);
  }

  /** For every number of writers there is a run from an empty directory that keeps every
      condition of SegmentSizeLimit and brings a segment to exactly its limit. */
  lemma SizeLimitIsReached(writers: nat) returns (run: seq<Event>)
    requires writers > 0
    ensures var s := Empty(writers);
      Start(s) && NoShips(run) && Careful(s, run) && NeverLosesLast(s, run) &&
      exists i :: 0 <= i < |Execute(s, run).inodes| && |Execute(s, run).inodes[i].bytes| == SizeLimit(writers)
  {
    hide Encodable, FrameBytes, Execute, NeverLosesLast, Careful, OneSegment;
    var s := Empty(writers);
    assert OneSegment(View(s), 0) by { EmptyIsOne(writers); }
    var most := FrameOfSize(MAX_FRAME_BYTES);
    var last := FrameOfSize(SEGMENT_MAX_BYTES - 1 - 7 * MAX_FRAME_BYTES);
    var r1 := AppendsAlone(s, most, 0, 7);
    var s1 := Execute(s, r1);
    SizeOfOne(s1);
    var r2 := AppendsAlone(s1, last, 7 * MAX_FRAME_BYTES, 1);
    var s2 := Execute(s1, r2);
    var r3 := RaceFillsOne(s2, most);
    ExecuteAppend(s, r1, r2);
    ExecuteAppend(s, r1 + r2, r3);
    run := r1 + r2 + r3;
    StaysBelowLast(s, run);
  }

  lemma EmptyIsOne(writers: nat)
    ensures Start(Empty(writers)) && AllIdle(Empty(writers)) && OneSegment(View(Empty(writers)), 0)
  {
  }

  lemma StaysBelowLast(s: State, run: seq<Event>)
    requires Start(s) && s.dir == map[] && NoShips(run) && Execute(s, run).dir.Keys <= {1, 2}
    ensures Careful(s, run) && NeverLosesLast(s, run)
  {
    hide Execute, NeverLosesLast, Careful;
    StartOrdered(s);
    NoShipsCareful(s, run);
    BelowLastKeepsLast(s, run);
  }

  // ----- One writer filling segment after segment ------------------------------------------------

  lemma {:induction false} GrownOnward(frame: Text, n: nat, more: nat)
    ensures AppendedTimes(Grown(frame, n), frame, more) == Grown(frame, n + more)
    ensures DroppedTimes(Grown(frame, n), frame, more) == DroppedFrom(frame, n, more)
    decreases more
  {
    hide L.Appended, L.DroppedSegments;
    if more > 0 {
      GrownOnward(frame, n + 1, more - 1);
    }
  }

  /** The segments dropped by the appends after the first n. */
  function DroppedFrom(frame: Text, n: nat, more: nat): nat
    decreases more
  {
    if more == 0 then 0 else L.DroppedSegments(Grown(frame, n)) + DroppedFrom(frame, n + 1, more - 1)
  }

  /** Four segments fit the budget. */
  lemma {:induction false} FourFit(frame: Text, n: nat, more: nat)
    requires Largest(frame) && n + more <= 32
    ensures DroppedFrom(frame, n, more) == 0
    decreases more
  {
    hide L.DroppedSegments, Grown;
    if more > 0 {
      GrownDrops(frame, n);
      FourFit(frame, n + 1, more - 1);
    }
  }

  /** One writer appends, left alone. */
  lemma GrowsOn(s: State, w: nat, f: Frame, n: nat, more: nat) returns (run: seq<Event>)
    requires Valid(s) && w < |s.writers| && s.writers[w].Idle? && Encodable(f) && View(s) == Grown(FrameBytes(f), n)
    ensures OnlyWriter(run, w, f)
    ensures var t := Execute(s, run);
      w < |t.writers| && t.writers[w].Idle? && View(t) == Grown(FrameBytes(f), n + more) && OthersAlike(s, t, w) &&
      t.droppedFrames == s.droppedFrames + DroppedFrom(FrameBytes(f), n, more)
  {
    hide Encodable, FrameBytes, Valid, View, AppendedTimes, DroppedTimes, DroppedFrom, Grown, OthersAlike, Execute;
    run := RepeatedAppends(s, w, f, more);
    GrownOnward(FrameBytes(f), n, more);
  }

  /** What the directory holds after n appends. */
  lemma GrownKeys(s: State, f: Frame, n: nat)
    requires Valid(s) && Encodable(f) && Largest(FrameBytes(f)) && 0 < n < 1000 && View(s) == Grown(FrameBytes(f), n)
    ensures s.dir.Keys != {} && Newest(s.dir.Keys) == NewestOf(n)
    ensures forall g :: g in s.dir <==> OldestOf(n) <= g <= NewestOf(n)
    ensures forall g :: g in s.dir ==>
      |s.inodes[s.dir[g]].bytes| == (if g < NewestOf(n) then 8 else InNewest(n)) * MAX_FRAME_BYTES
  {
    hide Encodable, FrameBytes, Valid, View, Grown, Newest, Copies;
    var frame := FrameBytes(f);
    GrownIsFilled(frame, n);
    FilledNewest(View(s), frame, OldestOf(n), NewestOf(n), InNewest(n));
    ViewKeys(s);
    CopiesLength(frame, 8);
    CopiesLength(frame, InNewest(n));
  }

  // ----- A rotation loser --------------------------------------------------------------------------

  /** Writer 0 fills the first segment, and writer 1 finds it full and stalls before its
      rotation. */
  lemma StallsAtRotate(f: Frame) returns (run: seq<Event>)
    requires Encodable(f) && Largest(FrameBytes(f))
    ensures NoShips(run)
    ensures var t := Execute(Empty(2), run);
      |t.writers| == 2 && t.writers[0].Idle? && t.writers[1] == Rotate(f, 1) && View(t) == Grown(FrameBytes(f), 8)
  {
    hide Encodable, FrameBytes, Execute, View, Grown, Valid, DroppedFrom, Newest;
    var s := Empty(2);
    EmptyIsGrown(2, FrameBytes(f));
    var fill := GrowsOn(s, 0, f, 0, 8);
    var t := Execute(s, fill);
    GrownKeys(t, f, 8);
    var find := Stats(t, 1, f);
    ViewOfGoto(t, 1, Rotate(f, 1));
    ExecuteAppend(s, fill, find);
    run := fill + find;
  }

  lemma EmptyIsGrown(writers: nat, frame: Text)
    ensures Start(Empty(writers)) && AllIdle(Empty(writers)) && View(Empty(writers)) == Grown(frame, 0)
  {
  }

  /** Then writer 0 rotates and fills segment 2. Writer 1, at a rotation it is about to lose, still
      adds its frame once it goes on: the segment ends more than one frame over the threshold. */
  lemma LoserOverfills() returns (f: Frame, run: seq<Event>, stalled: seq<Event>)
    ensures NoShips(run) && OnlyWriter(stalled, 1, f)
    ensures var t := Execute(Empty(2), run);
      |t.writers| == 2 && t.writers[1] == Rotate(f, 1) && 2 in t.dir &&
      2 in View(t) && |View(t)[2]| == 8 * MAX_FRAME_BYTES >= SEGMENT_MAX_BYTES
    ensures var u := Execute(Empty(2), run + stalled);
      2 in View(u) && |View(u)[2]| == 9 * MAX_FRAME_BYTES > SEGMENT_MAX_BYTES + MAX_FRAME_BYTES
  {
    hide Encodable, FrameBytes, Execute, View, Grown, Valid, Newest, DroppedFrom;
    f := FrameOfSize(MAX_FRAME_BYTES);
    var stall := StallsAtRotate(f);
    EmptyIsGrown(2, FrameBytes(f));
    var s := Execute(Empty(2), stall);
    var fill := GrowsOn(s, 0, f, 8, 8);
    ExecuteAppend(Empty(2), stall, fill);
    run := stall + fill;
    var t := Execute(s, fill);
    GrownKeys(t, f, 16);
    ViewKeys(t);
    stalled := LosesAndWrites(t, 1, f, 1);
    ExecuteAppend(Empty(2), run, stalled);
  }

  /** A writer at a rotation that is lost, left alone, writes to the newest segment. */
  lemma LosesAndWrites(s: State, w: nat, f: Frame, g: nat) returns (run: seq<Event>)
    requires Valid(s) && w < |s.writers| && s.writers[w] == Rotate(f, g) && NextGeneration(g) in s.dir
    ensures Encodable(f) && OnlyWriter(run, w, f) && s.dir.Keys != {}
    ensures View(Execute(s, run)) == L.Written(View(s), Newest(s.dir.Keys), FrameBytes(f))
  {
    hide Encodable, FrameBytes, Finishes, Newest, Valid, View, Execute;
    ValidParts(s, w);
    var dir := L.Written(View(s), Newest(s.dir.Keys), FrameBytes(f));
    var t := Goto(s, w, Scan(f, Some(g)));
    ViewOfGoto(s, w, Scan(f, Some(g)));
    Loser(t, w, f, g);
    OneTurn(s, w, t, dir, s.droppedFrames, s.droppedBytes);
    run := RunToIdle(s, w, f, dir, s.droppedFrames, s.droppedBytes);
  }
}
