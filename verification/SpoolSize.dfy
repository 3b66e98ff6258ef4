/** How large a segment can grow when W writers race. A rotation loser appends without a
    second Stat, so a full segment can still grow - but each writer can do that at most once
    to any one segment, so no segment exceeds SegmentMaxBytes - 1 plus W frames. */
module SpoolSize {
  import opened Bytes
  import opened Frames
  import opened Generations
  import opened SegmentName
  import opened SpoolMachine
  import opened SpoolOrder
  import opened SpoolBudget

  /** Writer at `pc` may still append to inode i, named `generation` when it was created,
      without first seeing its size in Stat. */
  predicate Armed(pc: Pc, i: nat, generation: nat) {
    match pc
    case Idle => false
    case Scan(_, lost) => lost.Some? && lost.value < generation
    case Create(_, lost) => (if lost.Some? then lost.value else 1) < generation
    case Open(_, lost, g) => (if lost.Some? then lost.value else g) < generation
    case Stat(_, g, _) => g < generation
    case Rotate(_, g) => g < generation
    case ListBudget(_, inode) => inode == i
    case StatVictim(_, inode, _) => inode == i
    case RemoveVictim(_, inode, _, _) => inode == i
    case Write(_, inode) => inode == i
  }

  function ArmedSet(s: State, i: nat): set<nat>
    requires i < |s.inodes|
  {
    set w | 0 <= w < |s.writers| && Armed(s.writers[w], i, s.inodes[i].generation)
  }

  /** Every writer that is no longer armed may have added one frame. */
  predicate Bounded(s: State, i: nat)
    requires i < |s.inodes|
  {
    |s.inodes[i].bytes| <= SEGMENT_MAX_BYTES - 1 + MAX_FRAME_BYTES * (|s.writers| - |ArmedSet(s, i)|)
  }

  predicate AllBounded(s: State) {
    forall i :: 0 <= i < |s.inodes| ==> Bounded(s, i)
  }

  function SizeLimit(writers: nat): nat {
    SEGMENT_MAX_BYTES - 1 + writers * MAX_FRAME_BYTES
  }

  lemma {:induction false} SizeBelow(a: set<nat>, n: nat)
    requires forall x :: x in a ==> x < n
    ensures |a| <= n
  {
    if n == 0 {
      assert a == {};
    } else {
      SizeBelow(a - {n - 1}, n - 1);
      SubsetSize(a, (a - {n - 1}) + {n - 1});
    }
  }

  lemma ArmedSetSize(s: State, i: nat)
    requires i < |s.inodes|
    ensures |ArmedSet(s, i)| <= |s.writers|
  {
    hide Armed;
    SizeBelow(ArmedSet(s, i), |s.writers|);
  }

  /** A segment below the threshold is within its bound whoever is armed. */
  lemma BoundedBelowThreshold(s: State, i: nat)
    requires i < |s.inodes| && |s.inodes[i].bytes| < SEGMENT_MAX_BYTES
    ensures Bounded(s, i)
  {
    ArmedSetSize(s, i);
  }

  /** Writer w moves, inode i keeps its bytes, and w is not newly armed on it. */
  lemma BoundedMove(s: State, s': State, w: nat, i: nat)
    requires i < |s.inodes| <= |s'.inodes| && s'.inodes[i] == s.inodes[i] && Bounded(s, i)
    requires w < |s.writers| == |s'.writers| && s'.writers == s.writers[w := s'.writers[w]]
    requires Armed(s'.writers[w], i, s.inodes[i].generation) ==> Armed(s.writers[w], i, s.inodes[i].generation)
    ensures Bounded(s', i)
  {
    hide Armed;
    assert ArmedSet(s', i) <= ArmedSet(s, i);
    SubsetSize(ArmedSet(s', i), ArmedSet(s, i));
  }

  /** The write itself: one frame more, one armed writer fewer. */
  lemma BoundedWrite(s: State, w: nat, i: nat)
    requires Valid(s) && w < |s.writers| && s.writers[w].Write? && i < |s.inodes| && Bounded(s, i)
    ensures Bounded(RunWriter(s, w), i)
  {
    hide Encodable, FrameBytes;
    ValidParts(s, w);
    var frame, inode := s.writers[w].frame, s.writers[w].inode;
    var s' := RunWriter(s, w);
    if i == inode {
      assert w in ArmedSet(s, i);
      assert ArmedSet(s', i) == ArmedSet(s, i) - {w};
      assert |s'.inodes[i].bytes| <= |s.inodes[i].bytes| + MAX_FRAME_BYTES;
    } else {
      BoundedMove(s, s', w, i);
    }
  }

  /** Outside the write and a Stat below the threshold, a step arms nobody. */
  lemma ArmsNobody(s: State, w: nat, i: nat)
    requires Ordered(s) && w < |s.writers| && i < |s.inodes| && !LostLast(s.writers[w])
    requires !s.writers[w].Write?
    requires s.writers[w].Stat? && s.writers[w].inode == i ==> |s.inodes[i].bytes| >= SEGMENT_MAX_BYTES
    ensures s.inodes[i].generation <= Top(s)
    ensures var s' := RunWriter(s, w);
      |s'.inodes| >= |s.inodes| && s'.inodes[i] == s.inodes[i] && |s'.writers| == |s.writers| &&
      s'.writers == s.writers[w := s'.writers[w]] &&
      (Armed(s'.writers[w], i, s.inodes[i].generation) ==> Armed(s.writers[w], i, s.inodes[i].generation))
  {
    hide Encodable, FrameBytes, Victims, Newest, Top, Valid, NextGeneration;
    assert Valid(s) by { OrderedValid(s); }
    ValidParts(s, w);
    TopIsNewest(s);
    TopWhenEmpty(s);
    assert PcOrdered(s.writers[w], Top(s));
  }

  lemma TopWhenEmpty(s: State)
    ensures s.dir.Keys == {} ==> Top(s) == -1
  {
  }

  lemma NewInodeEmpty(s: State, w: nat, i: nat)
    requires Valid(s) && w < |s.writers| && |s.inodes| <= i < |RunWriter(s, w).inodes|
    ensures RunWriter(s, w).inodes[i].bytes == []
  {
    hide Valid, FrameBytes, Encodable, Victims, Newest;
    ValidParts(s, w);
  }

  lemma BoundedRun(s: State, w: nat, i: nat)
    requires Ordered(s) && w < |s.writers| && !LostLast(s.writers[w]) && AllBounded(s)
    requires i < |RunWriter(s, w).inodes|
    ensures Bounded(RunWriter(s, w), i)
  {
    hide Top, Valid, Ordered, Armed, FrameBytes, Encodable, Victims, Newest, Bounded;
    assert Valid(s) by { OrderedValid(s); }
    var s' := RunWriter(s, w);
    if i >= |s.inodes| {
      NewInodeEmpty(s, w, i);
      BoundedBelowThreshold(s', i);
    } else if s.writers[w].Write? {
      BoundedWrite(s, w, i);
    } else if s.writers[w].Stat? && s.writers[w].inode == i && |s.inodes[i].bytes| < SEGMENT_MAX_BYTES {
      BoundedBelowThreshold(s', i);
    } else {
      ArmsNobody(s, w, i);
      BoundedMove(s, s', w, i);
    }
  }

  lemma BoundedStep(s: State, e: Event)
    requires Ordered(s) && NoneLostLast(s) && AllBounded(s)
    ensures AllBounded(Apply(s, e))
  {
    hide Top, Valid, Ordered, RunWriter, Encodable, Bounded;
    assert Valid(s) by { OrderedValid(s); }
    var s' := Apply(s, e);
    if e.Run? && e.writer < |s.writers| {
      forall i | 0 <= i < |s'.inodes| ensures Bounded(s', i) {
        BoundedRun(s, e.writer, i);
      }
    } else {
      forall i | 0 <= i < |s'.inodes| ensures Bounded(s', i) {
        assert Bounded(s, i);
        if e.Begin? && e.writer < |s.writers| {
          BoundedMove(s, s', e.writer, i);
        } else {
          SameArmed(s, s', i);
        }
      }
    }
  }

  lemma SameArmed(s: State, s': State, i: nat)
    requires i < |s.inodes| && s'.inodes == s.inodes && s'.writers == s.writers && Bounded(s, i)
    ensures Bounded(s', i)
  {
    hide Armed;
    assert ArmedSet(s', i) == ArmedSet(s, i);
  }

  // ----- The last generation ------------------------------------------------------------------

  /** The writer lost a rotation of the last generation, whose successor wraps to zero. */
  predicate LostLast(pc: Pc) {
    (pc.Scan? || pc.Create? || pc.Open?) && pc.lost == Some(LAST_GENERATION)
  }

  predicate NoneLostLast(s: State) {
    forall w :: 0 <= w < |s.writers| ==> !LostLast(s.writers[w])
  }

  /** The event is a writer losing such a rotation: generation zero is there already. */
  predicate LosesLast(s: State, e: Event) {
    e.Run? && e.writer < |s.writers| && s.writers[e.writer].Rotate? &&
    s.writers[e.writer].generation == LAST_GENERATION && 0 in s.dir
  }

  /** No event of the run is one. */
  predicate NeverLosesLast(s: State, run: seq<Event>)
    requires Valid(s)
    decreases |run|
  {
    run == [] ||
    (!LosesLast(s, run[0]) && (ApplyValid(s, run[0]); NeverLosesLast(Apply(s, run[0]), run[1..])))
  }

  lemma LastWraps()
    ensures NextGeneration(LAST_GENERATION) == 0
  {
  }

  lemma NoneLostStep(s: State, e: Event)
    requires Valid(s) && NoneLostLast(s) && !LosesLast(s, e)
    ensures NoneLostLast(Apply(s, e))
  {
    hide Encodable, FrameBytes, Newest, Victims, Valid, NextGeneration;
    LastWraps();
    var s' := Apply(s, e);
    if !e.Ship? && e.writer < |s.writers| {
      ValidParts(s, e.writer);
      assert forall v :: 0 <= v < |s.writers| && v != e.writer ==> s'.writers[v] == s.writers[v];
    }
  }

  /** In every state of every run in which no rotation of the last generation is lost, no inode -
      linked or not - is larger than SizeLimit. */
  lemma {:induction false} BoundedRunning(s: State, run: seq<Event>)
    requires Ordered(s) && Careful(s, run) && AllBounded(s) && NoneLostLast(s) && NeverLosesLast(s, run)
    ensures AllBounded(Execute(s, run))
    decreases |run|
  {
    hide Apply, Top, Ordered, Spares, AllBounded, NoneLostLast, LosesLast;
    if run != [] {
      assert Valid(s) by { OrderedValid(s); }
      OrderedStep(s, run[0]);
      BoundedStep(s, run[0]);
      NoneLostStep(s, run[0]);
      BoundedRunning(Apply(s, run[0]), run[1..]);
    }
  }

  /** The same from a start state: no segment outgrows SegmentMaxBytes - 1 plus one frame a writer. */
  lemma SegmentSizeLimit(s: State, run: seq<Event>)
    requires Start(s) && Careful(s, run) && forall g :: g in s.dir ==> g < GENERATIONS
    requires forall i :: 0 <= i < |s.inodes| ==> |s.inodes[i].bytes| <= SizeLimit(|s.writers|)
    requires NeverLosesLast(s, run)
    ensures forall i :: 0 <= i < |Execute(s, run).inodes| ==>
      |Execute(s, run).inodes[i].bytes| <= SizeLimit(|s.writers|)
  {
    hide Top, Careful, Execute, NeverLosesLast;
    StartOrdered(s);
    forall i | 0 <= i < |s.inodes| ensures Bounded(s, i) {
      assert ArmedSet(s, i) == {};
    }
    BoundedRunning(s, run);
    var r := Execute(s, run);
    forall i | 0 <= i < |r.inodes| ensures |r.inodes[i].bytes| <= SizeLimit(|s.writers|) {
      assert Bounded(r, i);
    }
  }

  lemma {:induction false} BelowLastKeepsLast(s: State, run: seq<Event>)
    requires Ordered(s) && Careful(s, run) && Top(Execute(s, run)) < LAST_GENERATION
    ensures NeverLosesLast(s, run)
    decreases |run|
  {
    hide Apply, Top, Spares;
    if run != [] {
      assert Valid(s) by { OrderedValid(s); }
      OrderedStep(s, run[0]);
      NewestNeverDecreases(Apply(s, run[0]), run[1..]);
      if LosesLast(s, run[0]) {
        assert PcOrdered(s.writers[run[0].writer], Top(s));
      }
      BelowLastKeepsLast(Apply(s, run[0]), run[1..]);
    }
  }

  // ----- A condition on the start and the length of the run ------------------------------------

  /** A step raises the newest generation by at most one, or to one. */
  lemma TopRises(s: State, e: Event)
    requires Ordered(s)
    ensures Valid(s) && Top(Apply(s, e)) <= (if Top(s) < 0 then 1 else Top(s) + 1)
  {
    hide Encodable, FrameBytes, Newest, Victims, NextGeneration;
    assert Valid(s) by { OrderedValid(s); }
    if e.Run? && e.writer < |s.writers| {
      var w := e.writer;
      ValidParts(s, w);
      assert PcOrdered(s.writers[w], Top(s));
      if s.writers[w].Rotate? {
        WrapAround(s.writers[w].generation);
      }
    }
  }

  /** A run too short to bring the newest generation to the last one loses no rotation of it. */
  lemma {:induction false} ShortRunsKeepLast(s: State, run: seq<Event>)
    requires Ordered(s) && Careful(s, run)
    requires (if Top(s) < 0 then 0 else Top(s)) + |run| < LAST_GENERATION
    ensures NeverLosesLast(s, run)
    decreases |run|
  {
    hide Apply, Top, Spares;
    if run != [] {
      assert Valid(s) by { OrderedValid(s); }
      OrderedStep(s, run[0]);
      TopRises(s, run[0]);
      if LosesLast(s, run[0]) {
        assert PcOrdered(s.writers[run[0].writer], Top(s));
      }
      ShortRunsKeepLast(Apply(s, run[0]), run[1..]);
    }
  }

  /** So the limit holds over every run that is shorter than the generations left. */
  lemma SegmentSizeLimitOfShortRuns(s: State, run: seq<Event>)
    requires Start(s) && Careful(s, run) && forall g :: g in s.dir ==> g < GENERATIONS
    requires forall i :: 0 <= i < |s.inodes| ==> |s.inodes[i].bytes| <= SizeLimit(|s.writers|)
    requires forall g :: g in s.dir ==> g + |run| < LAST_GENERATION
    requires |run| < LAST_GENERATION
    ensures forall i :: 0 <= i < |Execute(s, run).inodes| ==>
      |Execute(s, run).inodes[i].bytes| <= SizeLimit(|s.writers|)
  {
    hide Careful, Execute, NeverLosesLast;
    StartOrdered(s);
    assert Top(s) >= 0 ==> Top(s) in s.dir;
    hide Top;
    ShortRunsKeepLast(s, run);
    SegmentSizeLimit(s, run);
  }
}
