/** Why SegmentSizeLimit excludes a lost rotation of the last generation a uint64 holds: its
    successor wraps to zero, a writer that finds generation zero taken goes back to the same
    segment as a rotation loser, and appends to it without a Stat, again and again. */
module SpoolWrap {
  import opened Bytes
  import opened Frames
  import opened Generations
  import opened SegmentName
  import opened SpoolMachine
  import opened SpoolOrder
  import opened SpoolSize
  import opened SpoolSolo
  import L = SegmentLog

  /** The first and the last generation are both taken. */
  predicate Wrapped(dir: L.Dir) {
    0 in dir && LAST_GENERATION in dir && forall g :: g in dir ==> g < GENERATIONS
  }

  /** An append to such a directory goes to the last segment, full or not. */
  lemma AppendsToLast(dir: L.Dir, frame: Text)
    requires Wrapped(dir)
    ensures L.Appended(dir, frame) == dir[LAST_GENERATION := dir[LAST_GENERATION] + frame]
    ensures Wrapped(L.Appended(dir, frame))
  {
    NewestIs(dir.Keys, LAST_GENERATION);
    assert NextGeneration(LAST_GENERATION) == 0;
  }

  lemma OneMore(n: nat, k: nat)
    requires n > 0
    ensures n * k == k + (n - 1) * k
  {
  }

  lemma {:induction false} LastGrows(dir: L.Dir, frame: Text, n: nat)
    requires Wrapped(dir)
    ensures var d := AppendedTimes(dir, frame, n);
      Wrapped(d) && |d[LAST_GENERATION]| == |dir[LAST_GENERATION]| + n * |frame|
    decreases n
  {
    hide L.Appended;
    if n > 0 {
      AppendsToLast(dir, frame);
      LastGrows(L.Appended(dir, frame), frame, n - 1);
      OneMore(n, |frame|);
    }
  }

  /** Of a state whose directory is so, n undisturbed appends of one writer grow the last segment
      by n frames, however large it is already. */
  lemma WrapDefeatsSizeLimit(s: State, w: nat, frame: Frame, n: nat) returns (run: seq<Event>)
    requires Valid(s) && w < |s.writers| && s.writers[w].Idle? && Encodable(frame) && Wrapped(View(s))
    ensures OnlyWriter(run, w, frame)
    ensures var t := Execute(s, run);
      LAST_GENERATION in View(t) &&
      |View(t)[LAST_GENERATION]| == |View(s)[LAST_GENERATION]| + n * |FrameBytes(frame)|
  {
    hide Encodable, FrameBytes, Valid, View, Execute;
    run := RepeatedAppends(s, w, frame, n);
    LastGrows(View(s), FrameBytes(frame), n);
  }

  /** Once a rotation of the last generation is lost, the loser alone can grow that segment past
      every size. */
  lemma LostLastDefeatsSizeLimit(s: State, w: nat, frame: Frame, size: nat) returns (run: seq<Event>)
    requires Ordered(s) && LosesLast(s, Run(w)) && Encodable(frame)
    ensures Valid(s) && OnlyWriter(run, w, frame)
    ensures var t := Execute(s, run);
      LAST_GENERATION in View(t) && |View(t)[LAST_GENERATION]| >= size
  {
    hide Encodable, FrameBytes, Newest, Top, Ordered, Valid, View, Execute, Finishes, Wrapped;
    OrderedValid(s);
    var written := LosesRotation(s, w);
    var finish := RunToIdle(s, w, frame, written, s.droppedFrames, s.droppedBytes);
    var t := Execute(s, finish);
    var rest := WrapDefeatsSizeLimit(t, w, frame, size);
    ExecuteAppend(s, finish, rest);
    run := finish + rest;
    AtLeast(size, |FrameBytes(frame)|);
  }

  lemma AtLeast(n: nat, k: nat)
    requires k > 0
    ensures n * k >= n
  {
  }

  lemma LastIsThere(s: State, w: nat)
    requires Ordered(s) && w < |s.writers| && s.writers[w].Rotate? && s.writers[w].generation == LAST_GENERATION
    ensures Valid(s) && LAST_GENERATION in s.dir && forall g :: g in s.dir ==> g < GENERATIONS
  {
    hide Top, Encodable, PcValid;
    OrderedValid(s);
    assert PcOrdered(s.writers[w], Top(s));
    TopInDir(s, 0);
    TopIsThere(s);
  }

  lemma TopIsThere(s: State)
    ensures Top(s) >= 0 ==> Top(s) in s.dir
  {
  }

  /** The loser finishes by writing to the last segment. */
  lemma LosesRotation(s: State, w: nat) returns (written: L.Dir)
    requires Ordered(s) && LosesLast(s, Run(w))
    ensures Valid(s) && Wrapped(written)
    ensures Finishes(s, w, written, s.droppedFrames, s.droppedBytes)
  {
    hide Encodable, FrameBytes, Finishes, Newest, Ordered, Valid, View;
    LastIsThere(s, w);
    ValidParts(s, w);
    ViewKeys(s);
    var frame := s.writers[w].frame;
    written := L.Written(View(s), LAST_GENERATION, FrameBytes(frame));
    NewestIs(s.dir.Keys, LAST_GENERATION);
    assert NextGeneration(LAST_GENERATION) == 0;
    var t := Goto(s, w, Scan(frame, Some(LAST_GENERATION)));
    ViewOfGoto(s, w, Scan(frame, Some(LAST_GENERATION)));
    Loser(t, w, frame, LAST_GENERATION);
    OneTurn(s, w, t, written, s.droppedFrames, s.droppedBytes);
  }
}
