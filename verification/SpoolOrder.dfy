/** Stale scans and racing rotations never move the log backwards: given an agent that spares
    the newest segment, the newest generation never decreases and no writer drops it. */
module SpoolOrder {
  import opened Bytes
  import opened Frames
  import opened Generations
  import opened SegmentName
  import opened SpoolMachine

  /** The newest generation in the directory, -1 when it is empty. */
  function Top(s: State): (t: int)
    ensures t >= -1 && (t >= 0 ==> t in s.dir)
    ensures forall g :: g in s.dir ==> g <= t
  {
    assert forall g :: g in s.dir ==> g in s.dir.Keys;
    if s.dir.Keys == {} then -1 else Newest(s.dir.Keys)
  }

  /** The event is not the agent deleting the newest segment. */
  predicate Spares(s: State, e: Event) {
    e.Ship? ==> e.generation != Top(s)
  }

  /** The agent spares the newest segment throughout the run. */
  predicate Careful(s: State, run: seq<Event>)
    requires Valid(s)
    decreases |run|
  {
    run == [] ||
    (Spares(s, run[0]) && (ApplyValid(s, run[0]); Careful(Apply(s, run[0]), run[1..])))
  }

  /** A writer that lost the race for the generation after `lost` has seen a newer one - or
      was rotating the last generation a uint64 holds, whose successor wraps to zero. */
  predicate LostOrdered(lost: Option<nat>, seen: int) {
    lost.Some? ==> lost.value <= seen && (lost.value < seen || lost.value == LAST_GENERATION)
  }

  /** What a writer remembers of the directory is bounded by its newest generation. */
  predicate PcOrdered(pc: Pc, top: int) {
    match pc
    case Scan(_, lost) => LostOrdered(lost, top)
    case Create(_, lost) => LostOrdered(lost, top)
    case Open(_, lost, generation) => generation <= top && LostOrdered(lost, generation)
    case Stat(_, generation, _) => generation <= top
    case Rotate(_, generation) => generation <= top
    case StatVictim(_, _, victims) => forall v :: v in victims ==> v < top
    case RemoveVictim(_, _, victims, _) => forall v :: v in victims ==> v < top
    case _ => true
  }

  predicate Ordered(s: State) {
    Valid(s) &&
    (forall g :: g in s.dir ==> g < GENERATIONS) &&
    (forall i :: 0 <= i < |s.inodes| ==> s.inodes[i].generation <= Top(s)) &&
    (forall w :: 0 <= w < |s.writers| ==> PcOrdered(s.writers[w], Top(s)))
  }

  lemma StartOrdered(s: State)
    requires Start(s) && forall g :: g in s.dir ==> g < GENERATIONS
    ensures Ordered(s)
  {
  }

  // ----- How the newest generation moves ---------------------------------------------------

  lemma TopWithSegment(s: State, generation: nat)
    ensures Top(WithSegment(s, generation)) == if generation > Top(s) then generation else Top(s)
  {
    var s' := WithSegment(s, generation);
    assert generation in s'.dir;
    assert Top(s) >= 0 ==> Top(s) in s'.dir;
    assert forall g :: g in s'.dir ==> g == generation || g in s.dir;
  }

  lemma TopUnlinked(s: State, generation: nat)
    requires generation in s.dir ==> generation != Top(s)
    ensures Top(Unlinked(s, generation)) == Top(s)
  {
    var s' := Unlinked(s, generation);
    assert Top(s) >= 0 ==> Top(s) in s'.dir;
    assert forall g :: g in s'.dir ==> g in s.dir;
  }

  /** The victims of a scan are older than something that scan saw. */
  lemma VictimsOlder(s: State, v: nat)
    requires v in Victims(s.dir.Keys)
    ensures v < Top(s)
  {
    var r := Ascending(s.dir.Keys);
    var k := |r| - MAX_SEGMENTS;
    var i :| 0 <= i < k && r[..k][i] == v;
    assert r[i] < r[|r| - 1] && r[|r| - 1] in r;
  }

  // ----- Every step keeps the order ----------------------------------------------------------

  /** One writer moves to `pc` in a directory whose newest generation has not gone down. */
  lemma OrderedGoto(s: State, s': State, w: nat, pc: Pc)
    requires Ordered(s) && w < |s.writers| && Valid(s')
    requires Top(s') >= Top(s) && PcOrdered(pc, Top(s'))
    requires forall g :: g in s'.dir ==> g < GENERATIONS
    requires |s'.inodes| >= |s.inodes| && s'.writers == s.writers[w := pc]
    requires forall i :: 0 <= i < |s.inodes| ==> s'.inodes[i].generation == s.inodes[i].generation
    requires forall i :: |s.inodes| <= i < |s'.inodes| ==> s'.inodes[i].generation <= Top(s')
    ensures Ordered(s')
  {
    hide Top, Valid;
    forall v | 0 <= v < |s'.writers| ensures PcOrdered(s'.writers[v], Top(s')) {
      if v != w { assert PcOrdered(s.writers[v], Top(s)); }
    }
  }

  lemma OrderedRemove(s: State, w: nat)
    requires Ordered(s) && w < |s.writers| && s.writers[w].RemoveVictim? && s.writers[w].victims != []
    ensures Ordered(RunWriter(s, w)) && Top(RunWriter(s, w)) == Top(s)
  {
    hide Encodable, FrameBytes, Top, Valid;
    var victims, s' := s.writers[w].victims, RunWriter(s, w);
    RunWriterValid(s, w);
    assert PcOrdered(s.writers[w], Top(s));
    assert victims[0] in victims && forall v :: v in victims[1..] ==> v in victims;
    TopUnlinked(s, victims[0]);
    assert s'.dir == Unlinked(s, victims[0]).dir || s'.dir == s.dir;
    SameDirSameTop(Unlinked(s, victims[0]), s');
    OrderedGoto(s, s', w, s'.writers[w]);
  }

  lemma OrderedRotate(s: State, w: nat)
    requires Ordered(s) && w < |s.writers| && s.writers[w].Rotate?
    ensures Ordered(RunWriter(s, w)) && Top(RunWriter(s, w)) >= Top(s)
  {
    hide Encodable, FrameBytes, Top, Valid, NextGeneration;
    var generation, s' := s.writers[w].generation, RunWriter(s, w);
    RunWriterValid(s, w);
    assert PcOrdered(s.writers[w], Top(s));
    var next := NextGeneration(generation);
    assert next < GENERATIONS && (generation < GENERATIONS ==> next == generation + 1 || generation == LAST_GENERATION)
      by { WrapAround(generation); }
    assert generation < GENERATIONS && (next in s.dir ==> next <= Top(s)) by { TopInDir(s, next); }
    if next in s.dir {
      SameDirSameTop(s, s');
    } else {
      CreatedOrder(s, s', next, w);
    }
    OrderedGoto(s, s', w, s'.writers[w]);
  }

  lemma OrderedRun(s: State, w: nat)
    requires Ordered(s) && w < |s.writers|
    ensures Ordered(RunWriter(s, w)) && Top(RunWriter(s, w)) >= Top(s)
  {
    hide Encodable, FrameBytes, Victims, Newest, Top, Valid, NextGeneration;
    var pc, s' := s.writers[w], RunWriter(s, w);
    RunWriterValid(s, w);
    ValidParts(s, w);
    assert PcOrdered(pc, Top(s));
    assert s'.dir == s.dir ==> Top(s') == Top(s) by { SameDirSameTop(s, s'); }
    match pc
    case Idle =>
    case Scan(_, lost) =>
      TopIsNewest(s);
      OrderedGoto(s, s', w, s'.writers[w]);
    case Create(_, lost) =>
      if 1 !in s.dir { CreatedOrder(s, s', 1, w); }
      OrderedGoto(s, s', w, s'.writers[w]);
    case Rotate(_, _) =>
      OrderedRotate(s, w);
    case ListBudget(_, _) =>
      forall v | v in Victims(s.dir.Keys) ensures v < Top(s) { VictimsOlder(s, v); }
      OrderedGoto(s, s', w, s'.writers[w]);
    case RemoveVictim(_, _, _, _) =>
      OrderedRemove(s, w);
    case _ =>
      OrderedGoto(s, s', w, s'.writers[w]);
  }

  lemma SameDirSameTop(s: State, s': State)
    ensures s'.dir == s.dir ==> Top(s') == Top(s)
  {
  }

  lemma TopIsNewest(s: State)
    ensures s.dir.Keys != {} ==> Newest(s.dir.Keys) == Top(s)
  {
  }

  lemma TopInDir(s: State, next: nat)
    requires Ordered(s)
    ensures Top(s) < GENERATIONS && (next in s.dir ==> next <= Top(s))
  {
  }

  lemma WrapAround(generation: nat)
    ensures NextGeneration(generation) < GENERATIONS
    ensures generation < GENERATIONS ==>
      NextGeneration(generation) == generation + 1 || generation == LAST_GENERATION
  {
  }

  lemma CreatedOrder(s: State, s': State, generation: nat, w: nat)
    requires s'.dir == WithSegment(s, generation).dir
    ensures Top(s') >= Top(s) && Top(s') >= generation
  {
    TopWithSegment(s, generation);
    SameDirSameTop(WithSegment(s, generation), s');
  }

  lemma OrderedStep(s: State, e: Event)
    requires Ordered(s) && Spares(s, e)
    ensures Ordered(Apply(s, e)) && Top(Apply(s, e)) >= Top(s)
  {
    hide Encodable, RunWriter, Top, Valid, PcOrdered;
    var s' := Apply(s, e);
    ApplyValid(s, e);
    SameDirSameTop(s, s');
    match e
    case Begin(w, frame) =>
      if w < |s.writers| && s.writers[w].Idle? && Encodable(frame) {
        assert PcOrdered(s'.writers[w], Top(s')) by { FreshScanOrdered(frame, Top(s')); }
        OrderedGoto(s, s', w, s'.writers[w]);
      }
    case Run(w) =>
      if w < |s.writers| { OrderedRun(s, w); }
    case Ship(g) =>
      TopUnlinked(s, g);
  }

  lemma FreshScanOrdered(frame: Frame, top: int)
    ensures PcOrdered(Scan(frame, None), top)
  {
  }

  /** Over a whole run the newest generation never decreases. */
  lemma {:induction false} NewestNeverDecreases(s: State, run: seq<Event>)
    requires Ordered(s) && Careful(s, run)
    ensures Ordered(Execute(s, run))
    ensures Top(Execute(s, run)) >= Top(s)
    decreases |run|
  {
    hide Apply, Top, Ordered, Spares;
    if run != [] {
      assert Valid(s) by { OrderedValid(s); }
      OrderedStep(s, run[0]);
      NewestNeverDecreases(Apply(s, run[0]), run[1..]);
    }
  }

  lemma OrderedValid(s: State)
    requires Ordered(s)
    ensures Valid(s)
  {
  }

  /** In any state such a run reaches, the segment a writer is about to drop is not the newest. */
  lemma BudgetSparesNewest(s: State, run: seq<Event>, w: nat)
    requires Ordered(s) && Careful(s, run)
    ensures var r := Execute(s, run);
      w < |r.writers| && r.writers[w].RemoveVictim? ==> r.writers[w].victims[0] < Top(r)
  {
    hide Top;
    NewestNeverDecreases(s, run);
    var r := Execute(s, run);
    if w < |r.writers| && r.writers[w].RemoveVictim? {
      assert PcOrdered(r.writers[w], Top(r)) && PcValid(r.writers[w], |r.inodes|);
      assert r.writers[w].victims[0] in r.writers[w].victims;
    }
  }
}
