/** The multi-writer segment protocol of spool/segment.go as a step machine.

    The directory maps a generation to an inode; inodes live on when their name is removed,
    because a writer may still hold a descriptor. Every system call is one step: a directory
    scan, an open, a create with O_EXCL, a Stat, a Remove, and the one Write of a frame. Any
    number of writers and the agent interleave freely: an arbitrary event list is a run. */
module SpoolMachine {
  import opened Bytes
  import opened Frames
  import opened Generations
  import SegmentName

  const SEGMENT_MAX_BYTES := 64 * 1024 * 1024
  const MAX_SEGMENTS := 4
  const LAST_GENERATION: nat := SegmentName.GENERATIONS - 1

  /** `frames` records what was written to this inode, in write order. The steps below write
      `bytes`; that the two agree is a theorem. */
  datatype Inode = Inode(generation: nat, frames: seq<Frame>, bytes: Text)

  /** Where one writer is inside Append. `lost` holds rotate's `active` when openActive was
      called by a writer that lost the race for the next generation. */
  datatype Pc =
    | Idle
    | Scan(frame: Frame, lost: Option<nat>)
    | Create(frame: Frame, lost: Option<nat>)
    | Open(frame: Frame, lost: Option<nat>, generation: nat)
    | Stat(frame: Frame, generation: nat, inode: nat)
    | Rotate(frame: Frame, generation: nat)
    | ListBudget(frame: Frame, inode: nat)
    | StatVictim(frame: Frame, inode: nat, victims: seq<nat>)
    | RemoveVictim(frame: Frame, inode: nat, victims: seq<nat>, size: nat)
    | Write(frame: Frame, inode: nat)

  datatype State = State(
    dir: map<nat, nat>, inodes: seq<Inode>, writers: seq<Pc>,
    droppedFrames: nat, droppedBytes: nat)

  /** Begin: an idle writer calls Append. Run: a writer takes its next step. Ship: the agent
      deletes a segment. */
  datatype Event = Begin(writer: nat, frame: Frame) | Run(writer: nat) | Ship(generation: nat)

  // ----- Well-formed states ---------------------------------------------------------------

  predicate PcValid(pc: Pc, inodes: nat) {
    (!pc.Idle? ==> Encodable(pc.frame)) &&
    (pc.Stat? || pc.ListBudget? || pc.StatVictim? || pc.RemoveVictim? || pc.Write? ==> pc.inode < inodes) &&
    (pc.StatVictim? || pc.RemoveVictim? ==> pc.victims != [])
  }

  predicate Valid(s: State) {
    (forall g :: g in s.dir ==> s.dir[g] < |s.inodes| && s.inodes[s.dir[g]].generation == g) &&
    (forall w :: 0 <= w < |s.writers| ==> PcValid(s.writers[w], |s.inodes|))
  }

  /** Nobody is inside Append, and every inode is linked. */
  predicate Start(s: State) {
    Valid(s) &&
    (forall w :: 0 <= w < |s.writers| ==> s.writers[w].Idle?) &&
    (forall i :: 0 <= i < |s.inodes| ==> s.inodes[i].generation in s.dir)
  }

  // ----- Steps ----------------------------------------------------------------------------

  function Goto(s: State, w: nat, pc: Pc): State
    requires w < |s.writers|
  {
    s.(writers := s.writers[w := pc])
  }

  /** createSegment: a new, empty inode under a name that was free. */
  function WithSegment(s: State, generation: nat): State {
    s.(dir := s.dir[generation := |s.inodes|], inodes := s.inodes + [Inode(generation, [], [])])
  }

  function Unlinked(s: State, generation: nat): State {
    s.(dir := s.dir - {generation})
  }

  /** openActive returned: Append goes on to Stat, rotate's loser goes straight to the write. */
  function Opened(frame: Frame, lost: Option<nat>, generation: nat, inode: nat): Pc {
    if lost.None? then Stat(frame, generation, inode) else Write(frame, inode)
  }

  /** generations[:len(generations)-MaxSegments] */
  function Victims(generations: set<nat>): (v: seq<nat>)
    ensures forall g :: g in v ==> g in generations
  {
    if |generations| <= MAX_SEGMENTS then []
    else Ascending(generations)[..|generations| - MAX_SEGMENTS]
  }

  function NextVictim(frame: Frame, inode: nat, victims: seq<nat>): Pc {
    if victims == [] then Write(frame, inode) else StatVictim(frame, inode, victims)
  }

  function SizeAt(s: State, generation: nat): nat
    requires Valid(s)
  {
    if generation in s.dir then |s.inodes[s.dir[generation]].bytes| else 0
  }

  /** os.Remove and, if it removed something, the two drop counters. */
  function Dropped(s: State, generation: nat, size: nat): State {
    if generation !in s.dir then s
    else Unlinked(s, generation).(droppedFrames := s.droppedFrames + 1, droppedBytes := s.droppedBytes + size)
  }

  function Appended(s: State, inode: nat, frame: Frame): State
    requires inode < |s.inodes| && Encodable(frame)
  {
    var file := s.inodes[inode];
    s.(inodes := s.inodes[inode := Inode(file.generation, file.frames + [frame], file.bytes + FrameBytes(frame))])
  }

  function NextGeneration(active: nat): nat {
    (active + 1) % SegmentName.GENERATIONS
  }

  function RunWriter(s: State, w: nat): State
    requires Valid(s) && w < |s.writers|
  {
    match s.writers[w]
    case Idle => s
    case Scan(frame, lost) =>
      Goto(s, w, if s.dir.Keys == {} then Create(frame, lost) else Open(frame, lost, Newest(s.dir.Keys)))
    case Create(frame, lost) =>
      if 1 in s.dir then Goto(s, w, Scan(frame, lost))
      else Goto(WithSegment(s, 1), w, Opened(frame, lost, 1, |s.inodes|))
    case Open(frame, lost, generation) =>
      Goto(s, w, if generation in s.dir then Opened(frame, lost, generation, s.dir[generation]) else Scan(frame, lost))
    case Stat(frame, generation, inode) =>
      Goto(s, w, if |s.inodes[inode].bytes| >= SEGMENT_MAX_BYTES then Rotate(frame, generation) else Write(frame, inode))
    case Rotate(frame, generation) =>
      var next := NextGeneration(generation);
      if next in s.dir then Goto(s, w, Scan(frame, Some(generation)))
      else Goto(WithSegment(s, next), w, ListBudget(frame, |s.inodes|))
    case ListBudget(frame, inode) =>
      Goto(s, w, NextVictim(frame, inode, Victims(s.dir.Keys)))
    case StatVictim(frame, inode, victims) =>
      Goto(s, w, RemoveVictim(frame, inode, victims, SizeAt(s, victims[0])))
    case RemoveVictim(frame, inode, victims, size) =>
      Goto(Dropped(s, victims[0], size), w, NextVictim(frame, inode, victims[1..]))
    case Write(frame, inode) =>
      Goto(Appended(s, inode, frame), w, Idle)
  }

  /** Append refuses a frame it cannot encode before it touches the directory, and counts it. */
  function BeginAppend(s: State, w: nat, frame: Frame): State
    requires w < |s.writers|
  {
    if Encodable(frame) then Goto(s, w, Scan(frame, None))
    else s.(droppedFrames := s.droppedFrames + 1, droppedBytes := s.droppedBytes + |frame.payload|)
  }

  /** An event that is not enabled changes nothing. */
  function Apply(s: State, e: Event): State
    requires Valid(s)
  {
    match e
    case Begin(w, frame) => if w < |s.writers| && s.writers[w].Idle? then BeginAppend(s, w, frame) else s
    case Run(w) => if w < |s.writers| then RunWriter(s, w) else s
    case Ship(g) => Unlinked(s, g)
  }

  lemma GotoValid(s: State, w: nat, pc: Pc)
    requires Valid(s) && w < |s.writers| && PcValid(pc, |s.inodes|)
    ensures Valid(Goto(s, w, pc))
  {
  }

  lemma WithSegmentValid(s: State, generation: nat)
    requires Valid(s)
    ensures Valid(WithSegment(s, generation))
  {
    hide Encodable;
    var s' := WithSegment(s, generation);
    assert forall i :: 0 <= i < |s.inodes| ==> s'.inodes[i] == s.inodes[i];
    forall w | 0 <= w < |s'.writers| ensures PcValid(s'.writers[w], |s'.inodes|) {
      assert PcValid(s.writers[w], |s.inodes|);
    }
  }

  lemma AppendedValid(s: State, inode: nat, frame: Frame)
    requires Valid(s) && inode < |s.inodes| && Encodable(frame)
    ensures Valid(Appended(s, inode, frame))
  {
    hide Encodable, FrameBytes;
    var s' := Appended(s, inode, frame);
    forall w | 0 <= w < |s'.writers| ensures PcValid(s'.writers[w], |s'.inodes|) {
      assert PcValid(s.writers[w], |s.inodes|);
    }
  }

  lemma DroppedValid(s: State, generation: nat, size: nat)
    requires Valid(s)
    ensures Valid(Dropped(s, generation, size)) && Valid(Unlinked(s, generation))
  {
    hide PcValid;
  }

  lemma RunWriterValid(s: State, w: nat)
    requires Valid(s) && w < |s.writers|
    ensures Valid(RunWriter(s, w)) && |RunWriter(s, w).writers| == |s.writers|
    ensures |RunWriter(s, w).inodes| >= |s.inodes|
  {
    hide Encodable, FrameBytes, Newest, Victims, Valid;
    var pc, pc' := s.writers[w], RunWriter(s, w).writers[w];
    assert PcValid(pc, |s.inodes|) && (forall g :: g in s.dir ==> s.dir[g] < |s.inodes|) by { ValidParts(s, w); }
    match pc
    case Create(frame, _) =>
      if 1 in s.dir {
        GotoValid(s, w, pc');
      } else {
        WithSegmentValid(s, 1);
        GotoValid(WithSegment(s, 1), w, pc');
      }
    case Rotate(frame, generation) =>
      var next := NextGeneration(generation);
      if next in s.dir {
        GotoValid(s, w, pc');
      } else {
        WithSegmentValid(s, next);
        GotoValid(WithSegment(s, next), w, pc');
      }
    case RemoveVictim(_, _, victims, size) =>
      DroppedValid(s, victims[0], size);
      GotoValid(Dropped(s, victims[0], size), w, pc');
    case Write(frame, inode) =>
      AppendedValid(s, inode, frame);
      GotoValid(Appended(s, inode, frame), w, Idle);
    case Idle =>
    case _ =>
      GotoValid(s, w, pc');
  }

  lemma ValidParts(s: State, w: nat)
    requires Valid(s) && w < |s.writers|
    ensures PcValid(s.writers[w], |s.inodes|)
    ensures forall g :: g in s.dir ==> s.dir[g] < |s.inodes| && s.inodes[s.dir[g]].generation == g
  {
  }

  lemma ApplyValid(s: State, e: Event)
    requires Valid(s)
    ensures Valid(Apply(s, e)) && |Apply(s, e).writers| == |s.writers|
    ensures |Apply(s, e).inodes| >= |s.inodes|
  {
    hide RunWriter;
    if e.Run? && e.writer < |s.writers| {
      RunWriterValid(s, e.writer);
    }
  }

  /** The state after a run. */
  function Execute(s: State, run: seq<Event>): (r: State)
    requires Valid(s)
    ensures Valid(r) && |r.writers| == |s.writers|
    decreases |run|
  {
    ApplyValid(s, if run == [] then Run(|s.writers|) else run[0]);
    if run == [] then s else Execute(Apply(s, run[0]), run[1..])
  }

  lemma {:induction false} ExecuteAppend(s: State, a: seq<Event>, b: seq<Event>)
    requires Valid(s)
    ensures Execute(s, a + b) == Execute(Execute(s, a), b)
    decreases |a|
  {
    hide Apply, Valid;
    if a == [] {
      assert a + b == b;
    } else {
      ApplyValid(s, a[0]);
      ExecuteAppend(Apply(s, a[0]), a[1..], b);
      assert (a + b)[1..] == a[1..] + b;
    }
  }
}
