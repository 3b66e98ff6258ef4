/** Where every accepted frame ends up, over every run: in a segment a reader can list, still
    inside its Append, in a segment the budget removed, in one the agent shipped - or written to
    an inode whose name was gone, which nothing counts. */
module SpoolLosses {
  import opened Bytes
  import opened Frames
  import opened Generations
  import opened SpoolMachine
  import opened SpoolContents
  import opened SpoolSolo
  import opened SpoolReached
  import opened SpoolDrops

  /** The name leads to inode i. */
  predicate Names(dir: map<nat, nat>, generation: nat, i: nat) {
    generation in dir && dir[generation] == i
  }

  /** The frames of the inodes that have a name. */
  function ListedIn(inodes: seq<Inode>, dir: map<nat, nat>): multiset<Frame> {
    if inodes == [] then multiset{}
    else
      var n := |inodes| - 1;
      ListedIn(inodes[..n], dir) +
        (if Names(dir, inodes[n].generation, n) then multiset(inodes[n].frames) else multiset{})
  }

  /** Frames a reader can find, and those still inside an Append. */
  function Present(s: State): multiset<Frame> {
    ListedIn(s.inodes, s.dir) + InFlightIn(s.writers)
  }

  function FramesUnder(s: State, g: nat): multiset<Frame> {
    if g in s.dir && s.dir[g] < |s.inodes| then multiset(s.inodes[s.dir[g]].frames) else multiset{}
  }

  /** The frames of the segment a writer's Remove takes. */
  function RemovedBy(s: State, e: Event): multiset<Frame> {
    if Removes(s, e) then FramesUnder(s, s.writers[e.writer].victims[0]) else multiset{}
  }

  function ShippedBy(s: State, e: Event): multiset<Frame> {
    if Ships(s, e) then FramesUnder(s, e.generation) else multiset{}
  }

  /** The event is a Write through a descriptor whose name is gone or leads elsewhere. */
  predicate WritesUnlinked(s: State, e: Event) {
    e.Run? && e.writer < |s.writers| && s.writers[e.writer].Write? &&
    s.writers[e.writer].inode < |s.inodes| &&
    !Names(s.dir, s.inodes[s.writers[e.writer].inode].generation, s.writers[e.writer].inode)
  }

  function SilentBy(s: State, e: Event): multiset<Frame> {
    if WritesUnlinked(s, e) then multiset{s.writers[e.writer].frame} else multiset{}
  }

  function Sum(s: State, run: seq<Event>, p: (State, Event) -> multiset<Frame>): multiset<Frame>
    requires Valid(s)
    decreases |run|
  {
    if run == [] then multiset{}
    else
      ApplyValid(s, run[0]);
      p(s, run[0]) + Sum(Apply(s, run[0]), run[1..], p)
  }

  // ----- The named inodes ------------------------------------------------------------------------

  lemma Swapped<T>(a: multiset<T>, b: multiset<T>, c: multiset<T>)
    ensures (a + b) + c == (a + c) + b
  {
  }

  lemma {:induction false} ListedWrite(inodes: seq<Inode>, dir: map<nat, nat>, i: nat, file: Inode, frame: Frame)
    requires i < |inodes| && file.frames == inodes[i].frames + [frame] && file.generation == inodes[i].generation
    ensures ListedIn(inodes[i := file], dir) ==
      ListedIn(inodes, dir) + if Names(dir, inodes[i].generation, i) then multiset{frame} else multiset{}
  {
    hide Names;
    var n := |inodes| - 1;
    if i == n {
      assert inodes[i := file][..n] == inodes[..n];
    } else {
      assert inodes[i := file][..n] == inodes[..n][i := file];
      ListedWrite(inodes[..n], dir, i, file, frame);
      Swapped(ListedIn(inodes[..n], dir),
        if Names(dir, inodes[i].generation, i) then multiset{frame} else multiset{},
        if Names(dir, inodes[n].generation, n) then multiset(inodes[n].frames) else multiset{});
    }
  }

  lemma {:induction false} SameListed(inodes: seq<Inode>, a: map<nat, nat>, b: map<nat, nat>)
    requires forall i :: 0 <= i < |inodes| ==> (Names(a, inodes[i].generation, i) <==> Names(b, inodes[i].generation, i))
    ensures ListedIn(inodes, a) == ListedIn(inodes, b)
  {
    hide Names;
    if inodes != [] {
      SameListed(inodes[..|inodes| - 1], a, b);
    }
  }

  lemma ListedCreate(s: State, g: nat)
    requires g !in s.dir
    ensures ListedIn(WithSegment(s, g).inodes, WithSegment(s, g).dir) == ListedIn(s.inodes, s.dir)
  {
    var t := WithSegment(s, g);
    assert t.inodes[..|s.inodes|] == s.inodes;
    SameListed(s.inodes, s.dir, t.dir);
  }

  lemma {:induction false} ListedUnlink(inodes: seq<Inode>, dir: map<nat, nat>, g: nat)
    requires g in dir && dir[g] < |inodes| && inodes[dir[g]].generation == g
    ensures ListedIn(inodes, dir - {g}) + multiset(inodes[dir[g]].frames) == ListedIn(inodes, dir)
  {
    var n, init := |inodes| - 1, inodes[..|inodes| - 1];
    if dir[g] == n {
      SameListed(init, dir - {g}, dir);
    } else {
      ListedUnlink(init, dir, g);
    }
  }

  // ----- Each step ----------------------------------------------------------------------------------

  lemma PresentWrite(s: State, w: nat)
    requires Valid(s) && w < |s.writers| && s.writers[w].Write?
    ensures Present(RunWriter(s, w)) + SilentBy(s, Run(w)) == Present(s)
  {
    hide Valid, Encodable, FrameBytes, ListedIn, InFlightIn, Names;
    ValidParts(s, w);
    var frame, i := s.writers[w].frame, s.writers[w].inode;
    var t := RunWriter(s, w);
    ListedWrite(s.inodes, s.dir, i, t.inodes[i], frame);
    InFlightUpdate(s.writers, w, Idle);
    assert t.writers == s.writers[w := Idle];
    assert InFlightIn(t.writers) + multiset{frame} == InFlightIn(s.writers);
  }

  lemma SameFrame(s: State, w: nat)
    requires Valid(s) && w < |s.writers| && !s.writers[w].Write?
    ensures InFlightIn(RunWriter(s, w).writers) == InFlightIn(s.writers)
  {
    hide Valid, Encodable, FrameBytes, Victims, Newest, InFlightIn;
    var t := RunWriter(s, w);
    assert t.writers == s.writers[w := t.writers[w]] && FrameOf(t.writers[w]) == FrameOf(s.writers[w]);
    InFlightUpdate(s.writers, w, t.writers[w]);
    Cancel(InFlightIn(t.writers), InFlightIn(s.writers), FrameOf(s.writers[w]));
  }

  lemma PresentRun(s: State, w: nat)
    requires Valid(s) && w < |s.writers| && !s.writers[w].Write?
    ensures Present(RunWriter(s, w)) + RemovedBy(s, Run(w)) == Present(s)
  {
    hide Encodable, FrameBytes, Victims, Newest, ListedIn, InFlightIn, WithSegment, Unlinked, NextGeneration;
    SameFrame(s, w);
    match s.writers[w]
    case Create(_, _) => if 1 !in s.dir { ListedCreate(s, 1); }
    case Rotate(_, g) => if NextGeneration(g) !in s.dir { ListedCreate(s, NextGeneration(g)); }
    case RemoveVictim(_, _, victims, _) =>
      ValidParts(s, w);
      if victims[0] in s.dir { PresentUnlink(s, victims[0]); }
    case _ =>
  }

  lemma PresentUnlink(s: State, g: nat)
    requires Valid(s) && g in s.dir
    ensures Unlinked(s, g).inodes == s.inodes
    ensures ListedIn(s.inodes, Unlinked(s, g).dir) + FramesUnder(s, g) == ListedIn(s.inodes, s.dir)
  {
    hide ListedIn;
    ListedUnlink(s.inodes, s.dir, g);
  }

  lemma PresentStep(s: State, e: Event)
    requires Valid(s)
    ensures Present(Apply(s, e)) + RemovedBy(s, e) + ShippedBy(s, e) + SilentBy(s, e) == Present(s) + AcceptedBy(s, e)
  {
    hide Encodable, Present, RunWriter, FramesUnder, Valid, BeginAppend, Unlinked;
    match e
    case Run(w) =>
      if w < |s.writers| {
        if s.writers[w].Write? { PresentWrite(s, w); } else { PresentRun(s, w); }
      }
    case Begin(w, frame) => PresentBegin(s, w, frame);
    case Ship(g) => PresentShip(s, g);
  }

  lemma PresentBegin(s: State, w: nat, frame: Frame)
    requires Valid(s)
    ensures Present(Apply(s, Begin(w, frame))) == Present(s) + AcceptedBy(s, Begin(w, frame))
  {
    hide Encodable, ListedIn, InFlightIn, Valid;
    if w < |s.writers| && s.writers[w].Idle? && Encodable(frame) {
      InFlightUpdate(s.writers, w, Scan(frame, None));
      assert InFlightIn(s.writers[w := Scan(frame, None)]) == InFlightIn(s.writers) + multiset{frame};
    }
  }

  lemma PresentShip(s: State, g: nat)
    requires Valid(s)
    ensures Present(Unlinked(s, g)) + ShippedBy(s, Ship(g)) == Present(s)
  {
    hide ListedIn, InFlightIn, FramesUnder, Valid;
    if g in s.dir {
      PresentUnlink(s, g);
      Swapped(ListedIn(s.inodes, Unlinked(s, g).dir), FramesUnder(s, g), InFlightIn(s.writers));
    } else {
      assert Unlinked(s, g).dir == s.dir;
    }
  }

  /** Over every run: what is present at the end, what writers removed, what the agent shipped and
      what was written to unlinked inodes is, together, what was present at the start and what
      Append accepted - each frame as often. */
  lemma {:induction false} EveryFrameAccounted(s: State, run: seq<Event>)
    requires Valid(s)
    ensures Present(Execute(s, run)) + Sum(s, run, RemovedBy) + Sum(s, run, ShippedBy) + Sum(s, run, SilentBy) ==
      Present(s) + Accepted(s, run)
    decreases |run|
  {
    hide Apply, Valid, Present, AcceptedBy, RemovedBy, ShippedBy, SilentBy;
    if run != [] {
      ApplyValid(s, run[0]);
      PresentStep(s, run[0]);
      var t := Apply(s, run[0]);
      EveryFrameAccounted(t, run[1..]);
      Regrouped(Present(Execute(s, run)), Present(t), Present(s), Accepted(t, run[1..]), AcceptedBy(s, run[0]),
        RemovedBy(s, run[0]), Sum(t, run[1..], RemovedBy), ShippedBy(s, run[0]), Sum(t, run[1..], ShippedBy),
        SilentBy(s, run[0]), Sum(t, run[1..], SilentBy));
    }
  }

  lemma Regrouped<T>(
    last: multiset<T>, next: multiset<T>, first: multiset<T>, later: multiset<T>, now: multiset<T>,
    r: multiset<T>, rs: multiset<T>, h: multiset<T>, hs: multiset<T>, q: multiset<T>, qs: multiset<T>)
    requires next + r + h + q == first + now && last + rs + hs + qs == next + later
    ensures last + (r + rs) + (h + hs) + (q + qs) == first + (now + later)
  {
    assert last + (r + rs) + (h + hs) + (q + qs) == (last + rs + hs + qs) + r + h + q;
    assert (next + later) + r + h + q == (next + r + h + q) + later;
  }

  // ----- A silent loss ------------------------------------------------------------------------------

  /** A Write returns to the caller and moves no counter, whatever becomes of the frame: it changes
      what a reader can list if and only if the descriptor's name still leads to its inode. */
  lemma WriteShowsIfNamed(s: State, w: nat)
    requires Valid(s) && w < |s.writers| && s.writers[w].Write?
    ensures var t := Apply(s, Run(w));
      Valid(t) && |t.writers| == |s.writers| && t.writers[w].Idle? &&
      t.droppedFrames == s.droppedFrames && t.droppedBytes == s.droppedBytes &&
      (View(t) == View(s) <==> WritesUnlinked(s, Run(w)))
  {
    hide Encodable, FrameBytes;
    ApplyValid(s, Run(w));
    ValidParts(s, w);
    var i := s.writers[w].inode;
    var g := s.inodes[i].generation;
    var t := Apply(s, Run(w));
    assert t.dir == s.dir && forall j :: 0 <= j < |s.inodes| && j != i ==> t.inodes[j] == s.inodes[j];
    if Names(s.dir, g, i) {
      assert |View(t)[g]| > |View(s)[g]|;
    } else {
      assert View(t) == View(s);
    }
  }

  /** From an empty directory, with two writers and no agent: writer 1's Write is to a segment that
      writer 0 removed in the meantime. */
  lemma SilentLossIsReached() returns (run: seq<Event>)
    ensures NoShips(run) && WritesUnlinked(Execute(Empty(2), run), Run(1))
  {
    hide Encodable, FrameBytes, Execute, Valid;
    EmptyIsGrown(2, []);
    var before := UndercountIsReached();
    var s := Execute(Empty(2), before);
    var remove := [Run(0), Run(0)];
    RemovesUnder(s);
    ExecuteAppend(Empty(2), before, remove);
    run := before + remove;
  }

  lemma RemovesUnder(s: State)
    requires Valid(s) && |s.writers| == 2 && s.writers[0].StatVictim? && s.writers[0].victims == [1]
    requires 1 in s.dir && s.writers[1].Write? && s.writers[1].inode == s.dir[1]
    ensures WritesUnlinked(Execute(s, [Run(0), Run(0)]), Run(1))
  {
    hide Encodable, Execute;
    var t := Apply(s, Run(0));
    ApplyValid(s, Run(0));
    StatsOwnVictim(s, 0);
    StatsVictim(s, 0, 1);
    Sequence(s, [Run(0), Run(0)]);
    ValidParts(s, 1);
    assert t.writers[1] == s.writers[1] && t.dir == s.dir;
  }
}
