/** What the drop counters add up to, over every run: the frames refused and the segments writers
    removed, each removal once; and exactly when a removal counts the bytes it removes. */
module SpoolDrops {
  import opened Bytes
  import opened Frames
  import opened Generations
  import opened SpoolMachine
  import opened SpoolSolo
  import opened SpoolFill
  import opened SpoolReached

  /** The event is an Append that refuses its frame. */
  predicate Refuses(s: State, e: Event) {
    e.Begin? && e.writer < |s.writers| && s.writers[e.writer].Idle? && !Encodable(e.frame)
  }

  /** The event is a writer's Remove that finds its segment. */
  predicate Removes(s: State, e: Event) {
    e.Run? && e.writer < |s.writers| && s.writers[e.writer].RemoveVictim? &&
    s.writers[e.writer].victims != [] && s.writers[e.writer].victims[0] in s.dir
  }

  /** The event is the agent deleting a segment that is there. */
  predicate Ships(s: State, e: Event) {
    e.Ship? && e.generation in s.dir
  }

  /** How many events of the run are such. */
  function Count(s: State, run: seq<Event>, p: (State, Event) -> bool): nat
    requires Valid(s)
    decreases |run|
  {
    if run == [] then 0
    else
      ApplyValid(s, run[0]);
      (if p(s, run[0]) then 1 else 0) + Count(Apply(s, run[0]), run[1..], p)
  }

  function One(b: bool): nat {
    if b then 1 else 0
  }

  lemma DropStep(s: State, e: Event)
    requires Valid(s)
    ensures Apply(s, e).droppedFrames == s.droppedFrames + One(Refuses(s, e)) + One(Removes(s, e))
  {
    hide Encodable, FrameBytes, Newest, Victims;
  }

  lemma CreatedSize(s: State, g: nat)
    requires g !in s.dir
    ensures |WithSegment(s, g).dir| == |s.dir| + 1 && |WithSegment(s, g).inodes| == |s.inodes| + 1
  {
    assert WithSegment(s, g).dir.Keys == s.dir.Keys + {g};
    SameSize(s.dir);
    SameSize(WithSegment(s, g).dir);
  }

  lemma UnlinkedSize(s: State, g: nat)
    ensures |Unlinked(s, g).dir| + One(g in s.dir) == |s.dir|
  {
    assert Unlinked(s, g).dir.Keys == s.dir.Keys - {g};
    SameSize(s.dir);
    SameSize(Unlinked(s, g).dir);
  }

  lemma SameSize(dir: map<nat, nat>)
    ensures |dir| == |dir.Keys|
  {
  }

  lemma SegmentStep(s: State, e: Event)
    requires Valid(s)
    ensures var t := Apply(s, e);
      |t.inodes| + |s.dir| == |s.inodes| + |t.dir| + One(Removes(s, e)) + One(Ships(s, e))
  {
    hide Encodable, FrameBytes, Newest, Victims, WithSegment, Unlinked;
    if e.Ship? {
      UnlinkedSize(s, e.generation);
      assert Unlinked(s, e.generation).inodes == s.inodes by { SameInodes(s, e.generation); }
    } else if e.Run? && e.writer < |s.writers| {
      match s.writers[e.writer]
      case Create(_, _) => if 1 !in s.dir { CreatedSize(s, 1); }
      case Rotate(_, g) => if NextGeneration(g) !in s.dir { CreatedSize(s, NextGeneration(g)); }
      case RemoveVictim(_, _, victims, _) =>
        ValidParts(s, e.writer);
        UnlinkedSize(s, victims[0]);
        SameInodes(s, victims[0]);
      case _ =>
    }
  }

  lemma SameInodes(s: State, g: nat)
    ensures Unlinked(s, g).inodes == s.inodes
  {
  }

  /** Over every run the frame counter grows by the frames refused and the segments writers
      removed; and each segment created is still there, or was shipped, or was counted once. */
  lemma {:induction false} DropsAreCounted(s: State, run: seq<Event>)
    requires Valid(s)
    ensures var t := Execute(s, run);
      t.droppedFrames == s.droppedFrames + Count(s, run, Refuses) + Count(s, run, Removes) &&
      |t.inodes| + |s.dir| == |s.inodes| + |t.dir| + Count(s, run, Removes) + Count(s, run, Ships)
    decreases |run|
  {
    hide Apply, Valid, Refuses, Removes, Ships;
    if run != [] {
      ApplyValid(s, run[0]);
      DropStep(s, run[0]);
      SegmentStep(s, run[0]);
      DropsAreCounted(Apply(s, run[0]), run[1..]);
    }
  }

  /** A frame written to a segment between its Stat and its Remove is lost with it, and its bytes
      are not counted. */
  lemma WrittenBetweenStatAndRemove(s: State, remover: nat, writer: nat)
    requires Valid(s) && remover < |s.writers| && writer < |s.writers|
    requires s.writers[remover].StatVictim? && s.writers[remover].victims != []
    requires s.writers[remover].victims[0] in s.dir
    requires s.writers[writer].Write? && s.writers[writer].inode == s.dir[s.writers[remover].victims[0]]
    ensures var g := s.writers[remover].victims[0];
      var t := Execute(s, [Run(remover), Run(writer)]);
      var u := Execute(s, [Run(remover), Run(writer), Run(remover)]);
      g in t.dir && t.dir[g] < |t.inodes| && g !in u.dir &&
      u.droppedBytes - s.droppedBytes < |t.inodes[t.dir[g]].bytes|
  {
    hide Encodable, FrameBytes, Execute, Valid, Apply;
    var g, size := s.writers[remover].victims[0], SizeOfVictim(s, remover);
    var t0 := Apply(s, Run(remover));
    ApplyValid(s, Run(remover));
    StatsVictim(s, remover, writer);
    var t := Apply(t0, Run(writer));
    ApplyValid(t0, Run(writer));
    WritesToVictim(t0, writer, remover);
    var u := Apply(t, Run(remover));
    ApplyValid(t, Run(remover));
    RemovesVictim(t, remover);
    Sequence(s, [Run(remover), Run(writer), Run(remover)]);
    Sequence(s, [Run(remover), Run(writer)]);
  }

  function SizeOfVictim(s: State, w: nat): nat
    requires Valid(s) && w < |s.writers| && s.writers[w].StatVictim? && s.writers[w].victims != []
  {
    SizeAt(s, s.writers[w].victims[0])
  }

  lemma StatsVictim(s: State, w: nat, other: nat)
    requires Valid(s) && w < |s.writers| && s.writers[w].StatVictim? && s.writers[w].victims != []
    requires other != w && other < |s.writers|
    ensures var t, pc := Apply(s, Run(w)), s.writers[w];
      t == Goto(s, w, RemoveVictim(pc.frame, pc.inode, pc.victims, SizeOfVictim(s, w))) &&
      t.writers[other] == s.writers[other]
  {
    hide Encodable, Valid;
  }

  lemma WritesToVictim(s: State, w: nat, other: nat)
    requires Valid(s) && w < |s.writers| && s.writers[w].Write? && other != w && other < |s.writers|
    ensures var t, i := Apply(s, Run(w)), s.writers[w].inode;
      i < |s.inodes| && t.dir == s.dir && t.droppedBytes == s.droppedBytes && |t.writers| == |s.writers| &&
      t.writers[other] == s.writers[other] && i < |t.inodes| && |t.inodes[i].bytes| > |s.inodes[i].bytes|
  {
    hide Encodable, FrameBytes, Valid;
    ValidParts(s, w);
  }

  lemma RemovesVictim(s: State, w: nat)
    requires Valid(s) && w < |s.writers| && s.writers[w].RemoveVictim? && s.writers[w].victims != []
    requires s.writers[w].victims[0] in s.dir
    ensures var t := Apply(s, Run(w));
      s.writers[w].victims[0] !in t.dir && t.droppedBytes == s.droppedBytes + s.writers[w].size
  {
    hide Encodable, Valid;
  }

  lemma OneEvent(s: State, e: Event)
    requires Valid(s)
    ensures Execute(s, [e]) == Apply(s, e)
  {
    hide Apply, Valid;
    ApplyValid(s, e);
  }

  lemma Sequence(s: State, run: seq<Event>)
    requires Valid(s) && 2 <= |run| <= 3
    ensures Valid(Apply(s, run[0])) && Valid(Apply(Apply(s, run[0]), run[1]))
    ensures Execute(s, run) ==
      var t := Apply(Apply(s, run[0]), run[1]); if |run| == 2 then t else Apply(t, run[2])
  {
    hide Apply, Valid;
    ApplyValid(s, run[0]);
    var t := Apply(s, run[0]);
    ApplyValid(t, run[1]);
    var u := Apply(t, run[1]);
    assert run[1..][0] == run[1];
    if |run| == 3 {
      ApplyValid(u, run[2]);
      assert run[1..][1..] == [run[2]];
      OneEvent(u, run[2]);
    } else {
      assert run[1..] == [run[1]];
      OneEvent(t, run[1]);
    }
  }

  /** The payload bytes of the frame an Append refuses. */
  function RefusedBytes(s: State, e: Event): nat {
    if Refuses(s, e) then |e.frame.payload| else 0
  }

  /** The size a writer's Remove remembers from its Stat. */
  function StattedBytes(s: State, e: Event): nat {
    if Removes(s, e) then s.writers[e.writer].size else 0
  }

  function Total(s: State, run: seq<Event>, p: (State, Event) -> nat): nat
    requires Valid(s)
    decreases |run|
  {
    if run == [] then 0
    else
      ApplyValid(s, run[0]);
      p(s, run[0]) + Total(Apply(s, run[0]), run[1..], p)
  }

  lemma DropBytesStep(s: State, e: Event)
    requires Valid(s)
    ensures Apply(s, e).droppedBytes == s.droppedBytes + RefusedBytes(s, e) + StattedBytes(s, e)
  {
    hide Encodable, FrameBytes, Newest, Victims;
  }

  /** Over every run the byte counter grows by the payloads refused and the sizes seen by the Stat
      before each removal. */
  lemma {:induction false} BytesAreCounted(s: State, run: seq<Event>)
    requires Valid(s)
    ensures Execute(s, run).droppedBytes == s.droppedBytes + Total(s, run, RefusedBytes) + Total(s, run, StattedBytes)
    decreases |run|
  {
    hide Apply, Valid, RefusedBytes, StattedBytes;
    if run != [] {
      ApplyValid(s, run[0]);
      DropBytesStep(s, run[0]);
      BytesAreCounted(Apply(s, run[0]), run[1..]);
    }
  }

  // ----- Exactly when a removal counts what it removes --------------------------------------------

  predicate WritesTo(s: State, e: Event, i: nat) {
    e.Run? && e.writer < |s.writers| && s.writers[e.writer].Write? && s.writers[e.writer].inode == i
  }

  /** No event of the run is a write to inode i. */
  predicate NeverWritesTo(s: State, run: seq<Event>, i: nat)
    requires Valid(s)
    decreases |run|
  {
    run == [] ||
    (!WritesTo(s, run[0], i) && (ApplyValid(s, run[0]); NeverWritesTo(Apply(s, run[0]), run[1..], i)))
  }

  lemma InodeStep(s: State, e: Event, i: nat)
    requires Valid(s) && i < |s.inodes|
    ensures var t := Apply(s, e);
      i < |t.inodes| && |t.inodes[i].bytes| >= |s.inodes[i].bytes| &&
      (|t.inodes[i].bytes| == |s.inodes[i].bytes| <==> !WritesTo(s, e, i))
  {
    hide Encodable, FrameBytes, Newest, Victims, Valid;
    if e.Run? && e.writer < |s.writers| {
      ValidParts(s, e.writer);
    }
  }

  /** Over any run an inode never shrinks, and keeps its size if and only if nobody writes to it. */
  lemma {:induction false} GrowsIffWritten(s: State, run: seq<Event>, i: nat)
    requires Valid(s) && i < |s.inodes|
    ensures var t := Execute(s, run);
      i < |t.inodes| && |t.inodes[i].bytes| >= |s.inodes[i].bytes| &&
      (|t.inodes[i].bytes| == |s.inodes[i].bytes| <==> NeverWritesTo(s, run, i))
    decreases |run|
  {
    hide Apply, Valid, WritesTo;
    if run != [] {
      ApplyValid(s, run[0]);
      InodeStep(s, run[0], i);
      GrowsIffWritten(Apply(s, run[0]), run[1..], i);
    }
  }

  /** The run holds no turn of that writer. */
  predicate NoTurnOf(run: seq<Event>, w: nat) {
    Run(w) !in run
  }

  lemma StallStep(s: State, e: Event, w: nat)
    requires Valid(s) && w < |s.writers| && !s.writers[w].Idle? && e != Run(w)
    ensures |Apply(s, e).writers| == |s.writers| && Apply(s, e).writers[w] == s.writers[w]
  {
    hide Encodable, FrameBytes, Newest, Victims;
    ApplyValid(s, e);
  }

  /** A writer inside Append that gets no turn stays where it is. */
  lemma {:induction false} Stalled(s: State, run: seq<Event>, w: nat)
    requires Valid(s) && w < |s.writers| && !s.writers[w].Idle? && NoTurnOf(run, w)
    ensures Execute(s, run).writers[w] == s.writers[w]
    decreases |run|
  {
    hide Apply, Valid;
    if run != [] {
      ApplyValid(s, run[0]);
      StallStep(s, run[0], w);
      Stalled(Apply(s, run[0]), run[1..], w);
    }
  }

  /** A writer Stats its victim; anything happens but a turn of its own; then it removes what has
      the name. The byte counter grows by the size at the Stat. When the name is still the same
      inode's, that is what was removed if and only if nobody wrote to it in between. */
  lemma CountsWhatItStatted(s: State, w: nat, between: seq<Event>)
    requires Valid(s) && w < |s.writers| && s.writers[w].StatVictim? && s.writers[w].victims != []
    requires s.writers[w].victims[0] in s.dir && NoTurnOf(between, w)
    ensures var g, statted := s.writers[w].victims[0], Apply(s, Run(w));
      Valid(statted) &&
      var t := Execute(statted, between);
      var u := Apply(t, Run(w));
      var i := s.dir[g];
      i < |s.inodes| && i < |t.inodes| &&
      (g in t.dir ==> u.droppedBytes == t.droppedBytes + |s.inodes[i].bytes|) &&
      (g in t.dir && t.dir[g] == i ==>
        (u.droppedBytes == t.droppedBytes + |t.inodes[i].bytes| <==> NeverWritesTo(statted, between, i)))
  {
    hide Encodable, FrameBytes, Execute, Valid, Apply, NeverWritesTo, RunWriter;
    var g, statted := s.writers[w].victims[0], Apply(s, Run(w));
    ApplyValid(s, Run(w));
    StatsOwnVictim(s, w);
    Stalled(statted, between, w);
    var t := Execute(statted, between);
    if g in t.dir { RemovesVictim(t, w); }
    GrowsIffWritten(statted, between, s.dir[g]);
  }

  lemma StatsOwnVictim(s: State, w: nat)
    requires Valid(s) && w < |s.writers| && s.writers[w].StatVictim? && s.writers[w].victims != []
    requires s.writers[w].victims[0] in s.dir
    ensures var t, pc := Apply(s, Run(w)), s.writers[w];
      s.dir[pc.victims[0]] < |s.inodes| && t.inodes == s.inodes && |t.writers| == |s.writers| &&
      t.writers[w] == RemoveVictim(pc.frame, pc.inode, pc.victims, |s.inodes[s.dir[pc.victims[0]]].bytes|)
  {
    hide Encodable;
  }

  // ----- The name re-created in between --------------------------------------------------------------

  /** The agent ships the victim after its Stat, and a writer stalled at the rotation before it
      creates the name again: the removal counts the bytes that were shipped, and removes none. */
  lemma RecreatedBetweenStatAndRemove(s: State, remover: nat, creator: nat)
    requires Valid(s) && remover < |s.writers| && creator < |s.writers|
    requires s.writers[remover].StatVictim? && s.writers[remover].victims != []
    requires s.writers[remover].victims[0] in s.dir
    requires s.writers[creator].Rotate? && NextGeneration(s.writers[creator].generation) == s.writers[remover].victims[0]
    ensures var g := s.writers[remover].victims[0];
      var t := Execute(s, [Run(remover), Ship(g), Run(creator)]);
      var u := Apply(t, Run(remover));
      g in t.dir && t.dir[g] < |t.inodes| && t.inodes[t.dir[g]].bytes == [] && g !in u.dir &&
      s.dir[g] < |s.inodes| && u.droppedBytes == t.droppedBytes + |s.inodes[s.dir[g]].bytes|
  {
    hide Encodable, FrameBytes, Execute, Valid, Apply, RunWriter;
    var g := s.writers[remover].victims[0];
    var statted := Apply(s, Run(remover));
    ApplyValid(s, Run(remover));
    StatsOwnVictim(s, remover);
    StatsVictim(s, remover, creator);
    var between := [Ship(g), Run(creator)];
    ShipsAndCreates(statted, creator, g);
    Stalled(statted, between, remover);
    var t := Execute(statted, between);
    RemovesVictim(t, remover);
    ExecuteAppend(s, [Run(remover)], between);
    OneEvent(s, Run(remover));
    assert [Run(remover)] + between == [Run(remover), Ship(g), Run(creator)];
  }

  lemma ShipsAndCreates(s: State, creator: nat, g: nat)
    requires Valid(s) && creator < |s.writers| && s.writers[creator].Rotate?
    requires NextGeneration(s.writers[creator].generation) == g
    ensures var t := Execute(s, [Ship(g), Run(creator)]);
      g in t.dir && t.dir[g] < |t.inodes| && t.inodes[t.dir[g]].bytes == []
  {
    hide Encodable, Valid, Execute, NextGeneration;
    ApplyValid(s, Ship(g));
    var gone := Apply(s, Ship(g));
    assert gone == Unlinked(s, g) && g !in gone.dir;
    ApplyValid(gone, Run(creator));
    Sequence(s, [Ship(g), Run(creator)]);
  }

  // ----- Runs that get there ------------------------------------------------------------------------

  predicate SameNames(a: map<nat, nat>, b: map<nat, nat>) {
    forall g :: g in a ==> g in b && b[g] == a[g]
  }

  lemma NamesStep(s: State, e: Event)
    requires Valid(s) && !e.Ship?
    ensures Apply(s, e).droppedFrames >= s.droppedFrames
    ensures Apply(s, e).droppedFrames == s.droppedFrames ==> SameNames(s.dir, Apply(s, e).dir)
  {
    hide Encodable, FrameBytes, Newest, Victims;
  }

  /** While nothing is shipped and nothing counted as dropped, every name keeps its inode. */
  lemma {:induction false} RunKeepsNames(s: State, run: seq<Event>)
    requires Valid(s) && NoShips(run)
    ensures Execute(s, run).droppedFrames >= s.droppedFrames
    ensures Execute(s, run).droppedFrames == s.droppedFrames ==> SameNames(s.dir, Execute(s, run).dir)
    decreases |run|
  {
    hide Apply, Valid;
    if run != [] {
      ApplyValid(s, run[0]);
      NamesStep(s, run[0]);
      RunKeepsNames(Apply(s, run[0]), run[1..]);
    }
  }

  /** A writer that finds the newest of four full segments rotates and is about to drop the
      oldest. */
  lemma ReachesVictim(s: State, w: nat, f: Frame, n: nat) returns (run: seq<Event>)
    requires Valid(s) && w < |s.writers| && s.writers[w].Idle? && Encodable(f) && Largest(FrameBytes(f))
    requires View(s) == Grown(FrameBytes(f), n) && 32 <= n < 900 && n % 8 == 0
    ensures OnlyWriter(run, w, f)
    ensures var t := Execute(s, run);
      |t.writers| == |s.writers| && t.writers[w] == StatVictim(f, |s.inodes|, [OldestOf(n)]) && OthersAlike(s, t, w) &&
      SameNames(s.dir, t.dir) && OldestOf(n) in s.dir && |t.inodes| > |s.inodes| && t.inodes[..|s.inodes|] == s.inodes
  {
    hide Encodable, FrameBytes, Valid, View, Grown, Newest, Victims;
    GrownKeys(s, f, n);
    var top := NewestOf(n);
    assert top in s.dir && OldestOf(n) in s.dir;
    ValidParts(s, w);
    var stats := Stats(s, w, f);
    var t := Goto(s, w, Rotate(f, top));
    assert Execute(s, stats) == t;
    GotoValid(s, w, Rotate(f, top));
    var last := Runs(w, 2);
    RotatesToVictim(t, w, f, OldestOf(n), top);
    ExecuteAppend(s, stats, last);
    run := stats + last;
  }

  lemma RotatesToVictim(s: State, w: nat, f: Frame, lo: nat, top: nat)
    requires Valid(s) && w < |s.writers| && s.writers[w] == Rotate(f, top) && Encodable(f)
    requires top == lo + 3 && top < LAST_GENERATION && forall g :: g in s.dir <==> lo <= g <= top
    ensures Execute(s, Runs(w, 2)) ==
      Goto(WithSegment(s, top + 1), w, StatVictim(f, |s.inodes|, [lo]))
  {
    hide Encodable, Victims, Valid, Execute, Turns, RunWriter;
    var t := Goto(WithSegment(s, top + 1), w, ListBudget(f, |s.inodes|));
    Creates(s, w, f, lo, top);
    TurnsAreRuns(s, w, 2);
    TwoTurns(s, w);
    ListsVictim(t, w, lo);
  }

  lemma Creates(s: State, w: nat, f: Frame, lo: nat, top: nat)
    requires Valid(s) && w < |s.writers| && s.writers[w] == Rotate(f, top) && Encodable(f)
    requires top == lo + 3 && top < LAST_GENERATION && forall g :: g in s.dir <==> lo <= g <= top
    ensures var t := Goto(WithSegment(s, top + 1), w, ListBudget(f, |s.inodes|));
      RunWriter(s, w) == t && Valid(t) && Victims(t.dir.Keys) == [lo]
  {
    hide Encodable, Victims, Valid;
    assert NextGeneration(top) == top + 1 && top + 1 !in s.dir;
    var made := WithSegment(s, top + 1);
    WithSegmentValid(s, top + 1);
    GotoValid(made, w, ListBudget(f, |s.inodes|));
    VictimsOfRow(made.dir.Keys, lo, top + 1);
  }

  lemma ListsVictim(s: State, w: nat, lo: nat)
    requires Valid(s) && w < |s.writers| && s.writers[w].ListBudget? && Victims(s.dir.Keys) == [lo]
    ensures RunWriter(s, w) == Goto(s, w, StatVictim(s.writers[w].frame, s.writers[w].inode, [lo]))
  {
    hide Encodable, Victims, Valid;
  }

  /** From an empty directory, with two writers and no agent: writer 0 is about to Stat and remove
      segment 1 while writer 1 is about to write to it. */
  lemma UndercountIsReached() returns (run: seq<Event>)
    ensures NoShips(run)
    ensures var t := Execute(Empty(2), run);
      |t.writers| == 2 && t.writers[0].StatVictim? && t.writers[0].victims == [1] &&
      1 in t.dir && t.writers[1].Write? && t.writers[1].inode == t.dir[1]
  {
    hide Encodable, FrameBytes, Execute, View, Grown, Valid, DroppedFrom, Newest;
    var f := FrameOfSize(MAX_FRAME_BYTES);
    EmptyIsGrown(2, FrameBytes(f));
    var first := GrowsOn(Empty(2), 0, f, 0, 1);
    var s1 := Execute(Empty(2), first);
    GrownKeys(s1, f, 1);
    var stall := Stats(s1, 1, f);
    var s2 := Execute(s1, stall);
    assert 1 in s1.dir;
    ValidParts(s1, 1);
    ViewOfGoto(s1, 1, Write(f, s1.dir[1]));
    var fill := GrowsOn(s2, 0, f, 1, 31);
    FourFit(FrameBytes(f), 1, 31);
    RunKeepsNames(s2, fill);
    var s3 := Execute(s2, fill);
    var last := ReachesVictim(s3, 0, f, 32);
    ExecuteAppend(Empty(2), first, stall);
    ExecuteAppend(Empty(2), first + stall, fill);
    ExecuteAppend(Empty(2), first + stall + fill, last);
    run := first + stall + fill + last;
  }

  /** The same with writer 0 about to Stat and remove segment 2, which is not empty, and writer 1
      about to rotate segment 1. */
  lemma OvercountIsReached() returns (run: seq<Event>)
    ensures NoShips(run)
    ensures var t := Execute(Empty(2), run);
      |t.writers| == 2 && t.writers[0].StatVictim? && t.writers[0].victims == [2] &&
      2 in t.dir && t.dir[2] < |t.inodes| && |t.inodes[t.dir[2]].bytes| == 8 * MAX_FRAME_BYTES &&
      t.writers[1].Rotate? && NextGeneration(t.writers[1].generation) == 2
  {
    hide Encodable, FrameBytes, Execute, View, Grown, Valid, DroppedFrom, Newest;
    var f := FrameOfSize(MAX_FRAME_BYTES);
    EmptyIsGrown(2, FrameBytes(f));
    var stall := StallsAtRotate(f);
    var s1 := Execute(Empty(2), stall);
    var fill := GrowsOn(s1, 0, f, 8, 32);
    var s2 := Execute(s1, fill);
    GrownKeys(s2, f, 40);
    ValidParts(s2, 0);
    var last := ReachesVictim(s2, 0, f, 40);
    ExecuteAppend(Empty(2), stall, fill);
    ExecuteAppend(Empty(2), stall + fill, last);
    var t := Execute(s2, last);
    assert t.inodes[..|s2.inodes|][s2.dir[2]] == s2.inodes[s2.dir[2]];
    run := stall + fill + last;
  }
}
