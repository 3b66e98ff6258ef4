/** One writer undisturbed: the step machine's Append, run to its end while nobody else moves,
    does exactly what the sequential log's Append does - to the directory and to the drop
    counters. */
module SpoolSolo {
  import opened Bytes
  import opened Frames
  import opened Generations
  import M = SpoolMachine
  import L = SegmentLog

  /** What the names of a state hold. */
  function View(s: M.State): L.Dir
    requires M.Valid(s)
  {
    map g | g in s.dir :: s.inodes[s.dir[g]].bytes
  }

  /** n turns of one writer. */
  function Turns(s: M.State, w: nat, n: nat): (t: M.State)
    requires M.Valid(s) && w < |s.writers|
    ensures M.Valid(t) && |t.writers| == |s.writers|
    decreases n
  {
    M.RunWriterValid(s, w);
    if n == 0 then s else Turns(M.RunWriter(s, w), w, n - 1)
  }

  predicate Done(s: M.State, w: nat, dir: L.Dir, droppedFrames: nat, droppedBytes: nat)
    requires M.Valid(s) && w < |s.writers|
  {
    s.writers[w].Idle? && View(s) == dir && s.droppedFrames == droppedFrames && s.droppedBytes == droppedBytes
  }

  /** Left alone, the writer returns from Append in such a state. */
  ghost predicate Finishes(s: M.State, w: nat, dir: L.Dir, droppedFrames: nat, droppedBytes: nat)
    requires M.Valid(s) && w < |s.writers|
  {
    exists n: nat :: Done(Turns(s, w, n), w, dir, droppedFrames, droppedBytes)
  }

  lemma OneTurn(s: M.State, w: nat, t: M.State, dir: L.Dir, droppedFrames: nat, droppedBytes: nat)
    requires M.Valid(s) && w < |s.writers|
    requires t == M.RunWriter(s, w) && M.Valid(t) && |t.writers| == |s.writers|
    requires Finishes(t, w, dir, droppedFrames, droppedBytes)
    ensures Finishes(s, w, dir, droppedFrames, droppedBytes)
  {
    hide M.RunWriter, M.Valid, Done;
    var n: nat :| Done(Turns(t, w, n), w, dir, droppedFrames, droppedBytes);
    assert Turns(s, w, n + 1) == Turns(t, w, n);
  }

  /** The descriptor's name, if it is in the directory, still names this inode. */
  predicate Linked(s: M.State, inode: nat) {
    inode < |s.inodes| &&
    (s.inodes[inode].generation in s.dir ==> s.dir[s.inodes[inode].generation] == inode)
  }

  lemma Write(s: M.State, w: nat)
    requires M.Valid(s) && w < |s.writers| && s.writers[w].Write? && Linked(s, s.writers[w].inode)
    ensures var pc := s.writers[w];
      M.PcValid(pc, |s.inodes|) &&
      Finishes(s, w, L.Written(View(s), s.inodes[pc.inode].generation, FrameBytes(pc.frame)), s.droppedFrames, s.droppedBytes)
  {
    hide Encodable, FrameBytes;
    M.RunWriterValid(s, w);
    var pc := s.writers[w];
    assert M.PcValid(pc, |s.inodes|);
    var t := M.RunWriter(s, w);
    var dir := L.Written(View(s), s.inodes[pc.inode].generation, FrameBytes(pc.frame));
    assert View(t) == dir;
    assert Turns(t, w, 0) == t;
    assert Done(Turns(t, w, 0), w, dir, s.droppedFrames, s.droppedBytes);
    OneTurn(s, w, t, dir, s.droppedFrames, s.droppedBytes);
  }

  lemma ViewOfGoto(s: M.State, w: nat, pc: M.Pc)
    requires M.Valid(s) && w < |s.writers| && M.PcValid(pc, |s.inodes|)
    ensures M.Valid(M.Goto(s, w, pc)) && View(M.Goto(s, w, pc)) == View(s)
    ensures |M.Goto(s, w, pc).writers| == |s.writers|
  {
    M.GotoValid(s, w, pc);
  }

  lemma ViewOfDropped(s: M.State, g: nat, size: nat)
    requires M.Valid(s) && g in s.dir
    ensures M.Valid(M.Dropped(s, g, size)) && View(M.Dropped(s, g, size)) == View(s) - {g}
    ensures forall i :: Linked(s, i) ==> Linked(M.Dropped(s, g, size), i)
  {
    M.DroppedValid(s, g, size);
  }

  lemma WithoutMore(dir: L.Dir, g: nat, rest: seq<nat>)
    requires g in dir && g !in rest && forall x :: x in rest ==> x in dir
    ensures L.Without(dir, [g] + rest) == L.Without(dir - {g}, rest)
    ensures L.TotalSize(dir, [g] + rest) == |dir[g]| + L.TotalSize(dir - {g}, rest)
  {
    assert ([g] + rest)[1..] == rest;
    SameSizes(dir, dir - {g}, rest);
  }

  lemma {:induction false} SameSizes(a: L.Dir, b: L.Dir, generations: seq<nat>)
    requires forall x :: x in generations ==> x in a && x in b && a[x] == b[x]
    ensures L.TotalSize(a, generations) == L.TotalSize(b, generations)
  {
    if generations != [] {
      SameSizes(a, b, generations[1..]);
    }
  }

  /** What is left to do once the budget is enforced against `victims`. */
  ghost predicate BudgetFinishes(s: M.State, w: nat, victims: seq<nat>)
    requires M.Valid(s) && w < |s.writers|
    requires (s.writers[w].StatVictim? || s.writers[w].Write?) && M.PcValid(s.writers[w], |s.inodes|)
    requires forall g :: g in victims ==> g in s.dir
  {
    var pc := s.writers[w];
    Finishes(s, w, L.Written(L.Without(View(s), victims), s.inodes[pc.inode].generation, FrameBytes(pc.frame)),
             s.droppedFrames + |victims|, s.droppedBytes + L.TotalSize(View(s), victims))
  }

  lemma {:induction false} Budget(s: M.State, w: nat, frame: Frame, inode: nat, victims: seq<nat>)
    requires M.Valid(s) && w < |s.writers| && s.writers[w] == M.NextVictim(frame, inode, victims)
    requires Encodable(frame) && Linked(s, inode)
    requires Distinct(victims) && forall g :: g in victims ==> g in s.dir
    ensures M.PcValid(s.writers[w], |s.inodes|) && BudgetFinishes(s, w, victims)
    decreases |victims|
  {
    hide Encodable, FrameBytes, Finishes, M.Valid, View, L.Without, L.TotalSize, L.Written, M.RunWriter;
    assert M.PcValid(s.writers[w], |s.inodes|);
    if victims == [] {
      WithoutNone(View(s));
      Write(s, w);
    } else {
      var g, rest := victims[0], victims[1..];
      var u := OneVictim(s, w, frame, inode, victims);
      assert victims == [g] + rest;
      Budget(u, w, frame, inode, rest);
      ViewKeys(s);
      WithoutMore(View(s), g, rest);
      OneTurn(M.RunWriter(s, w), w, u,
              L.Written(L.Without(View(s), victims), s.inodes[inode].generation, FrameBytes(frame)),
              s.droppedFrames + |victims|, s.droppedBytes + L.TotalSize(View(s), victims));
      OneTurn(s, w, M.RunWriter(s, w),
              L.Written(L.Without(View(s), victims), s.inodes[inode].generation, FrameBytes(frame)),
              s.droppedFrames + |victims|, s.droppedBytes + L.TotalSize(View(s), victims));
    }
  }

  lemma WithoutNone(dir: L.Dir)
    ensures L.Without(dir, []) == dir && L.TotalSize(dir, []) == 0
  {
  }

  /** The first victim statted and removed. */
  lemma OneVictim(s: M.State, w: nat, frame: Frame, inode: nat, victims: seq<nat>) returns (u: M.State)
    requires M.Valid(s) && w < |s.writers| && victims != []
    requires s.writers[w] == M.StatVictim(frame, inode, victims)
    requires Encodable(frame) && Linked(s, inode) && victims[0] in s.dir
    ensures var t := M.RunWriter(s, w);
      M.Valid(t) && |t.writers| == |s.writers| && u == M.RunWriter(t, w) && M.Valid(u) && |u.writers| == |s.writers|
    ensures u.writers[w] == M.NextVictim(frame, inode, victims[1..]) && Linked(u, inode)
    ensures View(u) == View(s) - {victims[0]} && u.dir == s.dir - {victims[0]} && u.inodes == s.inodes
    ensures u.droppedFrames == s.droppedFrames + 1 && u.droppedBytes == s.droppedBytes + |View(s)[victims[0]]|
  {
    hide Encodable, FrameBytes, M.Valid;
    var g, size := victims[0], M.SizeAt(s, victims[0]);
    var t := M.Goto(s, w, M.RemoveVictim(frame, inode, victims, size));
    ViewOfGoto(s, w, M.RemoveVictim(frame, inode, victims, size));
    ViewOfDropped(t, g, size);
    var d := M.Dropped(t, g, size);
    u := M.Goto(d, w, M.NextVictim(frame, inode, victims[1..]));
    ViewOfGoto(d, w, M.NextVictim(frame, inode, victims[1..]));
  }

  lemma ViewOfCreated(s: M.State, g: nat)
    requires M.Valid(s) && g !in s.dir
    ensures var t := M.WithSegment(s, g);
      M.Valid(t) && View(t) == View(s)[g := []] && Linked(t, |s.inodes|) && |t.writers| == |s.writers|
  {
    M.WithSegmentValid(s, g);
  }

  lemma ViewKeys(s: M.State)
    requires M.Valid(s)
    ensures View(s).Keys == s.dir.Keys
    ensures forall g :: g in s.dir ==> Linked(s, s.dir[g]) && s.inodes[s.dir[g]].generation == g && |View(s)[g]| == |s.inodes[s.dir[g]].bytes|
  {
  }

  /** The writer that finds the next generation taken writes to the newest segment unstatted. */
  lemma Loser(s: M.State, w: nat, frame: Frame, active: nat)
    requires M.Valid(s) && w < |s.writers| && s.writers[w] == M.Scan(frame, Some(active))
    requires Encodable(frame) && s.dir.Keys != {}
    ensures Finishes(s, w, L.Written(View(s), Newest(s.dir.Keys), FrameBytes(frame)), s.droppedFrames, s.droppedBytes)
  {
    hide Encodable, FrameBytes, Finishes, M.Valid, Newest;
    var g := Newest(s.dir.Keys);
    ViewKeys(s);
    var dir := L.Written(View(s), g, FrameBytes(frame));
    var open := M.Open(frame, Some(active), g);
    var t := M.Goto(s, w, open);
    ViewOfGoto(s, w, open);
    var write := M.Write(frame, s.dir[g]);
    var u := M.Goto(t, w, write);
    ViewOfGoto(t, w, write);
    Write(u, w);
    OneTurn(t, w, u, dir, s.droppedFrames, s.droppedBytes);
    OneTurn(s, w, t, dir, s.droppedFrames, s.droppedBytes);
  }

  lemma Winner(s: M.State, w: nat, frame: Frame, active: nat)
    requires M.Valid(s) && w < |s.writers| && s.writers[w] == M.Rotate(frame, active) && Encodable(frame)
    requires M.NextGeneration(active) !in s.dir
    ensures var next := M.NextGeneration(active);
      var over := View(s)[next := []];
      Finishes(s, w, L.Written(L.Budgeted(over), next, FrameBytes(frame)),
               s.droppedFrames + |L.Victims(over)|, s.droppedBytes + L.TotalSize(over, L.Victims(over)))
  {
    hide Encodable, FrameBytes, Finishes, M.Valid, M.Victims;
    var next := M.NextGeneration(active);
    var made := M.WithSegment(s, next);
    ViewOfCreated(s, next);
    ViewKeys(made);
    var inode := |s.inodes|;
    var t := M.Goto(made, w, M.ListBudget(frame, inode));
    ViewOfGoto(made, w, M.ListBudget(frame, inode));
    var victims := M.Victims(made.dir.Keys);
    L.VictimsDistinct(made.dir.Keys);
    var u := M.Goto(t, w, M.NextVictim(frame, inode, victims));
    ViewOfGoto(t, w, M.NextVictim(frame, inode, victims));
    Budget(u, w, frame, inode, victims);
    var over := View(s)[next := []];
    var dir := L.Written(L.Budgeted(over), next, FrameBytes(frame));
    var frames, bytes := s.droppedFrames + |victims|, s.droppedBytes + L.TotalSize(over, victims);
    OneTurn(t, w, u, dir, frames, bytes);
    OneTurn(s, w, t, dir, frames, bytes);
  }

  /** The outcome of the sequential log's Append. */
  ghost predicate FinishesAs(s: M.State, w: nat, before: L.Dir, frame: Frame)
    requires M.Valid(s) && w < |s.writers| && Encodable(frame)
  {
    Finishes(s, w, L.Appended(before, FrameBytes(frame)),
             s.droppedFrames + L.DroppedSegments(before), s.droppedBytes + L.DroppedSize(before))
  }

  lemma Statted(s: M.State, w: nat, frame: Frame, g: nat, before: L.Dir)
    requires M.Valid(s) && w < |s.writers| && Encodable(frame)
    requires g in s.dir && g == Newest(s.dir.Keys) && s.writers[w] == M.Stat(frame, g, s.dir[g])
    requires View(s) == L.Opened(before)
    ensures FinishesAs(s, w, before, frame)
  {
    hide Encodable, FrameBytes, Finishes, M.Valid, Newest, L.Budgeted, L.Victims, L.TotalSize, L.Opened;
    ViewKeys(s);
    var dir := L.Appended(before, FrameBytes(frame));
    var frames, bytes := s.droppedFrames + L.DroppedSegments(before), s.droppedBytes + L.DroppedSize(before);
    if |View(s)[g]| >= M.SEGMENT_MAX_BYTES {
      var t := M.Goto(s, w, M.Rotate(frame, g));
      ViewOfGoto(s, w, M.Rotate(frame, g));
      if M.NextGeneration(g) in s.dir {
        var u := M.Goto(t, w, M.Scan(frame, Some(g)));
        ViewOfGoto(t, w, M.Scan(frame, Some(g)));
        Loser(u, w, frame, g);
        OneTurn(t, w, u, dir, frames, bytes);
      } else {
        Winner(t, w, frame, g);
      }
      OneTurn(s, w, t, dir, frames, bytes);
    } else {
      var t := M.Goto(s, w, M.Write(frame, s.dir[g]));
      ViewOfGoto(s, w, M.Write(frame, s.dir[g]));
      Write(t, w);
      OneTurn(s, w, t, dir, frames, bytes);
    }
  }

  lemma Scanned(s: M.State, w: nat, frame: Frame)
    requires M.Valid(s) && w < |s.writers| && Encodable(frame) && s.writers[w] == M.Scan(frame, None)
    ensures FinishesAs(s, w, View(s), frame)
  {
    hide Encodable, FrameBytes, Finishes, M.Valid, Newest, L.Appended, L.DroppedSegments, L.DroppedSize;
    ViewKeys(s);
    var dir := L.Appended(View(s), FrameBytes(frame));
    var frames, bytes := s.droppedFrames + L.DroppedSegments(View(s)), s.droppedBytes + L.DroppedSize(View(s));
    if s.dir.Keys == {} {
      var t := M.Goto(s, w, M.Create(frame, None));
      ViewOfGoto(s, w, M.Create(frame, None));
      ViewOfCreated(t, 1);
      var made := M.WithSegment(t, 1);
      var stat := M.Stat(frame, 1, |s.inodes|);
      var u := M.Goto(made, w, stat);
      ViewOfGoto(made, w, stat);
      assert View(s) == map[];
      NewestIs(u.dir.Keys, 1);
      Statted(u, w, frame, 1, View(s));
      OneTurn(t, w, u, dir, frames, bytes);
      OneTurn(s, w, t, dir, frames, bytes);
    } else {
      var g := Newest(s.dir.Keys);
      var t := M.Goto(s, w, M.Open(frame, None, g));
      ViewOfGoto(s, w, M.Open(frame, None, g));
      var stat := M.Stat(frame, g, s.dir[g]);
      var u := M.Goto(t, w, stat);
      ViewOfGoto(t, w, stat);
      Statted(u, w, frame, g, View(s));
      OneTurn(t, w, u, dir, frames, bytes);
      OneTurn(s, w, t, dir, frames, bytes);
    }
  }

  function Runs(w: nat, n: nat): seq<M.Event> {
    seq(n, _ => M.Run(w))
  }

  lemma {:induction false} TurnsAreRuns(s: M.State, w: nat, n: nat)
    requires M.Valid(s) && w < |s.writers|
    ensures M.Execute(s, Runs(w, n)) == Turns(s, w, n)
    decreases n
  {
    hide M.RunWriter, M.Valid;
    if n > 0 {
      M.ApplyValid(s, M.Run(w));
      TurnsAreRuns(M.Apply(s, M.Run(w)), w, n - 1);
      assert Runs(w, n)[1..] == Runs(w, n - 1);
    }
  }

  lemma BegunRuns(s: M.State, e: M.Event, w: nat, n: nat)
    requires M.Valid(s) && w < |s.writers|
    ensures M.Valid(M.Apply(s, e)) && |M.Apply(s, e).writers| == |s.writers|
    ensures M.Execute(s, [e] + Runs(w, n)) == Turns(M.Apply(s, e), w, n)
  {
    hide M.RunWriter, M.Valid, M.Apply;
    M.ApplyValid(s, e);
    TurnsAreRuns(M.Apply(s, e), w, n);
    assert ([e] + Runs(w, n))[1..] == Runs(w, n);
  }

  /** An Append begun and left alone ends with the directory and the drop counters of the
      sequential log's Append. */
  lemma UndisturbedAppend(s: M.State, w: nat, frame: Frame)
    requires M.Valid(s) && w < |s.writers| && s.writers[w].Idle? && Encodable(frame)
    ensures exists n: nat :: Done(
      M.Execute(s, [M.Begin(w, frame)] + Runs(w, n)), w, L.Appended(View(s), FrameBytes(frame)),
      s.droppedFrames + L.DroppedSegments(View(s)), s.droppedBytes + L.DroppedSize(View(s)))
  {
    hide Encodable, FrameBytes, M.Valid, M.RunWriter, L.Appended, L.DroppedSegments, L.DroppedSize, Done;
    var begin := M.Begin(w, frame);
    M.ApplyValid(s, begin);
    var t := M.Apply(s, begin);
    ViewOfGoto(s, w, M.Scan(frame, None));
    Scanned(t, w, frame);
    var n: nat :| Done(Turns(t, w, n), w, L.Appended(View(s), FrameBytes(frame)),
                       s.droppedFrames + L.DroppedSegments(View(s)), s.droppedBytes + L.DroppedSize(View(s)));
    BegunRuns(s, begin, w, n);
  }

  // ----- Many appends in a row -----------------------------------------------------------------

  function AppendedTimes(dir: L.Dir, frame: Text, n: nat): L.Dir
    decreases n
  {
    if n == 0 then dir else AppendedTimes(L.Appended(dir, frame), frame, n - 1)
  }

  function DroppedTimes(dir: L.Dir, frame: Text, n: nat): nat
    decreases n
  {
    if n == 0 then 0 else L.DroppedSegments(dir) + DroppedTimes(L.Appended(dir, frame), frame, n - 1)
  }

  /** Every event is the one writer's, appending that frame. */
  predicate OnlyWriter(run: seq<M.Event>, w: nat, frame: Frame) {
    forall e :: e in run ==> e == M.Begin(w, frame) || e == M.Run(w)
  }

  predicate OthersAlike(s: M.State, t: M.State, w: nat) {
    |t.writers| == |s.writers| && forall v :: 0 <= v < |s.writers| && v != w ==> t.writers[v] == s.writers[v]
  }

  lemma {:induction false} TurnsSpareOthers(s: M.State, w: nat, n: nat)
    requires M.Valid(s) && w < |s.writers|
    ensures OthersAlike(s, Turns(s, w, n), w)
    decreases n
  {
    if n > 0 {
      OneTurnSparesOthers(s, w);
      M.RunWriterValid(s, w);
      hide M.RunWriter, M.Valid;
      TurnsSpareOthers(M.RunWriter(s, w), w, n - 1);
    }
  }

  lemma OneTurnSparesOthers(s: M.State, w: nat)
    requires M.Valid(s) && w < |s.writers|
    ensures OthersAlike(s, M.RunWriter(s, w), w)
  {
    hide Encodable, FrameBytes, Newest, M.Victims;
    M.RunWriterValid(s, w);
  }

  /** Left alone, a writer finishes what it is at. */
  lemma RunToIdle(s: M.State, w: nat, frame: Frame, dir: L.Dir, droppedFrames: nat, droppedBytes: nat)
    returns (run: seq<M.Event>)
    requires M.Valid(s) && w < |s.writers| && Finishes(s, w, dir, droppedFrames, droppedBytes)
    ensures OnlyWriter(run, w, frame)
    ensures var t := M.Execute(s, run);
      w < |t.writers| && t.writers[w].Idle? && View(t) == dir && OthersAlike(s, t, w)
  {
    hide M.Valid, M.RunWriter, View;
    var n: nat :| Done(Turns(s, w, n), w, dir, droppedFrames, droppedBytes);
    TurnsAreRuns(s, w, n);
    TurnsSpareOthers(s, w, n);
    run := Runs(w, n);
  }

  lemma OneAppend(s: M.State, w: nat, frame: Frame) returns (run: seq<M.Event>)
    requires M.Valid(s) && w < |s.writers| && s.writers[w].Idle? && Encodable(frame)
    ensures OnlyWriter(run, w, frame)
    ensures var t := M.Execute(s, run);
      w < |t.writers| && t.writers[w].Idle? && View(t) == L.Appended(View(s), FrameBytes(frame)) &&
      t.droppedFrames == s.droppedFrames + L.DroppedSegments(View(s)) && OthersAlike(s, t, w)
  {
    hide Encodable, FrameBytes, M.Valid, M.RunWriter, View, L.Appended, L.DroppedSegments, L.DroppedSize, Done;
    UndisturbedAppend(s, w, frame);
    var n: nat :| Done(
      M.Execute(s, [M.Begin(w, frame)] + Runs(w, n)), w, L.Appended(View(s), FrameBytes(frame)),
      s.droppedFrames + L.DroppedSegments(View(s)), s.droppedBytes + L.DroppedSize(View(s)));
    run := [M.Begin(w, frame)] + Runs(w, n);
    BegunRuns(s, M.Begin(w, frame), w, n);
    TurnsSpareOthers(M.Apply(s, M.Begin(w, frame)), w, n);
    DoneMeans(M.Execute(s, run), w, L.Appended(View(s), FrameBytes(frame)),
      s.droppedFrames + L.DroppedSegments(View(s)), s.droppedBytes + L.DroppedSize(View(s)));
  }

  lemma DoneMeans(s: M.State, w: nat, dir: L.Dir, droppedFrames: nat, droppedBytes: nat)
    requires M.Valid(s) && w < |s.writers| && Done(s, w, dir, droppedFrames, droppedBytes)
    ensures s.writers[w].Idle? && View(s) == dir && s.droppedFrames == droppedFrames
  {
  }

  /** n appends of one frame by one writer, left alone, are n of the sequential log's. */
  lemma {:induction false} RepeatedAppends(s: M.State, w: nat, frame: Frame, n: nat) returns (run: seq<M.Event>)
    requires M.Valid(s) && w < |s.writers| && s.writers[w].Idle? && Encodable(frame)
    ensures OnlyWriter(run, w, frame)
    ensures var t := M.Execute(s, run);
      w < |t.writers| && t.writers[w].Idle? && View(t) == AppendedTimes(View(s), FrameBytes(frame), n) &&
      t.droppedFrames == s.droppedFrames + DroppedTimes(View(s), FrameBytes(frame), n) && OthersAlike(s, t, w)
    decreases n
  {
    hide Encodable, FrameBytes, M.Valid, M.Apply, View, L.Appended, L.DroppedSegments, OthersAlike;
    OthersThemselves(s, w);
    if n == 0 {
      run := [];
    } else {
      var first := OneAppend(s, w, frame);
      var rest := RepeatedAppends(M.Execute(s, first), w, frame, n - 1);
      M.ExecuteAppend(s, first, rest);
      OthersOnward(s, M.Execute(s, first), M.Execute(s, first + rest), w);
      run := first + rest;
    }
  }

  lemma OthersThemselves(s: M.State, w: nat)
    ensures OthersAlike(s, s, w)
  {
  }

  lemma OthersOnward(s: M.State, t: M.State, u: M.State, w: nat)
    requires OthersAlike(s, t, w) && OthersAlike(t, u, w)
    ensures OthersAlike(s, u, w)
  {
  }
}
