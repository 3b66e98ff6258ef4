/** What ends up in the segments: whole frames, each exactly once, under any interleaving of
    writers and whatever the agent deletes. */
module SpoolContents {
  import opened Bytes
  import opened Frames
  import opened Generations
  import opened SpoolMachine

  /** Every inode is a concatenation of the frames written to it, in write order. */
  predicate Intact(s: State) {
    forall i :: 0 <= i < |s.inodes| ==>
      AllEncodable(s.inodes[i].frames) && s.inodes[i].bytes == Log(s.inodes[i].frames)
  }

  lemma IntactAppend(s: State, inode: nat, frame: Frame)
    requires Intact(s) && inode < |s.inodes| && Encodable(frame)
    ensures Intact(Appended(s, inode, frame))
  {
    hide Encodable, FrameBytes, Log;
    LogSnoc(s.inodes[inode].frames, frame);
  }

  lemma IntactStep(s: State, e: Event)
    requires Valid(s) && Intact(s)
    ensures Intact(Apply(s, e))
  {
    hide Valid, Encodable, FrameBytes, Victims, Newest;
    if e.Run? && e.writer < |s.writers| {
      ValidParts(s, e.writer);
      if s.writers[e.writer].Write? {
        IntactAppend(s, s.writers[e.writer].inode, s.writers[e.writer].frame);
      } else {
        IntactOtherwise(s, e.writer);
      }
    }
  }

  lemma IntactOtherwise(s: State, w: nat)
    requires Valid(s) && Intact(s) && w < |s.writers| && !s.writers[w].Write?
    ensures Intact(RunWriter(s, w))
  {
    hide Valid, Encodable, FrameBytes, Victims, Newest;
    ValidParts(s, w);
    assert Log([]) == [];
  }

  lemma {:induction false} IntactAlways(s: State, run: seq<Event>)
    requires Valid(s) && Intact(s)
    ensures Intact(Execute(s, run))
    decreases |run|
  {
    hide Apply, Valid, Intact;
    if run != [] {
      ApplyValid(s, run[0]);
      IntactStep(s, run[0]);
      IntactAlways(Apply(s, run[0]), run[1..]);
    }
  }

  // ----- Each frame exactly once -----------------------------------------------------------

  function WrittenIn(inodes: seq<Inode>): multiset<Frame> {
    if inodes == [] then multiset{} else multiset(inodes[0].frames) + WrittenIn(inodes[1..])
  }

  function FrameOf(pc: Pc): multiset<Frame> {
    if pc.Idle? then multiset{} else multiset{pc.frame}
  }

  function InFlightIn(writers: seq<Pc>): multiset<Frame> {
    if writers == [] then multiset{} else FrameOf(writers[0]) + InFlightIn(writers[1..])
  }

  /** The frames on disk, unlinked inodes included, and those still inside an Append. */
  function Held(s: State): multiset<Frame> {
    WrittenIn(s.inodes) + InFlightIn(s.writers)
  }

  /** The frames of the Append calls that got past the encoder during the run. */
  function Accepted(s: State, run: seq<Event>): multiset<Frame>
    requires Valid(s)
    decreases |run|
  {
    if run == [] then multiset{}
    else
      ApplyValid(s, run[0]);
      AcceptedBy(s, run[0]) + Accepted(Apply(s, run[0]), run[1..])
  }

  function AcceptedBy(s: State, e: Event): multiset<Frame> {
    if e.Begin? && e.writer < |s.writers| && s.writers[e.writer].Idle? && Encodable(e.frame)
    then multiset{e.frame} else multiset{}
  }

  lemma AddToBoth<T>(rest: multiset<T>, x: multiset<T>, y: multiset<T>, p: multiset<T>, q: multiset<T>)
    requires y + p == x + q
    ensures (rest + y) + p == (rest + x) + q
  {
    assert (rest + y) + p == rest + (y + p) && (rest + x) + q == rest + (x + q);
  }

  lemma Cancel<T>(x: multiset<T>, y: multiset<T>, p: multiset<T>)
    requires x + p == y + p
    ensures x == y
  {
    assert (x + p) - p == x && (y + p) - p == y;
  }

  lemma {:induction false} InFlightUpdate(writers: seq<Pc>, w: nat, pc: Pc)
    requires w < |writers|
    ensures InFlightIn(writers[w := pc]) + FrameOf(writers[w]) == InFlightIn(writers) + FrameOf(pc)
  {
    hide FrameOf;
    if w == 0 {
      assert writers[0 := pc][1..] == writers[1..];
    } else {
      assert writers[w := pc][1..] == writers[1..][w - 1 := pc];
      InFlightUpdate(writers[1..], w - 1, pc);
      AddToBoth(FrameOf(writers[0]), InFlightIn(writers[1..]), InFlightIn(writers[1..][w - 1 := pc]),
                FrameOf(writers[w]), FrameOf(pc));
    }
  }

  lemma {:induction false} WrittenUpdate(inodes: seq<Inode>, i: nat, file: Inode, frame: Frame)
    requires i < |inodes| && file.frames == inodes[i].frames + [frame]
    ensures WrittenIn(inodes[i := file]) == WrittenIn(inodes) + multiset{frame}
  {
    if i == 0 {
      assert inodes[0 := file][1..] == inodes[1..];
    } else {
      assert inodes[i := file][1..] == inodes[1..][i - 1 := file];
      WrittenUpdate(inodes[1..], i - 1, file, frame);
    }
  }

  lemma {:induction false} WrittenSnoc(inodes: seq<Inode>, file: Inode)
    requires file.frames == []
    ensures WrittenIn(inodes + [file]) == WrittenIn(inodes)
  {
    if inodes == [] {
      assert [file][1..] == [];
    } else {
      assert (inodes + [file])[1..] == inodes[1..] + [file];
      WrittenSnoc(inodes[1..], file);
    }
  }

  /** A step of Append other than the write keeps both parts. */
  lemma HeldRun(s: State, w: nat)
    requires Valid(s) && w < |s.writers| && !s.writers[w].Write?
    ensures Held(RunWriter(s, w)) == Held(s)
  {
    hide Valid, Encodable, FrameBytes, Victims, Newest, WrittenIn, InFlightIn;
    ValidParts(s, w);
    var s' := RunWriter(s, w);
    assert s'.inodes == s.inodes ||
      (|s'.inodes| == |s.inodes| + 1 && s'.inodes[|s.inodes|].frames == [] && s'.inodes == s.inodes + [s'.inodes[|s.inodes|]]);
    if s'.inodes != s.inodes { WrittenSnoc(s.inodes, s'.inodes[|s.inodes|]); }
    assert s'.writers == s.writers[w := s'.writers[w]];
    assert FrameOf(s'.writers[w]) == FrameOf(s.writers[w]);
    InFlightUpdate(s.writers, w, s'.writers[w]);
    Cancel(InFlightIn(s'.writers), InFlightIn(s.writers), FrameOf(s.writers[w]));
  }

  lemma HeldWrite(s: State, w: nat)
    requires Valid(s) && w < |s.writers| && s.writers[w].Write?
    ensures Held(RunWriter(s, w)) == Held(s)
  {
    hide Valid, Encodable, FrameBytes, WrittenIn, InFlightIn;
    ValidParts(s, w);
    var frame, inode := s.writers[w].frame, s.writers[w].inode;
    var s' := RunWriter(s, w);
    WrittenUpdate(s.inodes, inode, s'.inodes[inode], frame);
    InFlightUpdate(s.writers, w, Idle);
    assert InFlightIn(s'.writers) + multiset{frame} == InFlightIn(s.writers);
    assert s'.writers == s.writers[w := Idle];
  }

  lemma HeldStep(s: State, e: Event)
    requires Valid(s)
    ensures Held(Apply(s, e)) == Held(s) + AcceptedBy(s, e)
  {
    hide Valid, Encodable, FrameBytes, WrittenIn, InFlightIn, RunWriter;
    match e
    case Run(w) =>
      if w < |s.writers| {
        if s.writers[w].Write? { HeldWrite(s, w); } else { HeldRun(s, w); }
      }
    case Begin(w, frame) =>
      if w < |s.writers| && s.writers[w].Idle? {
        InFlightUpdate(s.writers, w, Scan(frame, None));
        assert InFlightIn(s.writers[w := Scan(frame, None)]) == InFlightIn(s.writers) + multiset{frame};
      }
    case Ship(_) =>
  }

  /** No frame is lost, duplicated or invented by the writers: whatever Append accepted is
      either still in flight or in exactly one place in one inode. */
  lemma {:induction false} FramesConserved(s: State, run: seq<Event>)
    requires Valid(s)
    ensures Held(Execute(s, run)) == Held(s) + Accepted(s, run)
    decreases |run|
  {
    hide Apply, Valid, Held, AcceptedBy;
    if run != [] {
      ApplyValid(s, run[0]);
      HeldStep(s, run[0]);
      FramesConserved(Apply(s, run[0]), run[1..]);
    }
  }

  // ----- What a reader finds ---------------------------------------------------------------

  predicate Legible(frames: multiset<Frame>, unmarshal: Unmarshal) {
    forall f :: f in frames ==> Readable(unmarshal, f)
  }

  lemma {:induction false} InWritten(inodes: seq<Inode>, i: nat)
    requires i < |inodes|
    ensures forall f :: f in inodes[i].frames ==> f in WrittenIn(inodes)
  {
    if i > 0 {
      InWritten(inodes[1..], i - 1);
    }
  }

  /** In every reachable snapshot each segment decodes without an error to exactly the frames
      written to that inode, in write order. */
  lemma EverySegmentDecodes(s: State, run: seq<Event>, unmarshal: Unmarshal, i: nat)
    requires Valid(s) && Intact(s) && i < |Execute(s, run).inodes|
    requires Legible(Held(s) + Accepted(s, run), unmarshal)
    ensures var file := Execute(s, run).inodes[i];
      Decode(file.bytes, 0, unmarshal) == Decoded(file.frames, None)
  {
    hide Valid, Readable, Encodable, Decode, Execute, Accepted, WrittenIn, InFlightIn;
    IntactAlways(s, run);
    FramesConserved(s, run);
    var r := Execute(s, run);
    InWritten(r.inodes, i);
    assert forall f :: f in r.inodes[i].frames ==> f in Held(r);
    RoundTrip(r.inodes[i].frames, unmarshal);
  }
}
