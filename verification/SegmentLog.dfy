/** The spool log as one writer sees it (Append and Read in spool/segment.go): a directory of
    segments that the methods change in place, specified by functions on its contents. */
module SegmentLog {
  import opened Bytes
  import opened Frames
  import opened Generations
  import opened SegmentName
  import M = SpoolMachine

  /** The bytes under each generation. */
  type Dir = map<nat, Text>

  // ----- What the methods do to a directory -----------------------------------------------

  function Opened(dir: Dir): (d: Dir)
    ensures d.Keys != {}
  {
    var first: Dir := map[1 := []];
    assert 1 in first.Keys;
    if dir.Keys == {} then first else dir
  }

  function Victims(dir: Dir): seq<nat> {
    M.Victims(dir.Keys)
  }

  function Without(dir: Dir, generations: seq<nat>): Dir {
    map g | g in dir && g !in generations :: dir[g]
  }

  function Budgeted(dir: Dir): Dir {
    Without(dir, Victims(dir))
  }

  /** A write through a descriptor: nothing to see when its name is gone. */
  function Written(dir: Dir, generation: nat, frame: Text): Dir {
    if generation in dir then dir[generation := dir[generation] + frame] else dir
  }

  /** rotate: the generation written to, and the directory it is written in. */
  function Rotated(dir: Dir, active: nat): (r: (nat, Dir))
    requires dir.Keys != {}
  {
    var next := M.NextGeneration(active);
    if next in dir then (Newest(dir.Keys), dir) else (next, Budgeted(dir[next := []]))
  }

  function Appended(dir: Dir, frame: Text): Dir {
    var open := Opened(dir);
    var active := Newest(open.Keys);
    if |open[active]| >= M.SEGMENT_MAX_BYTES then
      var (next, rotated) := Rotated(open, active);
      Written(rotated, next, frame)
    else Written(open, active, frame)
  }

  /** The directory enforceSegmentBudget finds, when an append gets that far. */
  function Overfull(dir: Dir): Option<Dir> {
    var open := Opened(dir);
    var active := Newest(open.Keys);
    var next := M.NextGeneration(active);
    if |open[active]| >= M.SEGMENT_MAX_BYTES && next !in open then Some(open[next := []]) else None
  }

  /** How many segments an append drops, and how many bytes they held. */
  function DroppedSegments(dir: Dir): nat {
    match Overfull(dir)
    case None => 0
    case Some(over) => |Victims(over)|
  }

  function DroppedSize(dir: Dir): nat {
    match Overfull(dir)
    case None => 0
    case Some(over) => TotalSize(over, Victims(over))
  }

  function TotalSize(dir: Dir, generations: seq<nat>): nat
    requires forall g :: g in generations ==> g in dir
  {
    if generations == [] then 0 else |dir[generations[0]]| + TotalSize(dir, generations[1..])
  }

  /** Read over the segments listed, from position i on. */
  function ReadFrom(dir: Dir, generations: seq<nat>, i: nat, unmarshal: Unmarshal): Decoded
    requires i <= |generations| && forall g :: g in generations ==> g in dir
    decreases |generations| - i
  {
    if i == |generations| then Decoded([], None)
    else
      var d := Decode(dir[generations[i]], 0, unmarshal);
      if d.error.Some? then d
      else
        var rest := ReadFrom(dir, generations, i + 1, unmarshal);
        Decoded(d.frames + rest.frames, rest.error)
  }

  function Contents(dir: Dir, unmarshal: Unmarshal): Decoded {
    ReadFrom(dir, Ascending(dir.Keys), 0, unmarshal)
  }

  // ----- The directory, changed in place ----------------------------------------------------

  class SpoolDirectory {
    var segments: Dir
    var droppedFrames: nat
    var droppedBytes: nat

    constructor ()
      ensures segments == map[] && droppedFrames == 0 && droppedBytes == 0
    {
      segments, droppedFrames, droppedBytes := map[], 0, 0;
    }

    /** Opens the newest segment, creating the first if there is none. */
    method OpenActive() returns (generation: nat)
      modifies this`segments
      ensures segments == Opened(old(segments))
      ensures generation == Newest(segments.Keys)
    {
      if segments.Keys == {} {
        segments := map[1 := []];
        NewestIs(segments.Keys, 1);
        return 1;
      }
      generation := Newest(segments.Keys);
    }

    /** Drops the oldest segments until at most MaxSegments remain, and counts them. */
    method EnforceSegmentBudget()
      modifies this
      ensures segments == Budgeted(old(segments))
      ensures droppedFrames == old(droppedFrames) + |Victims(old(segments))|
      ensures droppedBytes == old(droppedBytes) + TotalSize(old(segments), Victims(old(segments)))
    {
      hide M.Victims;
      var victims := Victims(segments);
      ghost var before := segments;
      VictimsDistinct(segments.Keys);
      assert before == Without(before, []);
      var i := 0;
      while i < |victims|
        invariant 0 <= i <= |victims|
        invariant segments == Without(before, victims[..i])
        invariant droppedFrames == old(droppedFrames) + i
        invariant droppedBytes + TotalSize(before, victims[i..]) == old(droppedBytes) + TotalSize(before, victims)
      {
        var g := victims[i];
        assert g !in victims[..i];
        var size := |segments[g]|;
        segments := segments - {g};
        droppedFrames := droppedFrames + 1;
        droppedBytes := droppedBytes + size;
        assert victims[..i + 1] == victims[..i] + [g];
        assert victims[i..][1..] == victims[i + 1..];
        i := i + 1;
      }
      assert victims[..i] == victims;
    }

    /** Retires the active segment and returns the one to write to. */
    method Rotate(active: nat) returns (generation: nat)
      requires active in segments
      modifies this
      ensures (generation, segments) == Rotated(old(segments), active)
      ensures M.NextGeneration(active) in old(segments) ==>
        droppedFrames == old(droppedFrames) && droppedBytes == old(droppedBytes)
      ensures M.NextGeneration(active) !in old(segments) ==>
        var over := old(segments)[M.NextGeneration(active) := []];
        droppedFrames == old(droppedFrames) + |Victims(over)| &&
        droppedBytes == old(droppedBytes) + TotalSize(over, Victims(over))
    {
      hide Victims, Budgeted, Newest;
      var next := M.NextGeneration(active);
      if next in segments {
        generation := OpenActive();
        return;
      }
      segments := segments[next := []];
      EnforceSegmentBudget();
      generation := next;
    }

    /** One document in, as a framed entry of the newest segment. */
    method Append(signal: Text, encoding: Text, id: Text, payload: Text) returns (error: Option<EncodeError>)
      modifies this
      ensures var f := Frame(signal, encoding, id, payload);
        && (error.None? <==> Encodable(f))
        && (error.None? ==> segments == Appended(old(segments), FrameBytes(f)))
        && (error.Some? ==> segments == old(segments))
      ensures droppedFrames == old(droppedFrames) + if error.None? then DroppedSegments(old(segments)) else 1
      ensures droppedBytes == old(droppedBytes) + if error.None? then DroppedSize(old(segments)) else |payload|
    {
      hide Encodable, FrameBytes, Budgeted, Newest, Victims, TotalSize;
      var frame := EncodeFrame(signal, encoding, id, payload);
      if frame.Err? {
        droppedFrames, droppedBytes := droppedFrames + 1, droppedBytes + |payload|;
        return Some(frame.error);
      }
      var generation := OpenActive();
      if |segments[generation]| >= M.SEGMENT_MAX_BYTES {
        generation := Rotate(generation);
      }
      if generation in segments {
        segments := segments[generation := segments[generation] + frame.value];
      }
      return None;
    }

    /** Every frame, oldest segment first. */
    method Read(unmarshal: Unmarshal) returns (d: Decoded)
      ensures d == Contents(segments, unmarshal)
    {
      var dir, generations := segments, Ascending(segments.Keys);
      hide Decode, Ascending, StrictlyAscending;
      var frames := [];
      for i := 0 to |generations|
        invariant var rest := ReadFrom(dir, generations, i, unmarshal);
          ReadFrom(dir, generations, 0, unmarshal) == Decoded(frames + rest.frames, rest.error)
      {
        var decoded := DecodeFrames(dir[generations[i]], unmarshal);
        frames := frames + decoded.frames;
        if decoded.error.Some? {
          return Decoded(frames, decoded.error);
        }
      }
      return Decoded(frames, None);
    }

    /** The agent deletes the k oldest segments, having shipped them. */
    method Ship(k: nat)
      modifies this`segments
      ensures segments == Shipped(old(segments), k)
    {
      segments := Without(segments, Oldest(segments, k));
    }
  }

  lemma VictimsDistinct(generations: set<nat>)
    ensures forall i, j :: 0 <= i < j < |M.Victims(generations)| ==> M.Victims(generations)[i] != M.Victims(generations)[j]
  {
  }

  function Oldest(dir: Dir, k: nat): (g: seq<nat>)
    ensures forall x :: x in g ==> x in dir
  {
    var all := Ascending(dir.Keys);
    if k >= |all| then all else all[..k]
  }

  function Shipped(dir: Dir, k: nat): Dir {
    Without(dir, Oldest(dir, k))
  }
}
