/** What one writer leaves behind that appends a frame of the largest size over and over: eight
    frames to a segment, and the newest four segments. */
module SpoolFill {
  import opened Bytes
  import opened Frames
  import opened Generations
  import opened SegmentLog
  import M = SpoolMachine

  const FRAMES_PER_SEGMENT := 8

  /** The directory after n appends, from an empty one. */
  function Grown(frame: Text, n: nat): Dir {
    if n == 0 then map[] else Appended(Grown(frame, n - 1), frame)
  }

  function Copies(frame: Text, n: nat): Text {
    if n == 0 then [] else Copies(frame, n - 1) + frame
  }

  lemma {:induction false} CopiesLength(frame: Text, n: nat)
    ensures |Copies(frame, n)| == n * |frame|
  {
    if n > 0 {
      CopiesLength(frame, n - 1);
      assert n * |frame| == (n - 1) * |frame| + |frame|;
    }
  }

  /** The newest segment after n appends, how many frames it holds, and the oldest segment. */
  function NewestOf(n: nat): nat {
    (n + 7) / 8
  }

  function InNewest(n: nat): nat {
    if n == 0 then 0 else (n - 1) % 8 + 1
  }

  function OldestOf(n: nat): nat {
    if NewestOf(n) <= M.MAX_SEGMENTS then 1 else NewestOf(n) - 3
  }

  /** Segments lo to hi, all of eight frames but the newest, which has m. */
  ghost predicate Filled(dir: Dir, frame: Text, lo: nat, hi: nat, m: nat) {
    1 <= lo <= hi && 1 <= m <= FRAMES_PER_SEGMENT &&
    (forall g :: g in dir <==> lo <= g <= hi) &&
    (forall g :: lo <= g < hi ==> dir[g] == Copies(frame, FRAMES_PER_SEGMENT)) &&
    dir[hi] == Copies(frame, m)
  }

  predicate Largest(frame: Text) {
    |frame| == MAX_FRAME_BYTES
  }

  lemma SizesOf(frame: Text, m: nat)
    requires Largest(frame) && m <= FRAMES_PER_SEGMENT
    ensures |Copies(frame, m)| >= M.SEGMENT_MAX_BYTES <==> m == FRAMES_PER_SEGMENT
  {
    CopiesLength(frame, m);
    if m < FRAMES_PER_SEGMENT {
      assert m * |frame| <= 7 * MAX_FRAME_BYTES;
    }
  }

  lemma FilledNewest(dir: Dir, frame: Text, lo: nat, hi: nat, m: nat)
    requires Filled(dir, frame, lo, hi, m)
    ensures dir.Keys != {} && Opened(dir) == dir && Newest(dir.Keys) == hi
  {
    hide Copies, Newest;
    assert hi in dir.Keys;
    NewestIs(dir.Keys, hi);
  }

  /** A segment with room takes the frame. */
  lemma AppendFits(dir: Dir, frame: Text, lo: nat, hi: nat, m: nat)
    requires Largest(frame) && Filled(dir, frame, lo, hi, m) && m < FRAMES_PER_SEGMENT
    ensures Filled(Appended(dir, frame), frame, lo, hi, m + 1) && Overfull(dir) == None
  {
    hide Newest;
    FilledNewest(dir, frame, lo, hi, m);
    SizesOf(frame, m);
  }

  /** A full one makes room for the next, and the budget keeps the newest four. */
  lemma AppendRotates(dir: Dir, frame: Text, lo: nat, hi: nat)
    requires Largest(frame) && Filled(dir, frame, lo, hi, FRAMES_PER_SEGMENT)
    requires hi < lo + M.MAX_SEGMENTS && hi < M.LAST_GENERATION
    ensures var low := if hi - lo < 3 then lo else lo + 1;
      Filled(Appended(dir, frame), frame, low, hi + 1, 1)
    ensures Overfull(dir) == Some(dir[hi + 1 := []])
    ensures Victims(dir[hi + 1 := []]) == if hi - lo < 3 then [] else [lo]
  {
    hide Newest, Copies, M.Victims;
    FilledNewest(dir, frame, lo, hi, FRAMES_PER_SEGMENT);
    SizesOf(frame, FRAMES_PER_SEGMENT);
    assert M.NextGeneration(hi) == hi + 1;
    var over: Dir := dir[hi + 1 := []];
    VictimsOfRow(over.Keys, lo, hi + 1);
    assert Copies(frame, 1) == frame by { OneCopy(frame); }
    var low := if hi - lo < 3 then lo else lo + 1;
    assert Budgeted(over) == map g | g in over && g >= low :: over[g];
  }

  lemma OneCopy(frame: Text)
    ensures Copies(frame, 1) == frame
  {
    assert Copies(frame, 0) == [];
  }

  function Row(lo: nat, n: nat): seq<nat> {
    seq(n, i => lo + i)
  }

  /** Of at most five generations in a row the budget takes the first if there are five. */
  lemma VictimsOfRow(generations: set<nat>, lo: nat, hi: nat)
    requires lo <= hi <= lo + M.MAX_SEGMENTS && forall g :: g in generations <==> lo <= g <= hi
    ensures M.Victims(generations) == if hi - lo < M.MAX_SEGMENTS then [] else [lo]
  {
    hide Ascending;
    var all := Row(lo, hi - lo + 1);
    forall x ensures x in all <==> x in generations {
      if x in generations { assert all[x - lo] == x; }
    }
    AscendingUnique(Ascending(generations), all);
    assert |generations| == |all|;
  }

  lemma OneMore(frame: Text, n: nat)
    ensures n > 0 ==> Grown(frame, n) == Appended(Grown(frame, n - 1), frame)
  {
  }

  lemma Positions(n: nat)
    requires n > 0
    ensures n == 1 ==> NewestOf(n) == 1 && InNewest(n) == 1 && OldestOf(n) == 1
    ensures n > 1 ==> NewestOf(n - 1) <= NewestOf(n) && 1 <= InNewest(n - 1) <= FRAMES_PER_SEGMENT
    ensures n > 1 && InNewest(n - 1) < FRAMES_PER_SEGMENT ==>
      NewestOf(n) == NewestOf(n - 1) && InNewest(n) == InNewest(n - 1) + 1 && OldestOf(n) == OldestOf(n - 1)
    ensures n > 1 && InNewest(n - 1) == FRAMES_PER_SEGMENT ==>
      NewestOf(n) == NewestOf(n - 1) + 1 && InNewest(n) == 1 && OldestOf(n - 1) <= NewestOf(n - 1) < OldestOf(n - 1) + M.MAX_SEGMENTS &&
      OldestOf(n) == if NewestOf(n - 1) - OldestOf(n - 1) < 3 then OldestOf(n - 1) else OldestOf(n - 1) + 1
  {
  }

  lemma NextFilled(dir: Dir, frame: Text, n: nat)
    requires Largest(frame) && n > 1 && NewestOf(n) < M.LAST_GENERATION
    requires Filled(dir, frame, OldestOf(n - 1), NewestOf(n - 1), InNewest(n - 1))
    ensures Filled(Appended(dir, frame), frame, OldestOf(n), NewestOf(n), InNewest(n))
  {
    hide Filled, Appended, Copies, NewestOf, InNewest, OldestOf, Largest, Victims, Overfull;
    Positions(n);
    if InNewest(n - 1) < FRAMES_PER_SEGMENT {
      AppendFits(dir, frame, OldestOf(n - 1), NewestOf(n - 1), InNewest(n - 1));
    } else {
      AppendRotates(dir, frame, OldestOf(n - 1), NewestOf(n - 1));
    }
  }

  /** After n appends. */
  lemma {:induction false} GrownIsFilled(frame: Text, n: nat)
    requires Largest(frame) && n > 0 && NewestOf(n) < M.LAST_GENERATION
    ensures Filled(Grown(frame, n), frame, OldestOf(n), NewestOf(n), InNewest(n))
  {
    hide Filled, Appended, NewestOf, InNewest, OldestOf, Grown, Largest;
    Positions(n);
    if n == 1 {
      FirstAppend(frame);
    } else {
      GrownIsFilled(frame, n - 1);
      OneMore(frame, n);
      NextFilled(Grown(frame, n - 1), frame, n);
    }
  }

  lemma FirstAppend(frame: Text)
    ensures Filled(Grown(frame, 1), frame, 1, 1, 1)
  {
    hide Newest;
    var open := Opened(map[]);
    assert Grown(frame, 0) == map[];
    NewestIs(open.Keys, 1);
    OneCopy(frame);
  }

  /** How many segments the next append drops. */
  lemma GrownDrops(frame: Text, n: nat)
    requires Largest(frame) && NewestOf(n) + 1 < M.LAST_GENERATION
    ensures DroppedSegments(Grown(frame, n)) == if n % 8 == 0 && n >= 32 then 1 else 0
  {
    hide Filled, Appended, Copies, Victims, Overfull;
    if n == 0 {
      FirstDropsNone();
    } else {
      GrownIsFilled(frame, n);
      var dir := Grown(frame, n);
      if InNewest(n) < FRAMES_PER_SEGMENT {
        AppendFits(dir, frame, OldestOf(n), NewestOf(n), InNewest(n));
      } else {
        AppendRotates(dir, frame, OldestOf(n), NewestOf(n));
      }
    }
  }

  lemma FirstDropsNone()
    ensures Overfull(map[]) == None
  {
    hide Newest;
    var open := Opened(map[]);
    NewestIs(open.Keys, 1);
  }
}
