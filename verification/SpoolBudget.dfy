/** The segment budget under any interleaving: a directory holds at most MaxSegments segments
    plus one for each writer between its successful create in rotate and the end of its own
    enforceSegmentBudget.

    A writer's own scan may be stale by the time it removes anything, so the bound is kept for
    every set of writers that have scanned: discounting all that they still mean to remove,
    the directory holds at most MaxSegments plus the other creators. */
module SpoolBudget {
  import opened Bytes
  import opened Frames
  import opened Generations
  import opened SegmentName
  import opened SpoolMachine
  import opened SpoolOrder

  /** After a successful create in rotate, before enforceSegmentBudget returns. */
  predicate IsCreator(pc: Pc) {
    pc.ListBudget? || pc.StatVictim? || pc.RemoveVictim?
  }

  predicate HasScanned(pc: Pc) {
    pc.StatVictim? || pc.RemoveVictim?
  }

  function VictimsOf(pc: Pc): seq<nat> {
    if HasScanned(pc) then pc.victims else []
  }

  function Creators(s: State): set<nat> {
    set w | 0 <= w < |s.writers| && IsCreator(s.writers[w])
  }

  function Scanners(s: State): set<nat> {
    set w | 0 <= w < |s.writers| && HasScanned(s.writers[w])
  }

  predicate Condemned(s: State, group: set<nat>, g: nat) {
    exists w :: w in group && w < |s.writers| && g in VictimsOf(s.writers[w])
  }

  /** The segments no writer of the group means to remove, `exempt` ones not counted. */
  function Remaining(s: State, exempt: set<nat>, group: set<nat>): set<nat> {
    set g | g in s.dir.Keys && g !in exempt && !Condemned(s, group, g)
  }

  predicate WithinBudget(s: State, exempt: set<nat>) {
    forall group :: group <= Scanners(s) ==>
      |Remaining(s, exempt, group)| <= MAX_SEGMENTS + |Creators(s) - group|
  }

  /** Segment 1 may be created outside rotate, by an openActive that listed an empty
      directory; it is exempt unless nobody can be in that position. */
  predicate Covers(s: State, exempt: set<nat>) {
    1 in exempt || (s.dir.Keys != {} && forall w :: 0 <= w < |s.writers| ==> !s.writers[w].Create?)
  }

  lemma SubsetSize<T>(a: set<T>, b: set<T>)
    requires a <= b
    ensures |a| <= |b|
  {
    assert b == a + (b - a);
  }

  /** The bound moves to a state whose remaining segments and creators are no worse. */
  lemma BudgetFor(s: State, s': State, exempt: set<nat>, group: set<nat>, group': set<nat>)
    requires WithinBudget(s, exempt) && group <= Scanners(s)
    requires Remaining(s', exempt, group') <= Remaining(s, exempt, group)
    requires Creators(s) - group <= Creators(s') - group'
    ensures |Remaining(s', exempt, group')| <= MAX_SEGMENTS + |Creators(s') - group'|
  {
    hide Remaining, Creators, Scanners;
    SubsetSize(Remaining(s', exempt, group'), Remaining(s, exempt, group));
    SubsetSize(Creators(s) - group, Creators(s') - group');
  }

  /** Nothing becomes countable, beyond `extra`, if every condemned segment still in the
      directory stays condemned. */
  lemma RemainingShrinks(s: State, s': State, exempt: set<nat>, group: set<nat>, group': set<nat>, extra: set<nat>)
    requires |s'.writers| == |s.writers| && s'.dir.Keys - exempt <= s.dir.Keys + extra
    requires forall v, g :: v in group && v < |s.writers| && g in s'.dir.Keys && g in VictimsOf(s.writers[v]) ==>
      v in group' && g in VictimsOf(s'.writers[v])
    ensures Remaining(s', exempt, group') <= Remaining(s, exempt, group) + extra
  {
    hide VictimsOf;
    forall g | g in s'.dir.Keys && Condemned(s, group, g) ensures Condemned(s', group', g) {
      var v :| v in group && v < |s.writers| && g in VictimsOf(s.writers[v]);
      assert v in group' && g in VictimsOf(s'.writers[v]);
    }
    forall g | g in Remaining(s', exempt, group') ensures g in Remaining(s, exempt, group) + extra {
      assert g in s'.dir.Keys - exempt;
    }
  }

  /** Only writer w moves: the roles of the others are as before. */
  lemma RolesAfter(s: State, s': State, w: nat)
    requires w < |s.writers| && |s'.writers| == |s.writers|
    requires forall v :: 0 <= v < |s.writers| && v != w ==> s'.writers[v] == s.writers[v]
    ensures Creators(s') == (Creators(s) - {w}) + (if IsCreator(s'.writers[w]) then {w} else {})
    ensures Scanners(s') == (Scanners(s) - {w}) + (if HasScanned(s'.writers[w]) then {w} else {})
    ensures w in Creators(s) <==> IsCreator(s.writers[w])
    ensures w in Scanners(s) <==> HasScanned(s.writers[w])
  {
    hide IsCreator, HasScanned;
  }

  /** The bound holds as it is when no writer's role or victims changed and no counted
      segment appeared. */
  lemma BudgetUnchanged(s: State, s': State, exempt: set<nat>)
    requires WithinBudget(s, exempt) && |s'.writers| == |s.writers|
    requires s'.dir.Keys - exempt <= s.dir.Keys
    requires forall w :: 0 <= w < |s.writers| ==>
      IsCreator(s'.writers[w]) == IsCreator(s.writers[w]) &&
      HasScanned(s'.writers[w]) == HasScanned(s.writers[w]) &&
      VictimsOf(s'.writers[w]) == VictimsOf(s.writers[w])
    ensures WithinBudget(s', exempt)
  {
    hide IsCreator, HasScanned, VictimsOf;
    assert Creators(s') == Creators(s) && Scanners(s') == Scanners(s);
    forall group | group <= Scanners(s')
      ensures |Remaining(s', exempt, group)| <= MAX_SEGMENTS + |Creators(s') - group|
    {
      RemainingShrinks(s, s', exempt, group, group, {});
      BudgetFor(s, s', exempt, group, group);
    }
  }

  /** One more segment and one more creator. */
  lemma BudgetGains(s: State, s': State, w: nat, next: nat, exempt: set<nat>)
    requires WithinBudget(s, exempt) && |s'.writers| == |s.writers|
    requires s'.dir.Keys == s.dir.Keys + {next}
    requires Creators(s') == Creators(s) + {w} && w !in Creators(s) && w !in Scanners(s)
    requires Scanners(s') == Scanners(s)
    requires forall v :: v in Scanners(s) && v < |s.writers| ==> s'.writers[v] == s.writers[v]
    ensures WithinBudget(s', exempt)
  {
    hide Remaining, Creators, Scanners, VictimsOf;
    forall group | group <= Scanners(s')
      ensures |Remaining(s', exempt, group)| <= MAX_SEGMENTS + |Creators(s') - group|
    {
      assert forall v :: v in group ==> v in Scanners(s);
      RemainingShrinks(s, s', exempt, group, group, {next});
      SubsetSize(Remaining(s', exempt, group), Remaining(s, exempt, group) + {next});
      assert Creators(s') - group == (Creators(s) - group) + {w};
    }
  }

  /** A successful create in rotate. */
  lemma BudgetRotate(s: State, w: nat, frame: Frame, next: nat, exempt: set<nat>)
    requires WithinBudget(s, exempt) && w < |s.writers| && s.writers[w].Rotate?
    ensures WithinBudget(Goto(WithSegment(s, next), w, ListBudget(frame, |s.inodes|)), exempt)
  {
    hide WithinBudget;
    var s' := Goto(WithSegment(s, next), w, ListBudget(frame, |s.inodes|));
    RolesAfter(s, s', w);
    assert s'.dir.Keys == s.dir.Keys + {next};
    BudgetGains(s, s', w, next, exempt);
  }

  /** Discounting a fresh scan's victims leaves MaxSegments. */
  lemma SurvivorsOfScan(s: State, exempt: set<nat>, w: nat, group: set<nat>)
    requires w in group && w < |s.writers| && VictimsOf(s.writers[w]) == Victims(s.dir.Keys)
    ensures |Remaining(s, exempt, group)| <= MAX_SEGMENTS
  {
    var all := s.dir.Keys;
    if |all| <= MAX_SEGMENTS {
      SubsetSize(Remaining(s, exempt, group), all);
    } else {
      var r, k := Ascending(all), |all| - MAX_SEGMENTS;
      var oldest := set g | g in r[..k];
      AscendingDrop(all, oldest, k);
      assert |all - oldest| == |Ascending(all - oldest)|;
      forall g | g in Remaining(s, exempt, group) ensures g in all - oldest {
        if g in oldest { assert Condemned(s, group, g); }
      }
      SubsetSize(Remaining(s, exempt, group), all - oldest);
    }
  }

  /** The directory scan of enforceSegmentBudget. */
  lemma BudgetList(s: State, w: nat, frame: Frame, inode: nat, exempt: set<nat>)
    requires WithinBudget(s, exempt) && w < |s.writers| && s.writers[w].ListBudget?
    ensures WithinBudget(Goto(s, w, NextVictim(frame, inode, Victims(s.dir.Keys))), exempt)
  {
    hide Victims;
    var s' := Goto(s, w, NextVictim(frame, inode, Victims(s.dir.Keys)));
    forall group | group <= Scanners(s')
      ensures |Remaining(s', exempt, group)| <= MAX_SEGMENTS + |Creators(s') - group|
    {
      if w in group {
        SurvivorsOfScan(s', exempt, w, group);
      } else if Victims(s.dir.Keys) == [] {
        assert |s.dir.Keys| <= MAX_SEGMENTS by { NoVictims(s.dir.Keys); }
        SubsetSize(Remaining(s', exempt, group), s.dir.Keys);
      } else {
        assert group <= Scanners(s);
        assert Creators(s') == Creators(s);
        RemainingShrinks(s, s', exempt, group, group, {});
        BudgetFor(s, s', exempt, group, group);
      }
    }
  }

  lemma NoVictims(generations: set<nat>)
    requires Victims(generations) == []
    ensures |generations| <= MAX_SEGMENTS
  {
  }

  /** One removal, and the end of enforceSegmentBudget when it was the last. */
  lemma BudgetLoses(s: State, s': State, w: nat, v0: nat, exempt: set<nat>)
    requires WithinBudget(s, exempt) && w < |s.writers| == |s'.writers|
    requires s'.dir.Keys == s.dir.Keys - {v0}
    requires forall v :: 0 <= v < |s.writers| && v != w ==> s'.writers[v] == s.writers[v]
    requires w in Creators(s) && w in Scanners(s)
    requires forall g :: g in VictimsOf(s.writers[w]) ==> g == v0 || (w in Scanners(s') && g in VictimsOf(s'.writers[w]))
    requires (Creators(s') == Creators(s) && Scanners(s') == Scanners(s)) ||
             (Creators(s') == Creators(s) - {w} && Scanners(s') == Scanners(s) - {w})
    ensures WithinBudget(s', exempt)
  {
    hide Remaining, Creators, Scanners, VictimsOf;
    forall group | group <= Scanners(s')
      ensures |Remaining(s', exempt, group)| <= MAX_SEGMENTS + |Creators(s') - group|
    {
      LosesForGroup(s, s', w, v0, exempt, group);
    }
  }

  lemma LosesForGroup(s: State, s': State, w: nat, v0: nat, exempt: set<nat>, group: set<nat>)
    requires WithinBudget(s, exempt) && w < |s.writers| == |s'.writers|
    requires s'.dir.Keys == s.dir.Keys - {v0}
    requires forall v :: 0 <= v < |s.writers| && v != w ==> s'.writers[v] == s.writers[v]
    requires w in Creators(s) && w in Scanners(s)
    requires forall g :: g in VictimsOf(s.writers[w]) ==> g == v0 || (w in Scanners(s') && g in VictimsOf(s'.writers[w]))
    requires (Creators(s') == Creators(s) && Scanners(s') == Scanners(s)) ||
             (Creators(s') == Creators(s) - {w} && Scanners(s') == Scanners(s) - {w})
    requires group <= Scanners(s')
    ensures |Remaining(s', exempt, group)| <= MAX_SEGMENTS + |Creators(s') - group|
  {
    hide WithinBudget, Remaining, Creators, Scanners, VictimsOf;
    var before := if w in Scanners(s') then group else group + {w};
    RemainingShrinks(s, s', exempt, before, group, {});
    assert Creators(s) - before == Creators(s') - group;
    BudgetFor(s, s', exempt, before, group);
  }

  lemma BudgetRemove(s: State, w: nat, exempt: set<nat>)
    requires WithinBudget(s, exempt) && w < |s.writers| && s.writers[w].RemoveVictim?
    requires s.writers[w].victims != []
    ensures var pc := s.writers[w];
      WithinBudget(Goto(Dropped(s, pc.victims[0], pc.size), w, NextVictim(pc.frame, pc.inode, pc.victims[1..])), exempt)
  {
    hide WithinBudget;
    var pc := s.writers[w];
    var s' := Goto(Dropped(s, pc.victims[0], pc.size), w, NextVictim(pc.frame, pc.inode, pc.victims[1..]));
    assert s'.dir.Keys == s.dir.Keys - {pc.victims[0]};
    assert pc.victims == [pc.victims[0]] + pc.victims[1..];
    RolesAfter(s, s', w);
    hide Creators, Scanners;
    BudgetLoses(s, s', w, pc.victims[0], exempt);
  }

  lemma BudgetRun(s: State, w: nat, exempt: set<nat>)
    requires Valid(s) && w < |s.writers| && WithinBudget(s, exempt) && Covers(s, exempt)
    ensures WithinBudget(RunWriter(s, w), exempt)
  {
    hide Valid, WithinBudget, Victims, FrameBytes, Encodable, Newest;
    ValidParts(s, w);
    match s.writers[w]
    case Rotate(frame, generation) =>
      if NextGeneration(generation) in s.dir {
        BudgetUnchanged(s, RunWriter(s, w), exempt);
      } else {
        BudgetRotate(s, w, frame, NextGeneration(generation), exempt);
      }
    case ListBudget(frame, inode) =>
      BudgetList(s, w, frame, inode, exempt);
    case RemoveVictim(_, _, _, _) =>
      BudgetRemove(s, w, exempt);
    case _ =>
      BudgetUnchanged(s, RunWriter(s, w), exempt);
  }

  lemma BudgetStep(s: State, e: Event, exempt: set<nat>)
    requires Valid(s) && WithinBudget(s, exempt) && Covers(s, exempt)
    ensures WithinBudget(Apply(s, e), exempt)
  {
    hide Valid, WithinBudget, RunWriter, Encodable;
    match e
    case Run(w) =>
      if w < |s.writers| { BudgetRun(s, w, exempt); }
    case _ =>
      BudgetUnchanged(s, Apply(s, e), exempt);
  }

  lemma StartWithinBudget(s: State, exempt: set<nat>)
    requires Start(s) && |s.dir.Keys - exempt| <= MAX_SEGMENTS
    ensures WithinBudget(s, exempt)
  {
    assert Scanners(s) == {};
    forall group | group <= Scanners(s)
      ensures |Remaining(s, exempt, group)| <= MAX_SEGMENTS + |Creators(s) - group|
    {
      SubsetSize(Remaining(s, exempt, group), s.dir.Keys - exempt);
    }
  }

  /** From any start, whatever the agent deletes: five segments at most, and one per creator. */
  lemma {:induction false} BudgetFromAnyStart(s: State, run: seq<Event>)
    requires Valid(s) && WithinBudget(s, {1})
    ensures WithinBudget(Execute(s, run), {1})
    ensures |Execute(s, run).dir.Keys| <= MAX_SEGMENTS + 1 + |Creators(Execute(s, run))|
    decreases |run|
  {
    hide Apply, Valid, WithinBudget;
    if run == [] {
      BudgetNow(s, {1});
      SubsetSize(s.dir.Keys, (s.dir.Keys - {1}) + {1});
    } else {
      ApplyValid(s, run[0]);
      BudgetStep(s, run[0], {1});
      BudgetFromAnyStart(Apply(s, run[0]), run[1..]);
    }
  }

  lemma BudgetNow(s: State, exempt: set<nat>)
    requires WithinBudget(s, exempt)
    ensures |s.dir.Keys - exempt| <= MAX_SEGMENTS + |Creators(s)|
  {
    var none: set<nat> := {};
    assert Remaining(s, exempt, none) == s.dir.Keys - exempt;
    assert Creators(s) - none == Creators(s);
    assert none <= Scanners(s);
  }

  /** A directory that is not empty stays so under a careful agent, so no openActive ever
      finds it empty. */
  lemma CoveredStep(s: State, e: Event)
    requires Ordered(s) && Spares(s, e) && Covers(s, {})
    ensures Covers(Apply(s, e), {})
  {
    hide Encodable, FrameBytes, Victims, Newest, Ordered, Valid, Top;
    OrderedStep(s, e);
    assert Valid(s) by { OrderedValid(s); }
    var s' := Apply(s, e);
    assert s'.dir.Keys != {};
    if e.Run? && e.writer < |s.writers| {
      var w := e.writer;
      ValidParts(s, w);
      assert !s'.writers[w].Create?;
      assert forall v :: 0 <= v < |s.writers| && v != w ==> s'.writers[v] == s.writers[v];
    }
  }

  /** From a directory that holds between one and four segments, and with an agent that spares
      the newest: at most MaxSegments and one per creator, in every state of every run. */
  lemma {:induction false} BudgetHolds(s: State, run: seq<Event>)
    requires Ordered(s) && Careful(s, run) && WithinBudget(s, {}) && Covers(s, {})
    ensures |Execute(s, run).dir.Keys| <= MAX_SEGMENTS + |Creators(Execute(s, run))|
    decreases |run|
  {
    hide Apply, Ordered, WithinBudget, Spares, Covers;
    assert Valid(s) by { OrderedValid(s); }
    if run == [] {
      BudgetNow(s, {});
      assert s.dir.Keys - {} == s.dir.Keys;
    } else {
      BudgetStep(s, run[0], {});
      OrderedStep(s, run[0]);
      CoveredStep(s, run[0]);
      BudgetHolds(Apply(s, run[0]), run[1..]);
    }
  }

  /** The same from a start state. */
  lemma BudgetFromStart(s: State, run: seq<Event>)
    requires Start(s) && Careful(s, run)
    requires 1 <= |s.dir.Keys| <= MAX_SEGMENTS && forall g :: g in s.dir ==> g < GENERATIONS
    ensures |Execute(s, run).dir.Keys| <= MAX_SEGMENTS + |Creators(Execute(s, run))|
  {
    hide Execute, Careful, WithinBudget, Creators, Ordered, Valid;
    StartOrdered(s);
    assert s.dir.Keys - {} == s.dir.Keys;
    StartWithinBudget(s, {});
    BudgetHolds(s, run);
  }
}
