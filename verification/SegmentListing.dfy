/** openActive on a directory of file names, with nobody else at work (spool/segment.go). The
    listing takes every name generationOf accepts, the open the one name segmentName prints; when
    those differ for the newest generation it rescans for ever. */
module SegmentListing {
  import opened Bytes
  import opened Generations
  import S = SegmentName

  type Names = set<Text>

  /** The generations a scan finds. */
  function Listed(names: Names): (generations: set<nat>)
    ensures forall g :: g in generations <==> exists name :: name in names && S.GenerationOf(name) == Some(g)
  {
    set name | name in names && S.GenerationOf(name).Some? :: S.GenerationOf(name).value
  }

  /** One turn of openActive's loop: the generation opened and the directory then, or None for
      another scan. */
  function Attempt(names: Names): Option<(nat, Names)> {
    if Listed(names) == {} then
      if S.SegmentName(1) in names then None else Some((1, names + {S.SegmentName(1)}))
    else
      var newest := Newest(Listed(names));
      if S.SegmentName(newest) in names then Some((newest, names)) else None
  }

  /** What openActive returns within n turns. A turn that returns nothing changes nothing. */
  function OpenActive(names: Names, n: nat): Option<(nat, Names)> {
    if n == 0 then None
    else if Attempt(names).Some? then Attempt(names)
    else OpenActive(names, n - 1)
  }

  /** The newest generation listed goes only by names segmentName does not print. */
  predicate Stuck(names: Names) {
    Listed(names) != {} &&
    forall name :: name in names && S.GenerationOf(name) == Some(Newest(Listed(names))) ==> !S.Canonical(S.DigitsOf(name))
  }

  lemma StuckAttempt(names: Names)
    ensures Attempt(names).None? <==> Stuck(names)
  {
    hide S.GenerationOf, S.SegmentName, Newest, S.DigitsOf, S.Canonical;
    if Listed(names) == {} {
      FirstName();
      assert S.SegmentName(1) !in names;
    } else {
      var newest := Newest(Listed(names));
      var found :| found in names && S.GenerationOf(found) == Some(newest);
      InRange(found);
      S.GenerationOfSegmentName(newest);
      forall name | name in names && S.GenerationOf(name) == Some(newest)
        ensures S.Canonical(S.DigitsOf(name)) <==> name == S.SegmentName(newest)
      {
        S.ListedNameIsOpenedName(name);
      }
    }
  }

  lemma FirstName()
    ensures S.GenerationOf(S.SegmentName(1)) == Some(1)
  {
    S.GenerationOfSegmentName(1);
  }

  lemma InRange(name: Text)
    ensures S.GenerationOf(name).Some? ==> S.GenerationOf(name).value < S.GENERATIONS
  {
  }

  /** An undisturbed openActive, and so every Append, returns if and only if the directory is not
      stuck; if it returns it does so in one turn, and if not it never does. */
  lemma {:induction false} ReturnsUnlessStuck(names: Names, n: nat)
    requires n > 0
    ensures OpenActive(names, n).Some? <==> !Stuck(names)
    ensures OpenActive(names, n) == Attempt(names)
    decreases n
  {
    StuckAttempt(names);
    hide Attempt, Stuck;
    if Attempt(names).None? && n > 1 {
      ReturnsUnlessStuck(names, n - 1);
    }
  }

  /** A directory in which it never does: one file, its number padded one digit too wide. */
  lemma OneDigitTooMany(generation: nat, n: nat)
    requires generation < 1_000_000
    ensures OpenActive({S.Prefix() + S.Padded(S.Decimal(generation), S.NAME_DIGITS + 1) + S.Extension()}, n).None?
  {
    hide S.Value, S.HasPrefix, S.HasSuffix, S.DigitsOf, Listed, Newest, OpenActive;
    var d := S.Padded(S.Decimal(generation), S.NAME_DIGITS + 1);
    var name := S.Prefix() + d + S.Extension();
    var names: Names := {name};
    S.ValueOfDecimal(generation);
    S.ValueOfPadded(S.Decimal(generation), S.NAME_DIGITS + 1);
    S.DigitsOfSegmentName(d);
    assert S.GenerationOf(name) == Some(generation);
    assert generation in Listed(names);
    NewestIs(Listed(names), generation);
    PaddedStartsWithZero(generation);
    assert Stuck(names);
    if n > 0 {
      ReturnsUnlessStuck(names, n);
    } else {
      NoTurns(names);
    }
  }

  lemma NoTurns(names: Names)
    ensures OpenActive(names, 0) == None
  {
  }

  lemma PaddedStartsWithZero(generation: nat)
    requires generation < 1_000_000
    ensures var d := S.Padded(S.Decimal(generation), S.NAME_DIGITS + 1);
      |d| == S.NAME_DIGITS + 1 && d[0] == S.ZERO
  {
    ShortDecimal(generation, 5);
    PaddedZero(S.Decimal(generation), S.NAME_DIGITS + 1);
  }

  lemma {:induction false} PaddedZero(d: Text, width: nat)
    requires |d| < width
    ensures S.Padded(d, width)[0] == S.ZERO
    decreases width - |d|
  {
    if |d| + 1 < width {
      PaddedZero([S.ZERO] + d, width);
    }
  }

  function Power10(k: nat): nat {
    if k == 0 then 1 else 10 * Power10(k - 1)
  }

  lemma {:induction false} ShortDecimal(n: nat, k: nat)
    requires n < 10 * Power10(k)
    ensures |S.Decimal(n)| <= k + 1
  {
    if n >= 10 && k > 0 {
      ShortDecimal(n / 10, k - 1);
    }
  }
}
