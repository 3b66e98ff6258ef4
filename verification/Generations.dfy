/** The ascending list of segment generations (Generations in spool/segment.go), over the set
    of generations a directory holds. */
module Generations {
  predicate StrictlyAscending(r: seq<nat>) {
    forall i, j :: 0 <= i < j < |r| ==> r[i] < r[j]
  }

  predicate IsLeast(m: nat, s: set<nat>) {
    m in s && forall x :: x in s ==> m <= x
  }

  lemma {:induction false} LeastExists(s: set<nat>) returns (m: nat)
    requires s != {}
    ensures IsLeast(m, s)
  {
    var first :| first in s;
    var rest := s - {first};
    m := first;
    if rest != {} {
      var other := LeastExists(rest);
      if other < m { m := other; }
    }
    assert forall x :: x in s ==> x == first || x in rest;
  }

  function Least(s: set<nat>): (m: nat)
    requires s != {}
    ensures IsLeast(m, s)
  {
    assert exists m :: IsLeast(m, s) by { var m := LeastExists(s); }
    var m :| IsLeast(m, s);
    m
  }

  function Ascending(s: set<nat>): (r: seq<nat>)
    ensures |r| == |s|
    ensures forall x :: x in r <==> x in s
    ensures StrictlyAscending(r)
  {
    if s == {} then []
    else
      var m := Least(s);
      var rest := Ascending(s - {m});
      assert forall i :: 0 <= i < |rest| ==> rest[i] in rest && m < rest[i];
      LeastInFront(m, rest, s);
      [m] + rest
  }

  lemma LeastInFront(m: nat, rest: seq<nat>, s: set<nat>)
    requires m in s && StrictlyAscending(rest) && forall x :: x in rest <==> x in s - {m}
    requires forall i :: 0 <= i < |rest| ==> m < rest[i]
    ensures StrictlyAscending([m] + rest)
    ensures forall x :: x in [m] + rest <==> x in s
  {
    assert forall x :: x in [m] + rest <==> x == m || x in rest;
  }

  /** The last generation listed. */
  function Newest(s: set<nat>): (n: nat)
    requires s != {}
    ensures n in s
    ensures forall x :: x in s ==> x <= n
  {
    var r := Ascending(s);
    assert r[|r| - 1] in r;
    assert forall x :: x in s ==> x in r;
    r[|r| - 1]
  }

  lemma NewestIs(s: set<nat>, n: nat)
    requires n in s && forall x :: x in s ==> x <= n
    ensures Newest(s) == n
  {
  }

  /** There is one ascending list of a set. */
  lemma {:induction false} AscendingUnique(a: seq<nat>, b: seq<nat>)
    requires StrictlyAscending(a) && StrictlyAscending(b)
    requires forall x :: x in a <==> x in b
    ensures a == b
  {
    HasHead(a);
    HasHead(b);
    if a != [] && b != [] {
      assert a[0] == b[0];
      TailMembers(a);
      TailMembers(b);
      AscendingUnique(a[1..], b[1..]);
    }
  }

  lemma HasHead(a: seq<nat>)
    ensures a == [] || a[0] in a
  {
  }

  lemma TailMembers(a: seq<nat>)
    requires StrictlyAscending(a) && a != []
    ensures StrictlyAscending(a[1..])
    ensures forall x :: x in a[1..] <==> x in a && x != a[0]
  {
  }

  lemma AscendingSnoc(s: set<nat>, top: nat)
    requires forall x :: x in s ==> x < top
    ensures Ascending(s + {top}) == Ascending(s) + [top]
  {
    var r := Ascending(s);
    assert forall i :: 0 <= i < |r| ==> r[i] in r;
    AscendingUnique(Ascending(s + {top}), r + [top]);
  }

  /** The elements at and after position k are those not before it. */
  lemma {:induction false} DropMembers(r: seq<nat>, k: nat)
    requires StrictlyAscending(r) && k <= |r|
    ensures StrictlyAscending(r[k..])
    ensures forall x :: x in r[k..] <==> x in r && x !in r[..k]
  {
    forall x | x in r && x !in r[..k] ensures x in r[k..] {
      var i :| 0 <= i < |r| && r[i] == x;
      assert i < k <==> i < |r[..k]|;
      assert forall j :: 0 <= j < k ==> r[..k][j] == r[j];
      assert r[k..][i - k] == x;
    }
    forall x | x in r[k..] ensures x in r && x !in r[..k] {
      var i :| 0 <= i < |r| - k && r[k..][i] == x;
      assert forall j :: 0 <= j < k ==> r[j] < r[k + i];
    }
  }

  /** Removing the k oldest removes the first k of the list. */
  lemma AscendingDrop(s: set<nat>, oldest: set<nat>, k: nat)
    requires k <= |s|
    requires forall x :: x in oldest <==> x in Ascending(s)[..k]
    ensures Ascending(s - oldest) == Ascending(s)[k..]
  {
    DropMembers(Ascending(s), k);
    AscendingUnique(Ascending(s - oldest), Ascending(s)[k..]);
  }
}
