/** What the tracestate and baggage normalisers have in common: a comma-separated list is
    reduced to its valid members, one per key, first come first kept, up to a cap. */
module Members {
  import opened Bytes
  import opened Strings

  const COMMA: byte := 0x2C

  datatype Entry = Entry(key: Text, value: Text)

  /** Reads one list member; None drops it. */
  type Parse = Text -> Option<Entry>

  type Render = Entry -> Text

  predicate HasKey(l: seq<Entry>, key: Text) {
    exists i :: 0 <= i < |l| && l[i].key == key
  }

  predicate DistinctKeys(l: seq<Entry>) {
    forall i, j :: 0 <= i < j < |l| ==> l[i].key != l[j].key
  }

  /** The valid members, in input order. */
  function Entries(raws: seq<Text>, parse: Parse): seq<Entry> {
    if raws == [] then []
    else
      var entry := parse(raws[|raws| - 1]);
      Entries(raws[..|raws| - 1], parse) + (if entry.Some? then [entry.value] else [])
  }

  /** Of each key, the first entry. */
  function FirstOfEach(l: seq<Entry>): (d: seq<Entry>)
    ensures DistinctKeys(d) && |d| <= |l|
  {
    if l == [] then []
    else
      var d, last := FirstOfEach(l[..|l| - 1]), l[|l| - 1];
      if HasKey(d, last.key) then d else d + [last]
  }

  function Capped<T>(l: seq<T>, cap: nat): seq<T> {
    if |l| <= cap then l else l[..cap]
  }

  function Rendered(l: seq<Entry>, render: Render): (r: seq<Text>)
    ensures |r| == |l|
  {
    seq(|l|, i requires 0 <= i < |l| => render(l[i]))
  }

  function Kept(raws: seq<Text>, parse: Parse, cap: nat): (d: seq<Entry>)
    ensures DistinctKeys(d) && |d| <= cap
  {
    Capped(FirstOfEach(Entries(raws, parse)), cap)
  }

  /** The header re-rendered from the members it keeps. */
  function Normalized(header: Text, parse: Parse, render: Render, cap: nat): Text {
    Join(Rendered(Kept(Split(TrimSpace(header), COMMA), parse, cap), render), COMMA)
  }

  /** A word of n letters. */
  function Letters(n: nat): Text {
    seq(n, _ => 'k' as int)
  }

  // ----- Member by member -----------------------------------------------------------------

  /** How the kept list grows as members are read. */
  lemma KeptStep(raws: seq<Text>, i: nat, parse: Parse, cap: nat)
    requires i < |raws|
    ensures var before, entry := Kept(raws[..i], parse, cap), parse(raws[i]);
      Kept(raws[..i + 1], parse, cap) ==
        if |before| >= cap || entry.None? || HasKey(before, entry.value.key) then before
        else before + [entry.value]
  {
    assert raws[..i + 1][..i] == raws[..i] && raws[..i + 1][i] == raws[i];
    var all, next := Entries(raws[..i], parse), Entries(raws[..i + 1], parse);
    if parse(raws[i]).Some? {
      assert next[..|all|] == all;
    } else {
      assert next == all;
    }
  }

  /** Once the cap is reached nothing further is kept. */
  lemma {:induction false} KeptFull(raws: seq<Text>, i: nat, parse: Parse, cap: nat)
    requires i <= |raws| && |Kept(raws[..i], parse, cap)| >= cap
    ensures Kept(raws, parse, cap) == Kept(raws[..i], parse, cap)
    decreases |raws| - i
  {
    hide Kept;
    if i == |raws| {
      assert raws[..i] == raws;
    } else {
      KeptStep(raws, i, parse, cap);
      KeptFull(raws, i + 1, parse, cap);
    }
  }

  /** Every kept entry was read from some member. */
  lemma {:induction false} EntryOrigin(raws: seq<Text>, parse: Parse, k: nat) returns (j: nat)
    requires k < |Entries(raws, parse)|
    ensures j < |raws| && parse(raws[j]) == Some(Entries(raws, parse)[k])
  {
    var init := Entries(raws[..|raws| - 1], parse);
    if k < |init| {
      j := EntryOrigin(raws[..|raws| - 1], parse, k);
    } else {
      j := |raws| - 1;
    }
  }

  lemma {:induction false} FirstOfEachOrigin(l: seq<Entry>, k: nat) returns (j: nat)
    requires k < |FirstOfEach(l)|
    ensures j < |l| && l[j] == FirstOfEach(l)[k]
    ensures forall i :: 0 <= i < j ==> l[i].key != l[j].key
  {
    var init := l[..|l| - 1];
    if k < |FirstOfEach(init)| {
      j := FirstOfEachOrigin(init, k);
    } else {
      j := |l| - 1;
      forall i | 0 <= i < j ensures l[i].key != l[j].key {
        KeyIsKept(init, i);
      }
    }
  }

  /** No key is lost: an entry that is not first has its key kept all the same. */
  lemma {:induction false} KeyIsKept(l: seq<Entry>, i: nat)
    requires i < |l|
    ensures HasKey(FirstOfEach(l), l[i].key)
  {
    var init, last := l[..|l| - 1], l[|l| - 1];
    var d := FirstOfEach(init);
    if i < |init| {
      KeyIsKept(init, i);
      var k :| 0 <= k < |d| && d[k].key == l[i].key;
      assert FirstOfEach(l)[k] == d[k];
    } else if !HasKey(d, last.key) {
      assert FirstOfEach(l)[|d|] == last;
    }
  }

  lemma RenderedSnoc(l: seq<Entry>, e: Entry, render: Render)
    ensures Rendered(l + [e], render) == Rendered(l, render) + [render(e)]
  {
  }

  /** `seen` are the keys of l. */
  predicate KeysAre(l: seq<Entry>, seen: set<Text>) {
    (forall k :: k in seen ==> HasKey(l, k)) && (forall i :: 0 <= i < |l| ==> l[i].key in seen)
  }

  lemma KeysAreNone()
    ensures KeysAre([], {})
  {
  }

  lemma KeysAreSnoc(l: seq<Entry>, seen: set<Text>, e: Entry)
    requires KeysAre(l, seen)
    ensures KeysAre(l + [e], seen + {e.key})
  {
    HasKeySnoc(l, e);
    hide HasKey;
  }

  lemma KeysAreKeys(l: seq<Entry>, seen: set<Text>, key: Text)
    requires KeysAre(l, seen)
    ensures key in seen <==> HasKey(l, key)
  {
  }

  lemma HasKeySnoc(l: seq<Entry>, e: Entry)
    ensures forall k :: HasKey(l + [e], k) <==> HasKey(l, k) || k == e.key
  {
    forall k ensures HasKey(l + [e], k) <==> HasKey(l, k) || k == e.key {
      assert (l + [e])[|l|] == e;
      if HasKey(l, k) {
        var i :| 0 <= i < |l| && l[i].key == k;
        assert (l + [e])[i] == l[i];
      }
    }
  }

  // ----- Normalising again ------------------------------------------------------------------

  /** Reading what was rendered gives the entry back, and rendering is safe inside a list. */
  predicate Faithful(parse: Parse, render: Render, e: Entry) {
    var r := render(e);
    r != [] && IsGraphic(r[0]) && IsGraphic(r[|r| - 1]) && Free(r, COMMA) && parse(r) == Some(e)
  }

  predicate AllFaithful(parse: Parse, render: Render, l: seq<Entry>) {
    forall i :: 0 <= i < |l| ==> Faithful(parse, render, l[i])
  }

  lemma {:induction false} EntriesOfRendered(l: seq<Entry>, parse: Parse, render: Render)
    requires AllFaithful(parse, render, l)
    ensures Entries(Rendered(l, render), parse) == l
  {
    if l != [] {
      var init := l[..|l| - 1];
      EntriesOfRendered(init, parse, render);
      assert Rendered(l, render)[..|l| - 1] == Rendered(init, render);
      assert Faithful(parse, render, l[|l| - 1]);
    }
  }

  lemma {:induction false} FirstOfDistinct(l: seq<Entry>)
    requires DistinctKeys(l)
    ensures FirstOfEach(l) == l
  {
    if l != [] {
      var init, last := l[..|l| - 1], l[|l| - 1];
      FirstOfDistinct(init);
      assert !HasKey(init, last.key) && init + [last] == l;
    }
  }

  lemma {:induction false} JoinEnds(parts: seq<Text>)
    requires parts != [] && forall i :: 0 <= i < |parts| ==>
      parts[i] != [] && IsGraphic(parts[i][0]) && IsGraphic(parts[i][|parts[i]| - 1])
    ensures var s := Join(parts, COMMA); s != [] && IsGraphic(s[0]) && IsGraphic(s[|s| - 1])
  {
    if |parts| > 1 {
      JoinEnds(parts[1..]);
    }
  }

  /** A list that is already normal is left as it is. */
  lemma NormalizedTwice(l: seq<Entry>, parse: Parse, render: Render, cap: nat)
    requires AllFaithful(parse, render, l) && DistinctKeys(l) && 0 < |l| <= cap
    ensures var s := Join(Rendered(l, render), COMMA);
      s != [] && TrimSpace(s) == s && Normalized(s, parse, render, cap) == s
  {
    hide TrimSpace, Split, Join, Entries, FirstOfEach;
    var parts := Rendered(l, render);
    forall i | 0 <= i < |parts|
      ensures parts[i] != [] && IsGraphic(parts[i][0]) && IsGraphic(parts[i][|parts[i]| - 1]) && Free(parts[i], COMMA)
    {
      assert Faithful(parse, render, l[i]);
    }
    JoinEnds(parts);
    TrimGraphic(Join(parts, COMMA));
    SplitJoin(parts, COMMA);
    EntriesOfRendered(l, parse, render);
    FirstOfDistinct(l);
  }
}
