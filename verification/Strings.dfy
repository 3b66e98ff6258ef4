/** The parts of Go's strings package that propagation relies on, on bytes: TrimSpace (which
    trims the UTF-8 encodings of unicode.IsSpace), Index, Split and Join on one byte. */
module Strings {
  import opened Bytes

  // ----- TrimSpace ----------------------------------------------------------------------

  /** The UTF-8 encoding of one white-space character. */
  predicate IsSpace(t: Text) {
    (|t| == 1 && (9 <= t[0] <= 13 || t[0] == 0x20)) ||
    (|t| == 2 && t[0] == 0xC2 && (t[1] == 0x85 || t[1] == 0xA0)) ||
    (|t| == 3 && t[0] == 0xE1 && t[1] == 0x9A && t[2] == 0x80) ||
    (|t| == 3 && t[0] == 0xE2 && t[1] == 0x80 &&
      (0x80 <= t[2] <= 0x8A || t[2] == 0xA8 || t[2] == 0xA9 || t[2] == 0xAF)) ||
    (|t| == 3 && t[0] == 0xE2 && t[1] == 0x81 && t[2] == 0x9F) ||
    (|t| == 3 && t[0] == 0xE3 && t[1] == 0x80 && t[2] == 0x80)
  }

  /** The length of the white-space character s starts with, 0 if there is none. */
  function SpaceInFront(s: Text): (n: nat)
    ensures n <= |s|
  {
    if |s| >= 1 && IsSpace(s[..1]) then 1
    else if |s| >= 2 && IsSpace(s[..2]) then 2
    else if |s| >= 3 && IsSpace(s[..3]) then 3
    else 0
  }

  function SpaceBehind(s: Text): (n: nat)
    ensures n <= |s|
  {
    if |s| >= 1 && IsSpace(s[|s| - 1..]) then 1
    else if |s| >= 2 && IsSpace(s[|s| - 2..]) then 2
    else if |s| >= 3 && IsSpace(s[|s| - 3..]) then 3
    else 0
  }

  function TrimLeft(s: Text): Text
    decreases |s|
  {
    if SpaceInFront(s) == 0 then s else TrimLeft(s[SpaceInFront(s)..])
  }

  function TrimRight(s: Text): Text
    decreases |s|
  {
    if SpaceBehind(s) == 0 then s else TrimRight(s[..|s| - SpaceBehind(s)])
  }

  function TrimSpace(s: Text): Text {
    TrimRight(TrimLeft(s))
  }

  /** A printable ASCII byte that is not a space. */
  predicate IsGraphic(b: byte) {
    0x21 <= b <= 0x7E
  }

  /** A string with a graphic character at either end has nothing to trim. */
  lemma TrimGraphic(s: Text)
    requires s != [] && IsGraphic(s[0]) && IsGraphic(s[|s| - 1])
    ensures TrimSpace(s) == s
  {
    assert s[..1][0] == s[0];
    assert |s| >= 2 ==> s[..2][0] == s[0];
    assert |s| >= 3 ==> s[..3][0] == s[0];
    assert SpaceInFront(s) == 0;
    assert s[|s| - 1..][0] == s[|s| - 1];
    assert |s| >= 2 ==> s[|s| - 2..][1] == s[|s| - 1];
    assert |s| >= 3 ==> s[|s| - 3..][2] == s[|s| - 1];
    assert SpaceBehind(s) == 0;
  }

  /** The code points unicode.IsSpace accepts. */
  predicate IsSpaceCode(c: nat) {
    9 <= c <= 13 || c == 0x20 || c == 0x85 || c == 0xA0 || c == 0x1680 || 0x2000 <= c <= 0x200A ||
    c == 0x2028 || c == 0x2029 || c == 0x202F || c == 0x205F || c == 0x3000
  }

  /** A white-space character is the UTF-8 encoding of one of them. */
  lemma SpacesAreEncoded(t: Text)
    ensures IsSpace(t) <==> exists c :: 0 <= c < 0x3001 && IsSpaceCode(c) && t == Utf8(c)
  {
    if IsSpace(t) {
      var c := CodeOf(t);
    } else {
      forall c | 0 <= c < 0x3001 && IsSpaceCode(c) ensures t != Utf8(c) {
        EncodedIsSpace(c);
      }
    }
  }

  lemma EncodedIsSpace(c: nat)
    requires IsSpaceCode(c)
    ensures IsSpace(Utf8(c))
  {
  }

  lemma CodeOf(t: Text) returns (c: nat)
    requires IsSpace(t)
    ensures c < 0x3001 && IsSpaceCode(c) && t == Utf8(c)
  {
    var t0: nat := t[0];
    if |t| == 1 {
      c := t0;
    } else {
      var t1: nat := t[1];
      if |t| == 2 {
        c := (t0 - 0xC0) * 64 + (t1 - 0x80);
      } else {
        var t2: nat := t[2];
        c := (t0 - 0xE0) * 4096 + (t1 - 0x80) * 64 + (t2 - 0x80);
      }
    }
  }

  ghost predicate AllSpaces(s: Text) {
    exists parts: seq<Text> :: Flatten(parts) == s && forall i :: 0 <= i < |parts| ==> IsSpace(parts[i])
  }

  lemma NoSpaces()
    ensures AllSpaces([])
  {
    var none: seq<Text> := [];
    assert Flatten(none) == [];
  }

  lemma SpacesJoin(a: Text, b: Text)
    requires AllSpaces(a) && AllSpaces(b)
    ensures AllSpaces(a + b)
  {
    var p: seq<Text> :| Flatten(p) == a && forall i :: 0 <= i < |p| ==> IsSpace(p[i]);
    var q: seq<Text> :| Flatten(q) == b && forall i :: 0 <= i < |q| ==> IsSpace(q[i]);
    FlattenAppend(p, q);
    assert forall i :: 0 <= i < |p + q| ==> IsSpace((p + q)[i]);
  }

  lemma OneSpace(t: Text)
    requires IsSpace(t)
    ensures AllSpaces(t)
  {
    FlattenSnoc<byte>([], t);
    FlattenNothing<byte>();
    assert [] + [t] == [t];
    assert Flatten([t]) == t;
  }

  lemma TrimOnce(s: Text)
    ensures TrimLeft(s) == if SpaceInFront(s) == 0 then s else TrimLeft(s[SpaceInFront(s)..])
  {
    hide SpaceInFront;
  }

  lemma SpacesAtEnds(s: Text)
    ensures SpaceInFront(s) > 0 ==> IsSpace(s[..SpaceInFront(s)])
    ensures SpaceBehind(s) > 0 ==> IsSpace(s[|s| - SpaceBehind(s)..])
  {
    hide IsSpace;
  }

  lemma Rebracket(a: Text, b: Text, c: Text)
    ensures a + (b + c) == (a + b) + c
  {
  }

  lemma {:induction false} TrimLeftIs(s: Text) returns (front: Text)
    ensures AllSpaces(front) && s == front + TrimLeft(s) && SpaceInFront(TrimLeft(s)) == 0
    decreases |s|
  {
    hide AllSpaces, SpaceInFront, IsSpace, TrimLeft;
    var n := SpaceInFront(s);
    SpacesAtEnds(s);
    TrimOnce(s);
    if n == 0 {
      NoSpaces();
      front := [];
    } else {
      var first, more := s[..n], s[n..];
      var rest := TrimLeftIs(more);
      OneSpace(first);
      SpacesJoin(first, rest);
      assert s == first + more;
      front := first + rest;
      Rebracket(first, rest, TrimLeft(more));
    }
  }

  lemma {:induction false} TrimRightIs(s: Text) returns (back: Text)
    ensures AllSpaces(back) && s == TrimRight(s) + back && SpaceBehind(TrimRight(s)) == 0
    decreases |s|
  {
    hide AllSpaces, SpaceBehind, IsSpace;
    var n := SpaceBehind(s);
    SpacesAtEnds(s);
    if n == 0 {
      NoSpaces();
      back := [];
    } else {
      var init := s[..|s| - n];
      var rest := TrimRightIs(init);
      OneSpace(s[|s| - n..]);
      SpacesJoin(rest, s[|s| - n..]);
      assert s == init + s[|s| - n..];
      back := rest + s[|s| - n..];
    }
  }

  /** TrimSpace takes white space off both ends, and all of it. */
  lemma TrimSpaceIs(s: Text) returns (front: Text, back: Text)
    ensures AllSpaces(front) && AllSpaces(back) && s == front + TrimSpace(s) + back
    ensures SpaceInFront(TrimSpace(s)) == 0 && SpaceBehind(TrimSpace(s)) == 0
  {
    hide AllSpaces, SpaceInFront, SpaceBehind, TrimLeft, TrimRight;
    front := TrimLeftIs(s);
    back := TrimRightIs(TrimLeft(s));
    FrontOfPrefix(TrimSpace(s), back);
  }

  lemma FrontOfPrefix(t: Text, back: Text)
    requires SpaceInFront(t + back) == 0
    ensures SpaceInFront(t) == 0
  {
    var s := t + back;
    assert |t| >= 1 ==> t[..1] == s[..1];
    assert |t| >= 2 ==> t[..2] == s[..2];
    assert |t| >= 3 ==> t[..3] == s[..3];
  }

  // ----- Index, Split, Join -----------------------------------------------------------------

  predicate Free(s: Text, c: byte) {
    c !in s
  }

  /** The position of the first c, |s| when there is none. */
  function Find(s: Text, c: byte): (i: nat)
    ensures i <= |s| && Free(s[..i], c)
    ensures i < |s| ==> s[i] == c
  {
    if s == [] || s[0] == c then 0
    else
      var i := 1 + Find(s[1..], c);
      assert s[..i] == [s[0]] + s[1..][..i - 1];
      i
  }

  function Split(s: Text, sep: byte): (parts: seq<Text>)
    ensures parts != []
    decreases |s|
  {
    var i := Find(s, sep);
    if i == |s| then [s] else [s[..i]] + Split(s[i + 1..], sep)
  }

  function Join(parts: seq<Text>, sep: byte): Text {
    if parts == [] then []
    else if |parts| == 1 then parts[0]
    else parts[0] + [sep] + Join(parts[1..], sep)
  }

  lemma {:induction false} FindUnique(s: Text, c: byte, i: nat)
    requires i <= |s| && Free(s[..i], c) && (i < |s| ==> s[i] == c)
    ensures Find(s, c) == i
  {
    var j := Find(s, c);
    assert forall k :: 0 <= k < i ==> s[..i][k] == s[k];
    assert forall k :: 0 <= k < j ==> s[..j][k] == s[k];
  }

  lemma {:induction false} JoinSplit(s: Text, sep: byte)
    ensures Join(Split(s, sep), sep) == s
    ensures forall i :: 0 <= i < |Split(s, sep)| ==> Free(Split(s, sep)[i], sep)
    decreases |s|
  {
    hide Free, Join;
    var i := Find(s, sep);
    if i < |s| {
      var head, rest := s[..i], s[i + 1..];
      JoinSplit(rest, sep);
      JoinHead(head, Split(rest, sep), sep);
      assert s == head + [sep] + rest;
    } else {
      assert s[..i] == s;
      JoinOne(s, sep);
    }
  }

  lemma JoinHead(head: Text, parts: seq<Text>, sep: byte)
    requires parts != []
    ensures Join([head] + parts, sep) == head + [sep] + Join(parts, sep)
  {
    assert ([head] + parts)[1..] == parts;
  }

  lemma JoinOne(s: Text, sep: byte)
    ensures Join([s], sep) == s
  {
  }

  lemma SplitNothing(s: Text, sep: byte)
    requires Free(s, sep)
    ensures Split(s, sep) == [s]
  {
    assert s[..|s|] == s;
    FindUnique(s, sep, |s|);
  }

  lemma SplitHead(head: Text, rest: Text, sep: byte)
    requires Free(head, sep)
    ensures Split(head + [sep] + rest, sep) == [head] + Split(rest, sep)
  {
    var s, i := head + [sep] + rest, |head|;
    assert s[..i] == head && s[i + 1..] == rest;
    FindUnique(s, sep, i);
  }

  lemma {:induction false} SplitJoin(parts: seq<Text>, sep: byte)
    requires parts != [] && forall i :: 0 <= i < |parts| ==> Free(parts[i], sep)
    ensures Split(Join(parts, sep), sep) == parts
    decreases |parts|
  {
    hide Split, Free;
    if |parts| == 1 {
      SplitNothing(parts[0], sep);
      assert parts == [parts[0]];
    } else {
      SplitJoin(parts[1..], sep);
      SplitHead(parts[0], Join(parts[1..], sep), sep);
      assert parts == [parts[0]] + parts[1..];
    }
  }
}
