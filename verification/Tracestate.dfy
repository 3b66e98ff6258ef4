/** NormalizeTracestate (propagation.go): section 3.3 of W3C Trace Context. */
module Tracestate {
  import opened Bytes
  import opened Strings
  import opened Members

  const MAX_ENTRIES := 32
  const EQUALS: byte := 0x3D
  const AT: byte := 0x40

  predicate KeyStart(c: byte, digitsAllowed: bool) {
    0x61 <= c <= 0x7A || (digitsAllowed && 0x30 <= c <= 0x39)
  }

  predicate KeyTail(tail: Text) {
    forall i :: 0 <= i < |tail| ==>
      0x61 <= tail[i] <= 0x7A || 0x30 <= tail[i] <= 0x39 ||
      tail[i] == 0x5F || tail[i] == 0x2D || tail[i] == 0x2A || tail[i] == 0x2F
  }

  /** simple-key, or tenant@system. */
  predicate ValidKey(key: Text) {
    var at := Find(key, AT);
    if at < |key| then
      var tenant, system := key[..at], key[at + 1..];
      1 <= |tenant| <= 241 && 1 <= |system| <= 14 &&
      KeyStart(tenant[0], true) && KeyTail(tenant[1..]) &&
      KeyStart(system[0], false) && KeyTail(system[1..])
    else
      1 <= |key| <= 256 && KeyStart(key[0], false) && KeyTail(key[1..])
  }

  predicate ValidValue(value: Text) {
    1 <= |value| <= 256 &&
    (forall i :: 0 <= i < |value| ==> 0x20 <= value[i] <= 0x7E && value[i] != COMMA && value[i] != EQUALS) &&
    value[|value| - 1] != 0x20
  }

  function ParseMember(raw: Text): Option<Entry> {
    var member := TrimSpace(raw);
    var equals := Find(member, EQUALS);
    if equals == 0 || equals == |member| then None
    else
      var key, value := member[..equals], member[equals + 1..];
      if ValidKey(key) && ValidValue(value) then Some(Entry(key, value)) else None
  }

  lemma MemberParts(raw: Text)
    ensures var member := TrimSpace(raw);
      var equals := Find(member, EQUALS);
      ParseMember(raw) ==
        if equals == 0 || equals == |member| || !ValidKey(member[..equals]) || !ValidValue(member[equals + 1..]) then None
        else Some(Entry(member[..equals], member[equals + 1..]))
  {
    hide TrimSpace, Find, ValidKey, ValidValue;
  }

  function RenderMember(e: Entry): Text {
    e.key + [EQUALS] + e.value
  }

  function Normal(header: Text): Text {
    Normalized(header, ParseMember, RenderMember, MAX_ENTRIES)
  }

  /** The first 32 valid members with distinct keys, in input order. */
  method NormalizeTracestate(header: Text) returns (r: Text)
    ensures r == Normal(header)
  {
    hide TrimSpace, Split, Join, ValidKey, ValidValue, Kept, HasKey, KeysAre, Rendered, ParseMember;
    var trimmed := TrimSpace(header);
    var raws := Split(trimmed, COMMA);
    if trimmed == [] {
      NothingKept(header);
      return [];
    }
    var seen: set<Text> := {};
    var members: seq<Text> := [];
    ghost var kept: seq<Entry> := [];
    assert raws[..0] == [] && Kept([], ParseMember, MAX_ENTRIES) == [] by { NothingKept(header); }
    KeysAreNone();
    for i := 0 to |raws|
      invariant kept == Kept(raws[..i], ParseMember, MAX_ENTRIES)
      invariant members == Rendered(kept, RenderMember)
      invariant KeysAre(kept, seen)
    {
      if |members| >= MAX_ENTRIES {
        KeptFull(raws, i, ParseMember, MAX_ENTRIES);
        return Join(members, COMMA);
      }
      KeptStep(raws, i, ParseMember, MAX_ENTRIES);
      MemberParts(raws[i]);
      var member := TrimSpace(raws[i]);
      if member == [] {
        continue;
      }
      var equals := Find(member, EQUALS);
      if equals == |member| || equals <= 0 {
        continue;
      }
      var key, value := member[..equals], member[equals + 1..];
      if !ValidKey(key) || !ValidValue(value) {
        continue;
      }
      KeysAreKeys(kept, seen, key);
      if key in seen {
        continue;
      }
      KeysAreSnoc(kept, seen, Entry(key, value));
      seen := seen + {key};
      members := members + [key + [EQUALS] + value];
      RenderedSnoc(kept, Entry(key, value), RenderMember);
      kept := kept + [Entry(key, value)];
    }
    assert raws[..|raws|] == raws;
    return Join(members, COMMA);
  }

  /** Nothing is kept of an empty list, nor of a list of one empty member. */
  lemma NothingKept(header: Text)
    ensures Kept([], ParseMember, MAX_ENTRIES) == []
    ensures Normalized([], ParseMember, RenderMember, MAX_ENTRIES) == []
    ensures TrimSpace(header) == [] ==> Normal(header) == []
  {
    var none: Text := [];
    assert TrimSpace(none) == none && Split(none, COMMA) == [none];
    assert ParseMember(none) == None;
    assert [none][..0] == [];
    assert Entries([none], ParseMember) == [];
  }

  // ----- Idempotence --------------------------------------------------------------------------

  lemma ValidKeyText(key: Text)
    requires ValidKey(key)
    ensures key != [] && IsGraphic(key[0]) && Free(key, EQUALS) && Free(key, COMMA)
  {
    var at := Find(key, AT);
    if at < |key| {
      var tenant, system := key[..at], key[at + 1..];
      assert key == [tenant[0]] + tenant[1..] + [AT] + [system[0]] + system[1..];
    } else {
      assert key == [key[0]] + key[1..];
    }
  }

  lemma ParsedIsFaithful(raw: Text)
    requires ParseMember(raw).Some?
    ensures Faithful(ParseMember, RenderMember, ParseMember(raw).value)
  {
    hide TrimSpace;
    var member := TrimSpace(raw);
    var equals := Find(member, EQUALS);
    var e := ParseMember(raw).value;
    var r := RenderMember(e);
    ValidKeyText(e.key);
    assert r[0] == e.key[0] && r[|r| - 1] == e.value[|e.value| - 1];
    TrimGraphic(r);
    assert r[..|e.key|] == e.key && r[|e.key| + 1..] == e.value;
    FindUnique(r, EQUALS, |e.key|);
  }

  lemma KeptIsFaithful(raws: seq<Text>)
    ensures AllFaithful(ParseMember, RenderMember, Kept(raws, ParseMember, MAX_ENTRIES))
  {
    hide Faithful, ParseMember;
    var entries := Entries(raws, ParseMember);
    var kept := Kept(raws, ParseMember, MAX_ENTRIES);
    forall k | 0 <= k < |kept| ensures Faithful(ParseMember, RenderMember, kept[k]) {
      var j := FirstOfEachOrigin(entries, k);
      var i := EntryOrigin(raws, ParseMember, j);
      ParsedIsFaithful(raws[i]);
    }
  }

  /** Normalising twice is normalising once, on every byte string. */
  lemma Idempotent(header: Text)
    ensures Normal(Normal(header)) == Normal(header)
  {
    hide ParseMember, TrimSpace, Split, Join, Kept, AllFaithful;
    var raws := Split(TrimSpace(header), COMMA);
    var kept := Kept(raws, ParseMember, MAX_ENTRIES);
    KeptIsFaithful(raws);
    if kept == [] {
      assert Normal(header) == [] by { JoinNothing(); }
      NothingKept(header);
    } else {
      NormalizedTwice(kept, ParseMember, RenderMember, MAX_ENTRIES);
    }
  }

  lemma JoinNothing()
    ensures Join(Rendered([], RenderMember), COMMA) == []
  {
  }

  // ----- The grammar -------------------------------------------------------------------------------

  /** What a key is made of behind its first character. */
  lemma KeyCharacters(tail: Text)
    ensures KeyTail(tail) <==> forall c :: c in tail ==>
      'a' as int <= c <= 'z' as int || '0' as int <= c <= '9' as int || c in Ascii("_-*/")
  {
    assert Ascii("_-*/") == [0x5F, 0x2D, 0x2A, 0x2F];
    assert forall i :: 0 <= i < |tail| ==> tail[i] in tail;
  }

  /** A simple key has 1 to 256 characters, a tenant 1 to 241 and its system 1 to 14, a value 1 to
      256: each limit is allowed and one more is not. */
  lemma LengthLimits(m: nat, n: nat)
    ensures ValidKey(Letters(n)) <==> 1 <= n <= 256
    ensures ValidKey(Letters(m) + [AT] + Letters(n)) <==> 1 <= m <= 241 && 1 <= n <= 14
    ensures ValidValue(Letters(n)) <==> 1 <= n <= 256
  {
    assert Letters(n)[..n] == Letters(n);
    FindUnique(Letters(n), AT, n);
    var key := Letters(m) + [AT] + Letters(n);
    assert key[..m] == Letters(m) && key[m + 1..] == Letters(n);
    FindUnique(key, AT, m);
  }

  /** A tenant may start with a digit; a simple key and a system may not. */
  lemma LeadingDigits(digit: byte)
    requires '0' as int <= digit <= '9' as int
    ensures !ValidKey([digit]) && ValidKey([digit] + [AT] + Letters(1)) && !ValidKey(Letters(1) + [AT] + [digit])
  {
    var simple, tenant, system: Text := [digit], [digit] + [AT] + Letters(1), Letters(1) + [AT] + [digit];
    assert simple[..1] == simple;
    FindUnique(simple, AT, 1);
    assert tenant[..1] == [digit] && tenant[2..] == Letters(1);
    FindUnique(tenant, AT, 1);
    assert system[..1] == Letters(1) && system[2..] == [digit];
    FindUnique(system, AT, 1);
  }

  /** As many members are kept as there are valid keys, up to 32, from the front. */
  lemma KeepsThirtyTwo(raws: seq<Text>)
    ensures var all := FirstOfEach(Entries(raws, ParseMember));
      Kept(raws, ParseMember, MAX_ENTRIES) == if |all| <= 32 then all else all[..32]
  {
    hide ParseMember;
  }
}
