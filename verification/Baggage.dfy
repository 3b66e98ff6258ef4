/** NormalizeBaggage and the percent coding it rests on (propagation.go). */
module Baggage {
  import opened Bytes
  import opened Strings
  import opened Members

  const MAX_ENTRIES := 64
  const MAX_HEADER_BYTES := 8192
  const MAX_VALUE_BYTES := 4096
  const MAX_KEY_BYTES := 256
  const EQUALS: byte := 0x3D
  const SEMICOLON: byte := 0x3B
  const PERCENT: byte := 0x25

  // ----- Percent coding ---------------------------------------------------------------------

  /** An escape at the head of v. */
  predicate StartsWithEscape(v: Text) {
    |v| > 2 && v[0] == PERCENT && HexValue(v[1]).Some? && HexValue(v[2]).Some?
  }

  /** rawurldecode: %XX only; an invalid escape stays as written. */
  function Decoded(v: Text): (d: Text)
    ensures |d| <= |v| && (v != [] ==> d != [])
    decreases |v|
  {
    if v == [] then []
    else if StartsWithEscape(v) then
      var hi, lo := HexValue(v[1]).value, HexValue(v[2]).value;
      [hi * 16 + lo] + Decoded(v[3..])
    else [v[0]] + Decoded(v[1..])
  }

  /** The bytes section 2.3 of RFC 3986 leaves unreserved. */
  predicate Unreserved(c: byte) {
    0x61 <= c <= 0x7A || 0x41 <= c <= 0x5A || 0x30 <= c <= 0x39 ||
    c == 0x2D || c == 0x5F || c == 0x2E || c == 0x7E
  }

  function UpperHex(n: nat): byte
    requires n < 16
  {
    if n < 10 then 0x30 + n else 0x37 + n
  }

  function EncodedByte(c: byte): Text {
    if Unreserved(c) then [c] else [PERCENT, UpperHex(c / 16), UpperHex(c % 16)]
  }

  function Encoded(v: Text): Text {
    if v == [] then [] else EncodedByte(v[0]) + Encoded(v[1..])
  }

  method PercentDecode(value: Text) returns (out: Text)
    ensures out == Decoded(value)
  {
    if PERCENT !in value {
      DecodedWithoutPercent(value);
      return value;
    }
    out := [];
    var i := 0;
    assert value[0..] == value;
    assert Decoded(value[|value|..]) == [];
    hide Decoded, HexValue;
    while i < |value|
      invariant 0 <= i <= |value|
      invariant Decoded(value) == out + Decoded(value[i..])
    {
      DecodedAt(value, i);
      if value[i] == PERCENT && i + 2 < |value| {
        var hi, lo := HexValue(value[i + 1]), HexValue(value[i + 2]);
        if hi.Some? && lo.Some? {
          var b: byte := hi.value * 16 + lo.value;
          Rebracket(out, [b], Decoded(value[i + 3..]));
          out := out + [b];
          i := i + 3;
          continue;
        }
      }
      Rebracket(out, [value[i]], Decoded(value[i + 1..]));
      out := out + [value[i]];
      i := i + 1;
    }
    assert out + [] == out;
  }

  /** One step of decoding, at position i. */
  lemma DecodedAt(v: Text, i: nat)
    requires i < |v|
    ensures if v[i] == PERCENT && i + 2 < |v| && HexValue(v[i + 1]).Some? && HexValue(v[i + 2]).Some?
      then Decoded(v[i..]) == [HexValue(v[i + 1]).value * 16 + HexValue(v[i + 2]).value] + Decoded(v[i + 3..])
      else Decoded(v[i..]) == [v[i]] + Decoded(v[i + 1..])
  {
    var rest := v[i..];
    assert rest[1..] == v[i + 1..];
    if |rest| > 2 {
      assert rest[3..] == v[i + 3..] && rest[1] == v[i + 1] && rest[2] == v[i + 2];
    }
  }

  method PercentEncode(value: Text) returns (out: Text)
    ensures out == Encoded(value)
  {
    hide UpperHex, Encoded;
    out := [];
    assert value[0..] == value;
    for i := 0 to |value|
      invariant Encoded(value) == out + Encoded(value[i..])
    {
      ghost var before := out;
      EncodedAt(value, i);
      var c := value[i];
      if Unreserved(c) {
        out := out + [c];
      } else {
        out := out + [PERCENT, UpperHex(c / 16), UpperHex(c % 16)];
      }
      assert out == before + EncodedByte(c);
    }
    assert value[|value|..] == [];
    EncodedNothing();
  }

  lemma EncodedNothing()
    ensures Encoded([]) == []
  {
  }

  lemma EncodedAt(v: Text, i: nat)
    requires i < |v|
    ensures Encoded(v[i..]) == EncodedByte(v[i]) + Encoded(v[i + 1..])
  {
    hide EncodedByte;
    assert v[i..][1..] == v[i + 1..];
  }

  lemma {:induction false} DecodedWithoutPercent(v: Text)
    requires PERCENT !in v
    ensures Decoded(v) == v
    decreases |v|
  {
    if v != [] {
      DecodedWithoutPercent(v[1..]);
    }
  }

  /** Section 2.1 of RFC 3986: decoding undoes encoding, on every byte string. */
  lemma {:induction false} DecodeInvertsEncode(v: Text)
    ensures Decoded(Encoded(v)) == v
    decreases |v|
  {
    if v != [] {
      var c, rest := v[0], Encoded(v[1..]);
      DecodeInvertsEncode(v[1..]);
      if Unreserved(c) {
        assert Encoded(v)[1..] == rest;
      } else {
        assert Encoded(v)[3..] == rest;
        assert HexValue(UpperHex(c / 16)) == Some(c / 16) && HexValue(UpperHex(c % 16)) == Some(c % 16);
      }
      assert v == [c] + v[1..];
    }
  }

  /** What an encoded value is made of. */
  predicate EncodedAlphabet(s: Text) {
    forall i :: 0 <= i < |s| ==> Unreserved(s[i]) || s[i] == PERCENT
  }

  lemma {:induction false} EncodedIsGraphic(v: Text)
    ensures EncodedAlphabet(Encoded(v))
    ensures v != [] ==> Encoded(v) != []
    decreases |v|
  {
    if v != [] {
      EncodedIsGraphic(v[1..]);
    }
  }

  /** The escape of a byte is a percent sign and its two hex digits in upper case; letters, digits
      and four marks need none (sections 2.1 and 2.3 of RFC 3986). */
  lemma EscapeIsUpperHex(c: byte)
    ensures var plain := 'a' as int <= c <= 'z' as int || 'A' as int <= c <= 'Z' as int || '0' as int <= c <= '9' as int ||
        c in Ascii("-_.~");
      EncodedByte(c) == if plain then [c] else ['%' as int, HexDigitOf(c / 16), HexDigitOf(c % 16)]
  {
    assert Ascii("-_.~") == [0x2D, 0x5F, 0x2E, 0x7E];
    UpperHexDigit(c / 16);
    UpperHexDigit(c % 16);
  }

  function HexDigitOf(n: nat): byte
    requires n < 16
  {
    Ascii("0123456789ABCDEF")[n]
  }

  lemma UpperHexDigit(n: nat)
    requires n < 16
    ensures UpperHex(n) == HexDigitOf(n) && HexValue(HexDigitOf(n)) == Some(n)
  {
  }

  // ----- Members ------------------------------------------------------------------------------

  predicate TokenByte(c: byte) {
    0x61 <= c <= 0x7A || 0x41 <= c <= 0x5A || 0x30 <= c <= 0x39 ||
    c in Ascii("!#$%&'*+-.^_`|~")
  }

  /** A token of section 3.2.6 of RFC 7230. */
  predicate ValidKey(key: Text) {
    key != [] && forall i :: 0 <= i < |key| ==> TokenByte(key[i])
  }

  /** A list member without the properties after its first semicolon. */
  function WithoutProperties(member: Text): Text {
    var semi := Find(member, SEMICOLON);
    if semi < |member| then TrimSpace(member[..semi]) else member
  }

  /** The properties of a member, and what white space stands before them, are dropped. */
  lemma PropertiesAreDropped(member: Text, properties: Text)
    requires Free(member, SEMICOLON)
    ensures WithoutProperties(member + [SEMICOLON] + properties) == TrimSpace(member)
    ensures WithoutProperties(member) == member
  {
    var s := member + [SEMICOLON] + properties;
    assert s[..|member|] == member && member[..|member|] == member;
    FindUnique(s, SEMICOLON, |member|);
    FindUnique(member, SEMICOLON, |member|);
  }

  function ParseMember(raw: Text): Option<Entry> {
    var member := WithoutProperties(TrimSpace(raw));
    var equals := Find(member, EQUALS);
    if equals == 0 || equals == |member| then None
    else
      var key, encoded := TrimSpace(member[..equals]), TrimSpace(member[equals + 1..]);
      if key == [] || encoded == [] || |key| > MAX_KEY_BYTES || !ValidKey(key) then None
      else if |Decoded(encoded)| > MAX_VALUE_BYTES then None
      else Some(Entry(key, Decoded(encoded)))
  }

  /** Which members are read, and as what. */
  lemma MemberParts(raw: Text)
    ensures var member := WithoutProperties(TrimSpace(raw));
      var equals := Find(member, EQUALS);
      if equals == 0 || equals == |member| then ParseMember(raw) == None
      else
        var key, encoded := TrimSpace(member[..equals]), TrimSpace(member[equals + 1..]);
        ParseMember(raw) ==
          if key == [] || encoded == [] || |key| > MAX_KEY_BYTES || !ValidKey(key) || |Decoded(encoded)| > MAX_VALUE_BYTES
          then None else Some(Entry(key, Decoded(encoded)))
  {
    hide TrimSpace, Find, ValidKey, Decoded, WithoutProperties;
  }

  function RenderMember(e: Entry): Text {
    e.key + [EQUALS] + Encoded(e.value)
  }

  function Normal(header: Text): Text {
    if |TrimSpace(header)| > MAX_HEADER_BYTES then []
    else Normalized(header, ParseMember, RenderMember, MAX_ENTRIES)
  }

  /** The first 64 valid members with distinct keys, in input order, values re-encoded; and
      nothing at all of a header over 8192 bytes. */
  method NormalizeBaggage(header: Text) returns (r: Text)
    ensures r == Normal(header)
  {
    hide TrimSpace, Split, Join, ValidKey, Kept, HasKey, KeysAre, Rendered, Decoded, Encoded, ParseMember;
    var trimmed := TrimSpace(header);
    if trimmed == [] || |trimmed| > MAX_HEADER_BYTES {
      NothingKept(header);
      return [];
    }
    var raws := Split(trimmed, COMMA);
    var seen: set<Text> := {};
    var members: seq<Text> := [];
    ghost var kept: seq<Entry> := [];
    assert raws[..0] == [];
    NothingKept(header);
    KeysAreNone();
    for i := 0 to |raws|
      invariant kept == Kept(raws[..i], ParseMember, MAX_ENTRIES)
      invariant members == Rendered(kept, RenderMember)
      invariant KeysAre(kept, seen)
    {
      if |members| >= MAX_ENTRIES {
        KeptFull(raws, i, ParseMember, MAX_ENTRIES);
        return Join(members, COMMA);
      }
      KeptStep(raws, i, ParseMember, MAX_ENTRIES);
      MemberParts(raws[i]);
      var member := TrimSpace(raws[i]);
      if member == [] {
        continue;
      }
      var semi := Find(member, SEMICOLON);
      if semi < |member| {
        member := TrimSpace(member[..semi]);
      }
      var equals := Find(member, EQUALS);
      if equals == |member| || equals <= 0 {
        continue;
      }
      var key := TrimSpace(member[..equals]);
      var encoded := TrimSpace(member[equals + 1..]);
      if key == [] || encoded == [] || |key| > MAX_KEY_BYTES || !ValidKey(key) {
        continue;
      }
      var value := PercentDecode(encoded);
      if |value| > MAX_VALUE_BYTES {
        continue;
      }
      KeysAreKeys(kept, seen, key);
      if key in seen {
        continue;
      }
      KeysAreSnoc(kept, seen, Entry(key, value));
      seen := seen + {key};
      var reencoded := PercentEncode(value);
      members := members + [key + [EQUALS] + reencoded];
      RenderedSnoc(kept, Entry(key, value), RenderMember);
      kept := kept + [Entry(key, value)];
    }
    assert raws[..|raws|] == raws;
    return Join(members, COMMA);
  }

  lemma NothingKept(header: Text)
    ensures Kept([], ParseMember, MAX_ENTRIES) == []
    ensures TrimSpace(header) == [] ==> Normalized(header, ParseMember, RenderMember, MAX_ENTRIES) == []
  {
    var none: Text := [];
    assert TrimSpace(none) == none && Split(none, COMMA) == [none];
    assert ParseMember(none) == None;
    assert [none][..0] == [];
    assert Entries([none], ParseMember) == [];
  }

  // ----- Idempotence ----------------------------------------------------------------------------

  lemma TokenText(key: Text)
    requires ValidKey(key)
    ensures Free(key, EQUALS) && Free(key, COMMA) && Free(key, SEMICOLON)
    ensures IsGraphic(key[0]) && IsGraphic(key[|key| - 1])
  {
    TokenBytes();
    assert TokenByte(key[0]) && TokenByte(key[|key| - 1]);
  }

  lemma TokenBytes()
    ensures forall c: byte :: TokenByte(c) ==> IsGraphic(c) && c != EQUALS && c != COMMA && c != SEMICOLON
  {
    var extra := Ascii("!#$%&'*+-.^_`|~");
    assert forall i :: 0 <= i < |extra| ==> IsGraphic(extra[i]) && extra[i] != EQUALS && extra[i] != COMMA && extra[i] != SEMICOLON;
  }

  lemma AlphabetText(s: Text)
    requires EncodedAlphabet(s) && s != []
    ensures Free(s, EQUALS) && Free(s, COMMA) && Free(s, SEMICOLON)
    ensures IsGraphic(s[0]) && IsGraphic(s[|s| - 1])
  {
  }

  lemma EntryIsFaithful(e: Entry)
    requires ValidKey(e.key) && |e.key| <= MAX_KEY_BYTES && 1 <= |e.value| <= MAX_VALUE_BYTES
    ensures Faithful(ParseMember, RenderMember, e)
  {
    hide TrimSpace, Encoded, Decoded, ValidKey, EncodedAlphabet;
    var key, encoded := e.key, Encoded(e.value);
    var r := RenderMember(e);
    EncodedIsGraphic(e.value);
    DecodeInvertsEncode(e.value);
    TokenText(key);
    AlphabetText(encoded);
    assert key != [] by { assert ValidKey(key) ==> key != [] by { hide Encoded; KeyNotEmpty(key); } }
    assert r[0] == key[0] && r[|r| - 1] == encoded[|encoded| - 1];
    TrimGraphic(r);
    TrimGraphic(key);
    TrimGraphic(encoded);
    FindUnique(r, SEMICOLON, |r|);
    assert r[..|r|] == r;
    assert r[..|key|] == key && r[|key| + 1..] == encoded;
    FindUnique(r, EQUALS, |key|);
  }

  lemma KeyNotEmpty(key: Text)
    ensures ValidKey(key) ==> key != []
  {
  }

  lemma KeptIsFaithful(raws: seq<Text>)
    ensures AllFaithful(ParseMember, RenderMember, Kept(raws, ParseMember, MAX_ENTRIES))
  {
    hide Faithful, Decoded, TrimSpace, ValidKey;
    var entries := Entries(raws, ParseMember);
    var kept := Kept(raws, ParseMember, MAX_ENTRIES);
    forall k | 0 <= k < |kept| ensures Faithful(ParseMember, RenderMember, kept[k]) {
      var j := FirstOfEachOrigin(entries, k);
      var i := EntryOrigin(raws, ParseMember, j);
      EntryIsFaithful(kept[k]);
    }
  }

  /** Normalising twice is normalising once if and only if the first result fits in the
      8192 bytes the second pass accepts: percent-encoding can push it past. */
  lemma IdempotentWhenItFits(header: Text)
    ensures Normal(Normal(header)) == Normal(header) <==> |Normal(header)| <= MAX_HEADER_BYTES
  {
    hide ParseMember, TrimSpace, Split, Join, Kept, AllFaithful;
    var raws := Split(TrimSpace(header), COMMA);
    var kept := Kept(raws, ParseMember, MAX_ENTRIES);
    KeptIsFaithful(raws);
    assert TrimSpace([]) == [] by { NothingToTrim(); }
    NothingKept([]);
    if |TrimSpace(header)| <= MAX_HEADER_BYTES {
      if kept == [] {
        assert Normal(header) == [] by { JoinNothing(); }
      } else {
        NormalizedTwice(kept, ParseMember, RenderMember, MAX_ENTRIES);
      }
    }
  }

  /** The failing inputs exist: 4096 exclamation marks come out three times as long, and the
      second pass refuses them. */
  lemma BaggageOutgrowsItsCap()
    ensures var header := Ascii("k=") + seq(MAX_VALUE_BYTES, i => 0x21);
      |header| <= MAX_HEADER_BYTES && Normal(Normal(header)) != Normal(header)
  {
    hide Normal, Encoded, TrimSpace, ParseMember;
    var value: Text := seq(MAX_VALUE_BYTES, i => 0x21);
    var key := Ascii("k");
    var e := Entry(key, value);
    var header := Ascii("k=") + value;
    PlainMember(key, value);
    assert header == key + [EQUALS] + value;
    ReservedTriples(value);
    OneMember(header, e);
    IdempotentWhenItFits(header);
  }

  /** A member whose value holds no escape, separator or property. */
  lemma PlainMember(key: Text, value: Text)
    requires key == Ascii("k") && 1 <= |value| <= MAX_VALUE_BYTES && forall i :: 0 <= i < |value| ==> value[i] == 0x21
    ensures var raw := key + [EQUALS] + value;
      ParseMember(raw) == Some(Entry(key, value)) && Free(raw, COMMA) && TrimSpace(raw) == raw
  {
    hide TrimSpace, Decoded;
    var raw := key + [EQUALS] + value;
    TrimGraphic(raw);
    TrimGraphic(key);
    TrimGraphic(value);
    FindUnique(raw, SEMICOLON, |raw|);
    assert raw[..|raw|] == raw && raw[..1] == key && raw[2..] == value;
    FindUnique(raw, EQUALS, 1);
    DecodedWithoutPercent(value);
  }

  lemma {:induction false} ReservedTriples(v: Text)
    requires forall i :: 0 <= i < |v| ==> !Unreserved(v[i])
    ensures |Encoded(v)| == 3 * |v|
  {
    if v != [] {
      ReservedTriples(v[1..]);
    }
  }

  lemma OneMember(raw: Text, e: Entry)
    requires TrimSpace(raw) == raw && Free(raw, COMMA) && ParseMember(raw) == Some(e) && |raw| <= MAX_HEADER_BYTES
    ensures Normal(raw) == RenderMember(e)
  {
    hide TrimSpace, ParseMember, RenderMember, Kept, Split, Join, Rendered;
    assert Split(raw, COMMA) == [raw] by { SplitNothing(raw, COMMA); }
    assert [raw][..0] == [] && [raw][..1] == [raw];
    NothingKept([]);
    KeptStep([raw], 0, ParseMember, MAX_ENTRIES);
    assert Kept([raw], ParseMember, MAX_ENTRIES) == [e];
    assert Join(Rendered([e], RenderMember), COMMA) == RenderMember(e) by { JoinOne(e); }
  }

  lemma JoinOne(e: Entry)
    ensures Join(Rendered([e], RenderMember), COMMA) == RenderMember(e)
  {
    hide RenderMember;
    assert Rendered([e], RenderMember) == [RenderMember(e)];
  }

  lemma NothingToTrim()
    ensures TrimSpace([]) == []
  {
  }

  lemma JoinNothing()
    ensures Join(Rendered([], RenderMember), COMMA) == []
  {
  }

  // ----- Limits -----------------------------------------------------------------------------------

  /** A key has 1 to 256 characters and a decoded value 1 to 4096: each limit is allowed and one
      more is not. */
  lemma LengthLimits(m: nat, n: nat)
    ensures ParseMember(Letters(m) + [EQUALS] + Letters(n)).Some? <==> 1 <= m <= 256 && 1 <= n <= 4096
  {
    hide TrimSpace, Decoded, ValidKey;
    var key, value := Letters(m), Letters(n);
    var raw := key + [EQUALS] + value;
    assert raw[..m] == key && raw[m + 1..] == value && raw[..|raw|] == raw;
    TrimLetters(m);
    TrimLetters(n);
    assert TrimSpace(raw) == raw by { TrimEnds(m, n); }
    FindUnique(raw, SEMICOLON, |raw|);
    FindUnique(raw, EQUALS, m);
    DecodedWithoutPercent(value);
    assert m > 0 ==> ValidKey(key) by { LettersAreToken(m); }
  }

  lemma LettersAreToken(n: nat)
    ensures n > 0 ==> ValidKey(Letters(n))
  {
  }

  lemma TrimLetters(n: nat)
    ensures TrimSpace(Letters(n)) == Letters(n)
  {
    if n > 0 { TrimGraphic(Letters(n)); }
  }

  lemma TrimEnds(m: nat, n: nat)
    ensures var raw := Letters(m) + [EQUALS] + Letters(n); TrimSpace(raw) == raw
  {
    TrimGraphic(Letters(m) + [EQUALS] + Letters(n));
  }

  /** A header of more than 8192 bytes is dropped whole; otherwise as many members are kept as
      there are valid keys, up to 64, from the front. */
  lemma HeaderLimits(header: Text)
    ensures |TrimSpace(header)| > 8192 ==> Normal(header) == []
    ensures |TrimSpace(header)| <= 8192 ==>
      var all := FirstOfEach(Entries(Split(TrimSpace(header), COMMA), ParseMember));
      Normal(header) == Join(Rendered(if |all| <= 64 then all else all[..64], RenderMember), COMMA)
  {
    hide ParseMember, TrimSpace, Join, Rendered;
  }
}
