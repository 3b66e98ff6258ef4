/** The JSON header of a spool frame: what encoding/json writes for the three-field
    frameHeader, in declaration order, and a reader for that layout. */
module JsonHeader {
  import opened Bytes

  datatype Header = Header(signal: Text, encoding: Text, id: Text)

  const QUOTE: byte := 0x22
  const BACKSLASH: byte := 0x5C
  const LETTER_U: byte := 0x75

  function HexDigit(n: nat): byte
    requires n < 16
  {
    if n < 10 then 0x30 + n else 0x57 + n
  }

  // ----- Writing --------------------------------------------------------------------

  /** The two-character escapes Go writes: \b \t \n \f \r, the quote and the backslash. */
  function ShortEscape(b: byte): Option<byte> {
    if b == QUOTE || b == BACKSLASH then Some(b)
    else if b == 0x08 then Some(0x62)
    else if b == 0x09 then Some(0x74)
    else if b == 0x0A then Some(0x6E)
    else if b == 0x0C then Some(0x66)
    else if b == 0x0D then Some(0x72)
    else None
  }

  /** Other controls and the HTML-sensitive characters take the six-character form. */
  predicate NeedsUnicodeEscape(b: byte) {
    b < 0x20 || b == 0x3C || b == 0x3E || b == 0x26
  }

  function EscapeByte(b: byte): Text {
    if ShortEscape(b).Some? then [BACKSLASH, ShortEscape(b).value]
    else if NeedsUnicodeEscape(b) then
      [BACKSLASH, LETTER_U, 0x30, 0x30, HexDigit(b / 16), HexDigit(b % 16)]
    else [b]
  }

  predicate IsTail(b: byte) {
    0x80 <= b <= 0xBF
  }

  /** The length of the UTF-8 character s starts with, 0 if its bytes are not one (table 3-7 of
      the Unicode Standard: no overlong forms, no surrogates, nothing past U+10FFFF). */
  function RuneLength(s: Text): (n: nat)
    requires s != []
    ensures n <= |s|
  {
    if s[0] < 0x80 then 1
    else if |s| >= 2 && 0xC2 <= s[0] <= 0xDF && IsTail(s[1]) then 2
    else if |s| >= 3 && 0xE0 <= s[0] <= 0xEF && IsTail(s[1]) && IsTail(s[2]) &&
      (s[0] == 0xE0 ==> s[1] >= 0xA0) && (s[0] == 0xED ==> s[1] <= 0x9F) then 3
    else if |s| >= 4 && 0xF0 <= s[0] <= 0xF4 && IsTail(s[1]) && IsTail(s[2]) && IsTail(s[3]) &&
      (s[0] == 0xF0 ==> s[1] >= 0x90) && (s[0] == 0xF4 ==> s[1] <= 0x8F) then 4
    else 0
  }

  /** U+2028 or U+2029, the line separators, in UTF-8. */
  predicate StartsWithLineSeparator(s: Text) {
    |s| >= 3 && s[0] == 0xE2 && s[1] == 0x80 && (s[2] == 0xA8 || s[2] == 0xA9)
  }

  /** How many bytes of s are written at once: one character, or one byte that is in none. */
  function HeadLength(s: Text): (n: nat)
    requires s != []
    ensures 1 <= n <= |s|
  {
    if RuneLength(s) == 0 then 1 else RuneLength(s)
  }

  /** What is written for them. A byte in no character becomes an escaped U+FFFD. */
  function EscapeHead(s: Text): Text
    requires s != []
  {
    if s[0] < 0x80 then EscapeByte(s[0])
    else if RuneLength(s) == 0 then [BACKSLASH, LETTER_U, 0x66, 0x66, 0x66, 0x64]
    else if StartsWithLineSeparator(s) then [BACKSLASH, LETTER_U, 0x32, 0x30, 0x32, HexDigit(s[2] - 0xA0)]
    else s[..RuneLength(s)]
  }

  function Escape(s: Text): Text
    decreases |s|
  {
    if s == [] then [] else EscapeHead(s) + Escape(s[HeadLength(s)..])
  }

  predicate ValidUtf8(s: Text)
    decreases |s|
  {
    s == [] || (RuneLength(s) > 0 && ValidUtf8(s[RuneLength(s)..]))
  }

  const REPLACEMENT: Text := [0xEF, 0xBF, 0xBD]

  /** The string with U+FFFD for every byte that is in no character. */
  function Sanitized(s: Text): Text
    decreases |s|
  {
    if s == [] then []
    else (if RuneLength(s) == 0 then REPLACEMENT else s[..RuneLength(s)]) + Sanitized(s[HeadLength(s)..])
  }

  function Quoted(s: Text): Text {
    [QUOTE] + (Escape(s) + [QUOTE])
  }

  function MarshalHeader(h: Header): Text {
    Ascii("{\"signal\":") + (Quoted(h.signal) +
    (Ascii(",\"encoding\":") + (Quoted(h.encoding) +
    (Ascii(",\"id\":") + (Quoted(h.id) + Ascii("}"))))))
  }

  // ----- Reading --------------------------------------------------------------------

  /** The escapes of section 7 of RFC 8259 that name one character. */
  function ShortUnescape(b: byte): Option<byte> {
    if b == QUOTE || b == BACKSLASH || b == 0x2F then Some(b)
    else if b == 0x62 then Some(0x08)
    else if b == 0x74 then Some(0x09)
    else if b == 0x6E then Some(0x0A)
    else if b == 0x66 then Some(0x0C)
    else if b == 0x72 then Some(0x0D)
    else None
  }

  /** The code unit of a \uXXXX escape at the head of t. */
  function CodeUnit(t: Text): (u: Option<nat>)
    ensures u.Some? ==> |t| >= 6 && u.value < 0x1_0000
  {
    if |t| >= 6 && t[0] == BACKSLASH && t[1] == LETTER_U &&
       HexValue(t[2]).Some? && HexValue(t[3]).Some? && HexValue(t[4]).Some? && HexValue(t[5]).Some?
    then
      Some(HexValue(t[2]).value * 4096 + HexValue(t[3]).value * 256 +
           HexValue(t[4]).value * 16 + HexValue(t[5]).value)
    else None
  }

  function Prepend(head: Text, rest: Option<(Text, Text)>): Option<(Text, Text)> {
    if rest.Some? then Some((head + rest.value.0, rest.value.1)) else None
  }

  /** Reads up to the closing quote; returns the string and what follows it. A surrogate
      pair is one character, an unpaired surrogate the replacement character. */
  function ReadString(t: Text): (r: Option<(Text, Text)>)
    decreases |t|
  {
    if t == [] then None
    else if t[0] == QUOTE then Some(([], t[1..]))
    else if t[0] == BACKSLASH then
      if |t| >= 2 && ShortUnescape(t[1]).Some? then
        Prepend([ShortUnescape(t[1]).value], ReadString(t[2..]))
      else if CodeUnit(t).Some? then
        var unit := CodeUnit(t).value;
        var next := CodeUnit(t[6..]);
        if 0xD800 <= unit < 0xDC00 && next.Some? && 0xDC00 <= next.value < 0xE000 then
          Prepend(Utf8(0x1_0000 + (unit - 0xD800) * 1024 + (next.value - 0xDC00)), ReadString(t[12..]))
        else if 0xD800 <= unit < 0xE000 then Prepend([0xEF, 0xBF, 0xBD], ReadString(t[6..]))
        else Prepend(Utf8(unit), ReadString(t[6..]))
      else None
    else if t[0] < 0x20 then None
    else Prepend([t[0]], ReadString(t[1..]))
  }

  /** What follows `prefix` in t. */
  function After(prefix: Text, t: Text): Option<Text> {
    if prefix <= t then Some(t[|prefix|..]) else None
  }

  function ReadField(prefix: Text, t: Text): Option<(Text, Text)> {
    match After(prefix + [QUOTE], t)
    case None => None
    case Some(rest) => ReadString(rest)
  }

  /** A reader for the layout MarshalHeader writes. */
  function ReadHeader(t: Text): Option<Header> {
    match ReadField(Ascii("{\"signal\":"), t)
    case None => None
    case Some((signal, t1)) =>
      match ReadField(Ascii(",\"encoding\":"), t1)
      case None => None
      case Some((encoding, t2)) =>
        match ReadField(Ascii(",\"id\":"), t2)
        case None => None
        case Some((id, t3)) =>
          if t3 == Ascii("}") then Some(Header(signal, encoding, id)) else None
  }

  // ----- The reader inverts the writer ------------------------------------------------

  lemma ReadEscapedByte(b: byte, tail: Text)
    ensures ReadString(EscapeByte(b) + tail) == Prepend([b], ReadString(tail))
  {
    var t := EscapeByte(b) + tail;
    if ShortEscape(b).Some? {
      assert t[2..] == tail;
    } else if NeedsUnicodeEscape(b) {
      assert CodeUnit(t) == Some(b);
      assert t[6..] == tail;
    } else {
      assert t[1..] == tail;
    }
  }

  lemma ReadLineSeparator(s: Text, tail: Text)
    requires StartsWithLineSeparator(s)
    ensures ReadString([BACKSLASH, LETTER_U, 0x32, 0x30, 0x32, HexDigit(s[2] - 0xA0)] + tail)
         == Prepend(s[..3], ReadString(tail))
  {
    var t := [BACKSLASH, LETTER_U, 0x32, 0x30, 0x32, HexDigit(s[2] - 0xA0)] + tail;
    var last: nat := s[2];
    var unit: nat := 0x2020 + (last - 0xA0);
    assert CodeUnit(t) == Some(unit);
    assert t[6..] == tail;
    assert Utf8(unit) == s[..3];
  }

  lemma ReadRawByte(b: byte, rest: Text)
    requires b >= 0x80
    ensures ReadString([b] + rest) == Prepend([b], ReadString(rest))
  {
    assert ([b] + rest)[1..] == rest;
  }

  lemma PrependTwice(a: Text, b: Text, r: Option<(Text, Text)>)
    ensures Prepend([], r) == r && Prepend(a, Prepend(b, r)) == Prepend(a + b, r)
  {
    if r.Some? {
      assert [] + r.value.0 == r.value.0 && a + (b + r.value.0) == a + b + r.value.0;
    }
  }

  /** Bytes past ASCII are read as they are. */
  lemma {:induction false} ReadRaw(raw: Text, tail: Text)
    requires forall i :: 0 <= i < |raw| ==> raw[i] >= 0x80
    ensures ReadString(raw + tail) == Prepend(raw, ReadString(tail))
  {
    hide ReadString, Prepend;
    if raw == [] {
      assert raw + tail == tail;
      PrependTwice([], [], ReadString(tail));
    } else {
      var first, rest := [raw[0]], raw[1..];
      ReadRaw(rest, tail);
      ReadRawByte(raw[0], rest + tail);
      assert raw + tail == first + (rest + tail) && first + rest == raw;
      PrependTwice(first, rest, ReadString(tail));
    }
  }

  lemma ReadReplacement(tail: Text)
    ensures ReadString([BACKSLASH, LETTER_U, 0x66, 0x66, 0x66, 0x64] + tail) == Prepend(REPLACEMENT, ReadString(tail))
  {
    var t := [BACKSLASH, LETTER_U, 0x66, 0x66, 0x66, 0x64] + tail;
    assert CodeUnit(t) == Some(0xFFFD);
    assert t[6..] == tail;
  }

  lemma ReadEscapedHead(s: Text, tail: Text)
    requires s != []
    ensures ReadString(EscapeHead(s) + tail) ==
      Prepend(if RuneLength(s) == 0 then REPLACEMENT else s[..RuneLength(s)], ReadString(tail))
  {
    hide ReadString, EscapeByte, Prepend;
    if s[0] < 0x80 {
      ReadEscapedByte(s[0], tail);
      assert s[..1] == [s[0]];
    } else if RuneLength(s) == 0 {
      ReadReplacement(tail);
    } else if StartsWithLineSeparator(s) {
      ReadLineSeparator(s, tail);
    } else {
      ReadRaw(s[..RuneLength(s)], tail);
    }
  }

  lemma ReadNothing(tail: Text)
    requires tail != [] && tail[0] == QUOTE
    ensures ReadString(Escape([]) + tail) == Some((Sanitized([]), tail[1..]))
  {
    assert Escape([]) + tail == tail;
  }

  /** Section 7 of RFC 8259: reading what was escaped gives the string back, with U+FFFD for
      what was not UTF-8. */
  lemma {:induction false} ReadEscaped(s: Text, tail: Text)
    requires tail != [] && tail[0] == QUOTE
    ensures ReadString(Escape(s) + tail) == Some((Sanitized(s), tail[1..]))
    decreases |s|
  {
    hide ReadString, EscapeHead, HeadLength, RuneLength;
    if s == [] {
      ReadNothing(tail);
    } else {
      var n := HeadLength(s);
      var rest := Escape(s[n..]) + tail;
      assert Escape(s) + tail == EscapeHead(s) + rest;
      ReadEscaped(s[n..], tail);
      ReadEscapedHead(s, rest);
    }
  }

  lemma ReplacementIsRune(s: Text)
    requires s != []
    ensures |s| >= 3 && s[..3] == REPLACEMENT ==> RuneLength(s) == 3
  {
    if |s| >= 3 {
      assert s[..3][0] == s[0] && s[..3][1] == s[1] && s[..3][2] == s[2];
    }
  }

  /** That is the string itself if and only if it was UTF-8. */
  lemma {:induction false} SanitizedIffValid(s: Text)
    ensures Sanitized(s) == s <==> ValidUtf8(s)
    decreases |s|
  {
    if s != [] {
      var n := RuneLength(s);
      ReplacementIsRune(s);
      if n == 0 {
        assert Sanitized(s)[..3] == REPLACEMENT;
      } else {
        SanitizedIffValid(s[n..]);
        assert s == s[..n] + s[n..];
        assert Sanitized(s)[..n] == s[..n] && Sanitized(s)[n..] == Sanitized(s[n..]);
      }
    }
  }

  lemma ReadQuotedField(prefix: Text, s: Text, rest: Text)
    ensures ReadField(prefix, prefix + (Quoted(s) + rest)) == Some((Sanitized(s), rest))
  {
    var t := prefix + (Quoted(s) + rest);
    var tail := [QUOTE] + rest;
    assert t == (prefix + [QUOTE]) + (Escape(s) + tail);
    assert t[|prefix + [QUOTE]|..] == Escape(s) + tail;
    ReadEscaped(s, tail);
  }

  function SanitizedHeader(h: Header): Header {
    Header(Sanitized(h.signal), Sanitized(h.encoding), Sanitized(h.id))
  }

  predicate Utf8Header(h: Header) {
    ValidUtf8(h.signal) && ValidUtf8(h.encoding) && ValidUtf8(h.id)
  }

  /** The three-field header read back is the one written with its strings made UTF-8, so it is
      the one written if and only if they were. */
  lemma ReadMarshalledHeader(h: Header)
    ensures ReadHeader(MarshalHeader(h)) == Some(SanitizedHeader(h))
    ensures ReadHeader(MarshalHeader(h)) == Some(h) <==> Utf8Header(h)
  {
    hide Sanitized, ValidUtf8, ReadField, Escape;
    var t2 := Ascii(",\"id\":") + (Quoted(h.id) + Ascii("}"));
    var t1 := Ascii(",\"encoding\":") + (Quoted(h.encoding) + t2);
    ReadQuotedField(Ascii("{\"signal\":"), h.signal, t1);
    ReadQuotedField(Ascii(",\"encoding\":"), h.encoding, t2);
    ReadQuotedField(Ascii(",\"id\":"), h.id, Ascii("}"));
    assert MarshalHeader(h) == Ascii("{\"signal\":") + (Quoted(h.signal) + t1);
    SanitizedIffValid(h.signal);
    SanitizedIffValid(h.encoding);
    SanitizedIffValid(h.id);
  }

  // ----- How long a header is --------------------------------------------------------------------

  /** Letters and digits are written as they are. */
  predicate Plain(s: Text) {
    forall i :: 0 <= i < |s| ==> 0x61 <= s[i] <= 0x7A || 0x30 <= s[i] <= 0x39
  }

  lemma {:induction false} PlainIsItself(s: Text)
    requires Plain(s)
    ensures Escape(s) == s
    decreases |s|
  {
    hide Escape;
    if s == [] {
      EscapeNothing();
    } else {
      PlainHead(s);
      PlainIsItself(s[1..]);
      assert s == [s[0]] + s[1..];
    }
  }

  lemma EscapeNothing()
    ensures Escape([]) == []
  {
  }

  lemma PlainHead(s: Text)
    requires s != [] && Plain(s)
    ensures Escape(s) == [s[0]] + Escape(s[1..])
  {
  }

  lemma PlainHeaderLength(signal: Text)
    requires forall i :: 0 <= i < |signal| ==> 0x61 <= signal[i] <= 0x7A
    ensures |MarshalHeader(Header(signal, [0x62], []))| == 36 + |signal|
  {
    hide Escape;
    PlainIsItself(signal);
    PlainIsItself([0x62]);
    PlainIsItself([]);
  }
}
