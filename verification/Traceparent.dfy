/** The W3C traceparent header: the strict parser and the printer (propagation.go). */
module Traceparent {
  import opened Bytes
  import opened Strings

  const DASH: byte := 0x2D

  datatype RemoteContext = RemoteContext(
    traceId: Text, spanId: Text, sampled: bool, tracestate: Text, baggage: Text)
  {
    predicate Valid() {
      traceId != [] && spanId != []
    }
  }

  const NO_CONTEXT := RemoteContext([], [], false, [], [])

  predicate IsLowerHex(b: byte) {
    0x30 <= b <= 0x39 || 0x61 <= b <= 0x66
  }

  predicate LowerHex(s: Text, length: nat) {
    |s| == length && forall i :: 0 <= i < |s| ==> IsLowerHex(s[i])
  }

  predicate AllZero(s: Text) {
    s != [] && forall i :: 0 <= i < |s| ==> s[i] == 0x30
  }

  /** The low bit of two hex digits. */
  predicate LowBit(flags: Text)
    requires LowerHex(flags, 2)
  {
    var digit := if flags[1] <= 0x39 then flags[1] - 0x30 else flags[1] - 0x57;
    digit % 2 == 1
  }

  function ParseTraceparentContext(header: Text): Option<RemoteContext> {
    var fields := Split(TrimSpace(header), DASH);
    if |fields| != 4 then None
    else if fields[0] != Ascii("00") then None
    else if !LowerHex(fields[1], 32) || !LowerHex(fields[2], 16) || !LowerHex(fields[3], 2) then None
    else if AllZero(fields[1]) || AllZero(fields[2]) then None
    else Some(RemoteContext(fields[1], fields[2], LowBit(fields[3]), [], []))
  }

  function FormatTraceparent(traceId: Text, spanId: Text, sampled: bool): Text {
    if traceId == [] || spanId == [] then []
    else Ascii("00-") + traceId + [DASH] + spanId + [DASH] + (if sampled then Ascii("01") else Ascii("00"))
  }

  /** Ids as section 3.2.2 of W3C Trace Context wants them. */
  predicate WellFormedIds(traceId: Text, spanId: Text) {
    LowerHex(traceId, 32) && LowerHex(spanId, 16) && !AllZero(traceId) && !AllZero(spanId)
  }

  /** Version 00 of section 3.2 of W3C Trace Context, position by position. */
  predicate IsVersion00(x: Text) {
    |x| == 55 && x[..3] == Ascii("00-") && x[35] == DASH && x[52] == DASH &&
    WellFormedIds(x[3..35], x[36..52]) && LowerHex(x[53..], 2)
  }

  lemma HexHasNoDash(s: Text, length: nat)
    requires LowerHex(s, length)
    ensures Free(s, DASH)
  {
  }

  lemma JoinFour(a: Text, b: Text, c: Text, d: Text)
    ensures Join([a, b, c, d], DASH) == a + [DASH] + b + [DASH] + c + [DASH] + d
  {
    assert [a, b, c, d][1..] == [b, c, d] && [b, c, d][1..] == [c, d] && [c, d][1..] == [d];
    assert Join([c, d], DASH) == c + [DASH] + d;
    assert Join([b, c, d], DASH) == b + [DASH] + (c + [DASH] + d);
    assert Join([a, b, c, d], DASH) == a + [DASH] + (b + [DASH] + (c + [DASH] + d));
  }

  /** The fields between the dashes of a version-00 header. */
  lemma SplitVersion00(x: Text)
    requires IsVersion00(x)
    ensures Split(x, DASH) == [Ascii("00"), x[3..35], x[36..52], x[53..]]
  {
    var version := Ascii("00");
    HexHasNoDash(x[3..35], 32);
    HexHasNoDash(x[36..52], 16);
    HexHasNoDash(x[53..], 2);
    assert version + [DASH] == Ascii("00-");
    assert x == x[..3] + x[3..35] + [DASH] + x[36..52] + [DASH] + x[53..];
    JoinFour(version, x[3..35], x[36..52], x[53..]);
    SplitJoin([version, x[3..35], x[36..52], x[53..]], DASH);
  }

  /** The parser accepts exactly version 00, after trimming, and reads off its fields. */
  lemma ParsesExactlyVersion00(header: Text)
    ensures var x := TrimSpace(header);
      ParseTraceparentContext(header) ==
        if IsVersion00(x) then Some(RemoteContext(x[3..35], x[36..52], LowBit(x[53..]), [], [])) else None
  {
    hide TrimSpace;
    var x := TrimSpace(header);
    if IsVersion00(x) {
      SplitVersion00(x);
    } else if ParseTraceparentContext(header).Some? {
      AcceptedIsVersion00(header);
    }
  }

  lemma AcceptedIsVersion00(header: Text)
    requires ParseTraceparentContext(header).Some?
    ensures IsVersion00(TrimSpace(header))
  {
    hide TrimSpace;
    var x := TrimSpace(header);
    var f := Split(x, DASH);
    JoinSplit(x, DASH);
    assert f == [f[0], f[1], f[2], f[3]];
    JoinFour(f[0], f[1], f[2], f[3]);
    assert x == f[0] + [DASH] + f[1] + [DASH] + f[2] + [DASH] + f[3];
    assert x[..3] == f[0] + [DASH] == Ascii("00-");
    assert x[3..35] == f[1] && x[36..52] == f[2] && x[53..] == f[3];
  }

  /** Formatting and then parsing gives the ids and the flag back. */
  lemma ParseInvertsFormat(traceId: Text, spanId: Text, sampled: bool)
    requires WellFormedIds(traceId, spanId)
    ensures ParseTraceparentContext(FormatTraceparent(traceId, spanId, sampled))
         == Some(RemoteContext(traceId, spanId, sampled, [], []))
  {
    hide TrimSpace, ParseTraceparentContext, FormatTraceparent;
    var x := FormatTraceparent(traceId, spanId, sampled);
    FormattedFields(traceId, spanId, sampled);
    TrimGraphic(x);
    ParsesExactlyVersion00(x);
  }

  /** What is formatted is version 00, field by field, with flags 01 or 00. */
  lemma FormattedFields(traceId: Text, spanId: Text, sampled: bool)
    requires WellFormedIds(traceId, spanId)
    ensures var x := FormatTraceparent(traceId, spanId, sampled);
      IsVersion00(x) && x[3..35] == traceId && x[36..52] == spanId && LowBit(x[53..]) == sampled &&
      x[53..] == ['0' as int, if sampled then '1' as int else '0' as int] &&
      IsGraphic(x[0]) && IsGraphic(x[54])
  {
    hide AllZero;
    var x := FormatTraceparent(traceId, spanId, sampled);
    assert |x| == 55;
    assert x[..3] == Ascii("00-");
    assert x[3..35] == traceId && x[36..52] == spanId;
    assert x[53..] == if sampled then Ascii("01") else Ascii("00");
  }

  // ----- Hex fields as numbers ---------------------------------------------------------------------

  /** The number hex digits spell. */
  function HexNumber(s: Text): nat {
    if s == [] then 0
    else
      var digit := HexValue(s[|s| - 1]);
      16 * HexNumber(s[..|s| - 1]) + (if digit.Some? then digit.value else 0)
  }

  /** An id is all zero if and only if the number it spells is zero. */
  lemma {:induction false} AllZeroIsZero(s: Text)
    requires LowerHex(s, |s|) && s != []
    ensures AllZero(s) <==> HexNumber(s) == 0
  {
    var init := s[..|s| - 1];
    assert s == init + [s[|s| - 1]];
    if init != [] {
      AllZeroIsZero(init);
    }
  }

  /** The sampled flag is the low bit of the number the flags spell. */
  lemma SampledIsLowBit(flags: Text)
    requires LowerHex(flags, 2)
    ensures LowBit(flags) <==> HexNumber(flags) % 2 == 1
  {
    LastDigit(flags);
    hide HexNumber;
  }

  lemma LastDigit(s: Text)
    requires s != [] && HexValue(s[|s| - 1]).Some?
    ensures HexNumber(s) == 16 * HexNumber(s[..|s| - 1]) + HexValue(s[|s| - 1]).value
  {
  }

  /** The digits accepted are those a hex number in lower case is written with. */
  lemma LowerHexDigits(b: byte)
    ensures IsLowerHex(b) <==> HexValue(b).Some? && !('A' as int <= b <= 'Z' as int)
  {
  }
}
