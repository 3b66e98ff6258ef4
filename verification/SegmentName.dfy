/** Segment file names (segmentName and generationOf in spool/segment.go). */
module SegmentName {
  import opened Bytes

  const GENERATIONS: nat := 0x1_0000_0000_0000_0000   // a generation is a uint64

  const ZERO: byte := 0x30
  const NAME_DIGITS := 6

  predicate IsDigit(b: byte) {
    0x30 <= b <= 0x39
  }

  predicate AllDigits(d: Text) {
    forall i :: 0 <= i < |d| ==> IsDigit(d[i])
  }

  function Decimal(n: nat): (d: Text)
    ensures d != [] && AllDigits(d)
  {
    if n < 10 then [0x30 + n] else Decimal(n / 10) + [0x30 + n % 10]
  }

  /** Zero-padded on the left to at least `width`. */
  function Padded(d: Text, width: nat): (p: Text)
    ensures |p| == if |d| < width then width else |d|
    decreases width - |d|
  {
    if |d| < width then Padded([ZERO] + d, width) else d
  }

  function Prefix(): Text { Ascii("segment-") }

  function Extension(): Text { Ascii(".spool") }

  function SegmentName(generation: nat): Text {
    Prefix() + Padded(Decimal(generation), NAME_DIGITS) + Extension()
  }

  // ----- Reading names back -------------------------------------------------------------

  predicate HasPrefix(s: Text, p: Text) {
    |p| <= |s| && s[..|p|] == p
  }

  predicate HasSuffix(s: Text, p: Text) {
    |p| <= |s| && s[|s| - |p|..] == p
  }

  function TrimPrefix(s: Text, p: Text): Text {
    if HasPrefix(s, p) then s[|p|..] else s
  }

  function TrimSuffix(s: Text, p: Text): Text {
    if HasSuffix(s, p) then s[..|s| - |p|] else s
  }

  function Value(d: Text): nat
    requires AllDigits(d)
  {
    if d == [] then 0 else
      var last: nat := d[|d| - 1];
      10 * Value(d[..|d| - 1]) + (last - 0x30)
  }

  /** strconv.ParseUint(d, 10, 64). */
  function ParseUint(d: Text): Option<nat> {
    if d != [] && AllDigits(d) && Value(d) < GENERATIONS then Some(Value(d)) else None
  }

  function DigitsOf(name: Text): Text {
    TrimSuffix(TrimPrefix(name, Prefix()), Extension())
  }

  function GenerationOf(name: Text): Option<nat> {
    if !HasPrefix(name, Prefix()) || !HasSuffix(name, Extension()) then None
    else ParseUint(DigitsOf(name))
  }

  // ----- Names and generations correspond -----------------------------------------------

  lemma {:induction false} ValueOfDecimal(n: nat)
    ensures Value(Decimal(n)) == n
  {
    if n >= 10 {
      ValueOfDecimal(n / 10);
      assert Decimal(n)[..|Decimal(n)| - 1] == Decimal(n / 10);
    }
  }

  lemma {:induction false} ValueOfLeadingZero(d: Text)
    requires AllDigits(d)
    ensures AllDigits([ZERO] + d)
    ensures Value([ZERO] + d) == Value(d)
  {
    if d != [] {
      var short := d[..|d| - 1];
      ValueOfLeadingZero(short);
      assert ([ZERO] + d)[..|d|] == [ZERO] + short;
    } else {
      assert ([ZERO] + d)[..0] == [];
    }
  }

  lemma {:induction false} ValueOfPadded(d: Text, width: nat)
    requires AllDigits(d)
    ensures AllDigits(Padded(d, width))
    ensures Value(Padded(d, width)) == Value(d)
    decreases width - |d|
  {
    if |d| < width {
      ValueOfLeadingZero(d);
      ValueOfPadded([ZERO] + d, width);
    }
  }

  lemma DigitsOfSegmentName(d: Text)
    ensures var name := Prefix() + d + Extension();
      HasPrefix(name, Prefix()) && HasSuffix(name, Extension()) && DigitsOf(name) == d
  {
    var name := Prefix() + d + Extension();
    assert name[..8] == Prefix();
    assert name[|name| - 6..] == Extension();
    assert name[8..] == d + Extension();
    assert (d + Extension())[|d|..] == Extension();
  }

  /** Every generation's name reads back as that generation. */
  lemma GenerationOfSegmentName(generation: nat)
    requires generation < GENERATIONS
    ensures GenerationOf(SegmentName(generation)) == Some(generation)
  {
    var d := Padded(Decimal(generation), NAME_DIGITS);
    ValueOfDecimal(generation);
    ValueOfPadded(Decimal(generation), NAME_DIGITS);
    DigitsOfSegmentName(d);
  }

  lemma SegmentNameInjective(a: nat, b: nat)
    requires a < GENERATIONS && b < GENERATIONS && SegmentName(a) == SegmentName(b)
    ensures a == b
  {
    GenerationOfSegmentName(a);
    GenerationOfSegmentName(b);
  }

  /** A digit string that %06d could have printed. */
  predicate Canonical(d: Text) {
    |d| == NAME_DIGITS || (|d| > NAME_DIGITS && d[0] != ZERO)
  }

  lemma {:induction false} ValuePositive(d: Text)
    requires AllDigits(d) && d != [] && d[0] != ZERO
    ensures Value(d) > 0
  {
    if |d| > 1 {
      ValuePositive(d[..|d| - 1]);
    }
  }

  lemma {:induction false} DecimalOfValue(d: Text)
    requires AllDigits(d) && d != [] && (|d| == 1 || d[0] != ZERO)
    ensures Decimal(Value(d)) == d
  {
    if |d| > 1 {
      var short := d[..|d| - 1];
      ValuePositive(short);
      DecimalOfValue(short);
      assert d == short + [d[|d| - 1]];
    }
  }

  lemma {:induction false} PaddedLeadingZero(d: Text, width: nat)
    requires |d| < width
    ensures Padded(d, width) == [ZERO] + Padded(d, width - 1)
    decreases width - |d|
  {
    if |d| < width - 1 {
      PaddedLeadingZero([ZERO] + d, width);
    }
  }

  /** Printing a value at the width it was written gives the digits back. */
  lemma {:induction false} PaddedValue(d: Text)
    requires AllDigits(d) && d != []
    ensures |Decimal(Value(d))| <= |d|
    ensures Padded(Decimal(Value(d)), |d|) == d
    ensures |d| > 1 && d[0] == ZERO ==> |Decimal(Value(d))| < |d|
  {
    if |d| == 1 || d[0] != ZERO {
      DecimalOfValue(d);
    } else {
      PaddedValue(d[1..]);
      ValueOfLeadingZero(d[1..]);
      assert d == [ZERO] + d[1..];
      PaddedLeadingZero(Decimal(Value(d)), |d|);
    }
  }

  /** A file that generationOf takes for a segment is the file segmentName will open if and
      only if its digits are canonical. Otherwise the scan keeps reporting a generation that
      opening by name does not find. */
  lemma ListedNameIsOpenedName(name: Text)
    requires GenerationOf(name).Some?
    ensures SegmentName(GenerationOf(name).value) == name <==> Canonical(DigitsOf(name))
  {
    var d := DigitsOf(name);
    var value := Value(d);
    var printed := Padded(Decimal(value), NAME_DIGITS);
    NameParts(name);
    PaddedValue(d);
    DigitsOfSegmentName(printed);
    if |d| > NAME_DIGITS && d[0] != ZERO {
      DecimalOfValue(d);
    }
  }

  lemma NameParts(name: Text)
    requires GenerationOf(name).Some?
    ensures name == Prefix() + DigitsOf(name) + Extension()
  {
    assert Prefix()[7] == '-' as int && Extension()[0] == '.' as int;
    var rest := name[8..];
    // A shorter name would need one byte to be both in the prefix and in the extension.
    assert |name| >= 14;
    assert rest[|rest| - 6..] == name[|name| - 6..];
    assert name == name[..8] + rest;
    assert rest == rest[..|rest| - 6] + rest[|rest| - 6..];
  }

  /** The first segment and one of seven digits. */
  lemma NamesAsPrinted()
    ensures SegmentName(1) == Ascii("segment-") + Ascii("000001") + Ascii(".spool")
    ensures SegmentName(1234567) == Ascii("segment-") + Ascii("1234567") + Ascii(".spool")
  {
    OneAsPrinted();
    SevenAsPrinted();
  }

  lemma OneAsPrinted()
    ensures Padded(Decimal(1), NAME_DIGITS) == Ascii("000001")
  {
    var d := Decimal(1);
    assert d == [0x31];
    PaddedLeadingZero(d, 6);
    PaddedLeadingZero(d, 5);
    PaddedLeadingZero(d, 4);
    PaddedLeadingZero(d, 3);
    PaddedLeadingZero(d, 2);
  }

  lemma SevenAsPrinted()
    ensures Padded(Decimal(1234567), NAME_DIGITS) == Ascii("1234567")
  {
    assert Decimal(1) == [0x31];
    assert Decimal(12) == [0x31, 0x32];
    assert Decimal(123) == [0x31, 0x32, 0x33];
    assert Decimal(1234) == [0x31, 0x32, 0x33, 0x34];
    assert Decimal(12345) == [0x31, 0x32, 0x33, 0x34, 0x35];
    assert Decimal(123456) == [0x31, 0x32, 0x33, 0x34, 0x35, 0x36];
    assert Decimal(1234567) == [0x31, 0x32, 0x33, 0x34, 0x35, 0x36, 0x37];
  }
}
