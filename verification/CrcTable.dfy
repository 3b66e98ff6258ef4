/** Which CRC-32 it is: the byte table of the polynomial of section 3.2.9 of IEEE 802.3, given by
    its eight single-bit entries, and known answers that fix the complements at both ends. */
module CrcTable {
  import opened Bytes
  import opened Crc32

  // ----- Words as hex digits ------------------------------------------------------------------------

  /** Four bits. */
  datatype Digit = Digit(b3: bool, b2: bool, b1: bool, b0: bool)

  /** Eight of them, the most significant first. */
  datatype Bits = Bits(d7: Digit, d6: Digit, d5: Digit, d4: Digit, d3: Digit, d2: Digit, d1: Digit, d0: Digit)

  const D0 := Digit(false, false, false, false)
  const D1 := Digit(false, false, false, true)
  const D2 := Digit(false, false, true, false)
  const D3 := Digit(false, false, true, true)
  const D4 := Digit(false, true, false, false)
  const D5 := Digit(false, true, false, true)
  const D6 := Digit(false, true, true, false)
  const D7 := Digit(false, true, true, true)
  const D8 := Digit(true, false, false, false)
  const D9 := Digit(true, false, false, true)
  const DA := Digit(true, false, true, false)
  const DB := Digit(true, false, true, true)
  const DC := Digit(true, true, false, false)
  const DD := Digit(true, true, false, true)
  const DE := Digit(true, true, true, false)
  const DF := Digit(true, true, true, true)

  /** The bit behind the rest. */
  function Put(bit: bool, rest: nat): nat {
    (if bit then 1 else 0) + 2 * rest
  }

  /** The digit behind the rest. */
  function Value(d: Digit, rest: nat): nat {
    Put(d.b0, Put(d.b1, Put(d.b2, Put(d.b3, rest))))
  }

  function Upper(w: Bits): nat {
    Value(w.d4, Value(w.d5, Value(w.d6, Value(w.d7, 0))))
  }

  function Number(w: Bits): nat {
    Value(w.d0, Value(w.d1, Value(w.d2, Value(w.d3, Upper(w)))))
  }

  function XorDigit(p: Digit, q: Digit): Digit {
    Digit(p.b3 != q.b3, p.b2 != q.b2, p.b1 != q.b1, p.b0 != q.b0)
  }

  function XorBits(p: Bits, q: Bits): Bits {
    Bits(XorDigit(p.d7, q.d7), XorDigit(p.d6, q.d6), XorDigit(p.d5, q.d5), XorDigit(p.d4, q.d4),
         XorDigit(p.d3, q.d3), XorDigit(p.d2, q.d2), XorDigit(p.d1, q.d1), XorDigit(p.d0, q.d0))
  }

  function HalfDigit(d: Digit, carry: bool): Digit {
    Digit(carry, d.b3, d.b2, d.b1)
  }

  function HalfBits(w: Bits): Bits {
    Bits(HalfDigit(w.d7, false), HalfDigit(w.d6, w.d7.b0), HalfDigit(w.d5, w.d6.b0), HalfDigit(w.d4, w.d5.b0),
         HalfDigit(w.d3, w.d4.b0), HalfDigit(w.d2, w.d3.b0), HalfDigit(w.d1, w.d2.b0), HalfDigit(w.d0, w.d1.b0))
  }

  lemma PutParts(bit: bool, rest: nat)
    ensures Put(bit, rest) / 2 == rest && Put(bit, rest) % 2 == if bit then 1 else 0
  {
  }

  lemma FromParts(n: nat, bit: bool, rest: nat)
    requires n / 2 == rest && n % 2 == if bit then 1 else 0
    ensures n == Put(bit, rest)
  {
  }

  lemma XorPut(x: bool, y: bool, a: nat, b: nat)
    ensures Xor(Put(x, a), Put(y, b)) == Put(x != y, Xor(a, b))
  {
    hide Xor, Put;
    PutParts(x, a);
    PutParts(y, b);
    XorHalf(Put(x, a), Put(y, b));
    FromParts(Xor(Put(x, a), Put(y, b)), x != y, Xor(a, b));
  }

  lemma XorValue(p: Digit, q: Digit, a: nat, b: nat)
    ensures Xor(Value(p, a), Value(q, b)) == Value(XorDigit(p, q), Xor(a, b))
  {
    hide Xor, Put;
    var a3, b3 := Put(p.b3, a), Put(q.b3, b);
    var a2, b2 := Put(p.b2, a3), Put(q.b2, b3);
    var a1, b1 := Put(p.b1, a2), Put(q.b1, b2);
    XorPut(p.b3, q.b3, a, b);
    XorPut(p.b2, q.b2, a3, b3);
    XorPut(p.b1, q.b1, a2, b2);
    XorPut(p.b0, q.b0, a1, b1);
  }

  lemma XorUpper(p: Bits, q: Bits)
    ensures Xor(Upper(p), Upper(q)) == Upper(XorBits(p, q))
  {
    hide Value, Xor, XorDigit;
    var a7, b7 := Value(p.d7, 0), Value(q.d7, 0);
    var a6, b6 := Value(p.d6, a7), Value(q.d6, b7);
    var a5, b5 := Value(p.d5, a6), Value(q.d5, b6);
    XorSelf(0);
    XorValue(p.d7, q.d7, 0, 0);
    XorValue(p.d6, q.d6, a7, b7);
    XorValue(p.d5, q.d5, a6, b6);
    XorValue(p.d4, q.d4, a5, b5);
  }

  lemma XorNumber(p: Bits, q: Bits)
    ensures Xor(Number(p), Number(q)) == Number(XorBits(p, q))
  {
    hide Value, Xor, Upper, XorDigit;
    var a3, b3 := Value(p.d3, Upper(p)), Value(q.d3, Upper(q));
    var a2, b2 := Value(p.d2, a3), Value(q.d2, b3);
    var a1, b1 := Value(p.d1, a2), Value(q.d1, b2);
    XorUpper(p, q);
    XorValue(p.d3, q.d3, Upper(p), Upper(q));
    XorValue(p.d2, q.d2, a3, b3);
    XorValue(p.d1, q.d1, a2, b2);
    XorValue(p.d0, q.d0, a1, b1);
  }

  /** Halving a digit behind a rest: its low bit goes, and the rest's low bit comes in. */
  lemma HalfValue(d: Digit, carry: bool, rest: nat, half: nat)
    requires rest == Put(carry, half)
    ensures Value(d, rest) == Put(d.b0, Value(HalfDigit(d, carry), half))
  {
  }

  lemma HalfNumber(w: Bits)
    ensures Number(w) == Put(w.d0.b0, Number(HalfBits(w)))
  {
    hide Value, Put, HalfDigit;
    var h := HalfBits(w);
    var v7, h7 := Value(w.d7, 0), Value(h.d7, 0);
    var v6, h6 := Value(w.d6, v7), Value(h.d6, h7);
    var v5, h5 := Value(w.d5, v6), Value(h.d5, h6);
    var v3, h3 := Value(w.d3, Upper(w)), Value(h.d3, Upper(h));
    var v2, h2 := Value(w.d2, v3), Value(h.d2, h3);
    var v1, h1 := Value(w.d1, v2), Value(h.d1, h2);
    PutNothing();
    HalfValue(w.d7, false, 0, 0);
    HalfValue(w.d6, w.d7.b0, v7, h7);
    HalfValue(w.d5, w.d6.b0, v6, h6);
    HalfValue(w.d4, w.d5.b0, v5, h5);
    HalfValue(w.d3, w.d4.b0, Upper(w), Upper(h));
    HalfValue(w.d2, w.d3.b0, v3, h3);
    HalfValue(w.d1, w.d2.b0, v2, h2);
    HalfValue(w.d0, w.d1.b0, v1, h1);
  }

  lemma PutNothing()
    ensures Put(false, 0) == 0
  {
  }

  lemma DigitBound(d: Digit, rest: nat, bound: nat)
    requires rest < bound
    ensures Value(d, rest) < 16 * bound
  {
  }

  lemma NumberBound(w: Bits)
    ensures Number(w) < MODULUS
  {
    hide Value;
    var v7 := Value(w.d7, 0);
    var v6 := Value(w.d6, v7);
    var v5 := Value(w.d5, v6);
    var v3 := Value(w.d3, Upper(w));
    var v2 := Value(w.d2, v3);
    DigitBound(w.d7, 0, 1);
    DigitBound(w.d6, v7, 0x10);
    DigitBound(w.d5, v6, 0x100);
    DigitBound(w.d4, v5, 0x1000);
    DigitBound(w.d3, Upper(w), 0x1_0000);
    DigitBound(w.d2, v3, 0x10_0000);
    DigitBound(w.d1, v2, 0x100_0000);
    DigitBound(w.d0, Value(w.d1, v2), 0x1000_0000);
  }

  /** The number as a register holds it. */
  function Word(w: Bits): word {
    NumberBound(w);
    Number(w)
  }

  // ----- The register, digit by digit ---------------------------------------------------------------

  const POLYNOMIAL_BITS := Bits(DE, DD, DB, D8, D8, D3, D2, D0)
  const ONES := Bits(DF, DF, DF, DF, DF, DF, DF, DF)

  lemma ConstantNumbers()
    ensures Number(POLYNOMIAL_BITS) == 0xEDB88320 && Number(ONES) == 0xFFFF_FFFF
  {
  }

  function ShiftBits(w: Bits): Bits {
    if w.d0.b0 then XorBits(HalfBits(w), POLYNOMIAL_BITS) else HalfBits(w)
  }

  lemma ShiftNumber(w: Bits)
    ensures Number(w) < MODULUS && Shift(Number(w)) == Number(ShiftBits(w))
  {
    hide Number, Xor, XorBits, HalfBits;
    NumberBound(w);
    HalfNumber(w);
    ConstantNumbers();
    XorNumber(HalfBits(w), POLYNOMIAL_BITS);
  }

  function FourShifts(w: Bits): Bits {
    ShiftBits(ShiftBits(ShiftBits(ShiftBits(w))))
  }

  lemma FourShiftsNumber(w: Bits)
    ensures Number(w) < MODULUS && Shifts(Number(w), 4) == Number(FourShifts(w))
  {
    hide ShiftBits, Number, Shift;
    var w1 := ShiftBits(w);
    var w2 := ShiftBits(w1);
    var w3 := ShiftBits(w2);
    ShiftNumber(w);
    ShiftNumber(w1);
    ShiftNumber(w2);
    ShiftNumber(w3);
  }

  function FeedBits(w: Bits, hi: Digit, lo: Digit): Bits {
    FourShifts(FourShifts(XorBits(w, Bits(D0, D0, D0, D0, D0, D0, hi, lo))))
  }

  function Byte(hi: Digit, lo: Digit): (b: byte) {
    ByteBound(hi, lo);
    Value(lo, Value(hi, 0))
  }

  lemma ByteBound(hi: Digit, lo: Digit)
    ensures Value(lo, Value(hi, 0)) < 256
  {
    DigitBound(hi, 0, 1);
    DigitBound(lo, Value(hi, 0), 16);
  }

  lemma ByteNumber(hi: Digit, lo: Digit)
    ensures Number(Bits(D0, D0, D0, D0, D0, D0, hi, lo)) == Byte(hi, lo)
  {
  }

  lemma EightShifts(r: word)
    ensures Shifts(r, 8) == Shifts(Shifts(r, 4), 4)
  {
    hide Shift;
  }

  lemma FeedNumber(w: Bits, hi: Digit, lo: Digit)
    ensures Number(w) < MODULUS && Feed(Number(w), Byte(hi, lo)) == Number(FeedBits(w, hi, lo))
  {
    hide Number, Shift, FourShifts, Xor, XorBits, Value;
    var q := Bits(D0, D0, D0, D0, D0, D0, hi, lo);
    ByteNumber(hi, lo);
    XorNumber(w, q);
    NumberBound(w);
    FourShiftsNumber(XorBits(w, q));
    FourShiftsNumber(FourShifts(XorBits(w, q)));
    EightShifts(Number(XorBits(w, q)));
  }

  // ----- The byte table ---------------------------------------------------------------------------

  /** The table entries of the bytes with one bit set, lowest first. */
  function SingleBit(k: nat): word
    requires k < 8
  {
    if k == 0 then 0x77073096
    else if k == 1 then 0xEE0E612C
    else if k == 2 then 0x076DC419
    else if k == 3 then 0x0EDB8832
    else if k == 4 then 0x1DB71064
    else if k == 5 then 0x3B6E20C8
    else if k == 6 then 0x76DC4190
    else 0xEDB88320
  }

  /** The entry of the byte whose bits from k on are v: the xor of those of its bits. */
  function Combined(v: nat, k: nat): word
    decreases v
  {
    if v == 0 || k >= 8 then 0
    else
      XorBound32(if v % 2 == 1 then SingleBit(k) else 0, Combined(v / 2, k + 1));
      Xor(if v % 2 == 1 then SingleBit(k) else 0, Combined(v / 2, k + 1))
  }

  function Entry(b: byte): word {
    Combined(b, 0)
  }

  lemma OddEntry()
    ensures Shift(0x076DC419) == 0xEE0E612C
  {
    hide Number, ShiftBits;
    var w := Bits(D0, D7, D6, DD, DC, D4, D1, D9);
    ShiftNumber(w);
    OddShifted();
    OddNumbers();
  }

  lemma OddShifted()
    ensures ShiftBits(Bits(D0, D7, D6, DD, DC, D4, D1, D9)) == Bits(DE, DE, D0, DE, D6, D1, D2, DC)
  {
  }

  lemma OddNumbers()
    ensures Number(Bits(D0, D7, D6, DD, DC, D4, D1, D9)) == 0x076DC419
    ensures Number(Bits(DE, DE, D0, DE, D6, D1, D2, DC)) == 0xEE0E612C
  {
  }

  /** Each entry is the next one shifted. */
  lemma NextEntry(k: nat)
    requires k < 8
    ensures Shift(if k == 7 then 1 else SingleBit(k + 1)) == SingleBit(k)
  {
    if k == 1 {
      OddEntry();
    } else if k == 7 {
      assert Xor(0, POLYNOMIAL) == POLYNOMIAL;
    }
  }

  lemma {:induction false} ShiftsTwice(r: word, a: nat, b: nat)
    ensures Shifts(r, a + b) == Shifts(Shifts(r, a), b)
    decreases a
  {
    hide Shift;
    if a > 0 {
      ShiftsTwice(Shift(r), a - 1, b);
    }
  }

  lemma {:induction false} ShiftsToEntry(k: nat)
    requires k < 8
    ensures Shifts(1, 8 - k) == SingleBit(k)
    decreases 8 - k
  {
    hide Shift, SingleBit;
    NextEntry(k);
    if k == 7 {
      OneShift(1);
    } else {
      ShiftsToEntry(k + 1);
      ShiftsTwice(1, 7 - k, 1);
      OneShift(SingleBit(k + 1));
    }
  }

  lemma OneShift(r: word)
    ensures Shifts(r, 1) == Shift(r)
  {
    hide Shift;
    assert Shifts(Shift(r), 0) == Shift(r);
  }

  /** Eight shifts take the byte with bit k set to its entry. */
  lemma SingleBitShifts(k: nat)
    requires k < 8
    ensures Pow2(k) < MODULUS && Shifts(Pow2(k), 8) == SingleBit(k)
  {
    hide Shifts, SingleBit;
    PowBelow(k);
    ShiftsOfMultiple(1, k);
    ShiftsTwice(Pow2(k), k, 8 - k);
    ShiftsToEntry(k);
  }

  lemma PowBelow(k: nat)
    requires k <= 8
    ensures 1 <= Pow2(k) <= 256 && Pow2(k + 1) == 2 * Pow2(k)
  {
    Pow2Monotone(0, k);
    Pow2Monotone(k, 8);
    Pow2Of32();
  }

  /** And so, by linearity, every byte to its own. */
  lemma {:induction false} CombinedShifts(v: nat, k: nat)
    requires k <= 8 && Pow2(k) * v < 256
    ensures Shifts(Pow2(k) * v, 8) == Combined(v, k)
    decreases v
  {
    hide Shifts, SingleBit, Xor, Pow2;
    if v == 0 || k == 8 {
      NothingShifts(v, k);
    } else {
      var low, high := if v % 2 == 1 then Pow2(k) else 0, Pow2(k + 1) * (v / 2);
      SplitBit(v, k);
      CombinedShifts(v / 2, k + 1);
      SingleBitShifts(k);
      ShiftsOfZero();
      ShiftsLinear(low, high, 8);
    }
  }

  lemma NothingShifts(v: nat, k: nat)
    requires k <= 8 && Pow2(k) * v < 256 && (v == 0 || k == 8)
    ensures v == 0 && Shifts(Pow2(k) * v, 8) == 0
  {
    Pow2Of32();
    ShiftsOfZero();
  }

  lemma ShiftsOfZero()
    ensures Shifts(0, 8) == 0
  {
    ShiftsOfMultiple(0, 8);
  }

  lemma SplitBit(v: nat, k: nat)
    requires k < 8 && Pow2(k) * v < 256
    ensures var low, high := if v % 2 == 1 then Pow2(k) else 0, Pow2(k + 1) * (v / 2);
      low < 256 && high < 256 && Xor(low, high) == Pow2(k) * v
  {
    hide Xor;
    PowBelow(k);
    var low := if v % 2 == 1 then Pow2(k) else 0;
    XorShifted(low, v / 2, k + 1);
    HalvedProduct(Pow2(k), v);
  }

  lemma HalvedProduct(p: nat, v: nat)
    ensures p * v == (if v % 2 == 1 then p else 0) + 2 * p * (v / 2)
  {
    var h := v / 2;
    assert v == 2 * h || v == 2 * h + 1;
  }

  /** Feeding a byte is a lookup in the table: the register's low byte selects the entry and the
      rest of it moves down. */
  lemma FeedIsLookup(r: word, b: byte)
    ensures Feed(r, b) == Xor(Entry(Xor(r, b) % 256), r / 256)
  {
    hide Xor, Combined, Shifts, Pow2;
    XorBound32(r, b);
    HighBytes(r, b);
    SplitByte(Xor(r, b));
  }

  lemma SplitByte(x: word)
    ensures Shifts(x, 8) == Xor(Entry(x % 256), x / 256)
  {
    hide Xor, Combined, Shifts;
    var low, high := x % 256, x / 256;
    Pow2Of32();
    assert Pow2(0) == 1;
    XorShifted(low, high, 8);
    ShiftsLinear(low, 256 * high, 8);
    ShiftsOfMultiple(high, 8);
    CombinedShifts(low, 0);
  }

  /** A byte reaches only the low byte. */
  lemma HighBytes(r: word, b: byte)
    ensures Xor(r, b) / 256 == r / 256
  {
    hide Xor;
    var low: nat, high: nat, c: nat := r % 256, r / 256, b;
    Pow2Of32();
    XorShifted(low, high, 8);
    XorBound(low, c, 8);
    XorShifted(Xor(low, c), high, 8);
    XorAssoc(low, 256 * high, c);
    XorComm(256 * high, c);
    XorAssoc(low, c, 256 * high);
  }

  // ----- Known answers ---------------------------------------------------------------------------

  /** Bytes by their two hex digits. */
  datatype Chars = End | Char(hi: Digit, lo: Digit, next: Chars)

  function TextOf(chars: Chars): Text {
    match chars
    case End => []
    case Char(hi, lo, next) => [Byte(hi, lo)] + TextOf(next)
  }

  function FeedChars(w: Bits, chars: Chars): Bits
    decreases chars
  {
    match chars
    case End => w
    case Char(hi, lo, next) => FeedChars(FeedBits(w, hi, lo), next)
  }

  lemma {:induction false} FeedCharsNumber(w: Bits, chars: Chars, rest: Text)
    ensures FeedAll(Word(w), TextOf(chars) + rest) == FeedAll(Word(FeedChars(w, chars)), rest)
    decreases chars
  {
    hide Number, Feed, FeedBits, Byte;
    NumberBound(w);
    NumberBound(FeedChars(w, chars));
    match chars
    case End =>
      assert TextOf(chars) + rest == rest;
    case Char(hi, lo, next) =>
      FeedNumber(w, hi, lo);
      FeedCharsNumber(FeedBits(w, hi, lo), next, rest);
      assert TextOf(chars) + rest == [Byte(hi, lo)] + (TextOf(next) + rest);
      FeedHead(Word(w), Byte(hi, lo), TextOf(next) + rest);
  }

  lemma FeedHead(r: word, b: byte, rest: Text)
    ensures FeedAll(r, [b] + rest) == FeedAll(Feed(r, b), rest)
  {
    assert ([b] + rest)[1..] == rest;
  }

  const FIRST_FIVE := Char(D3, D1, Char(D3, D2, Char(D3, D3, Char(D3, D4, Char(D3, D5, End)))))
  const LAST_FOUR := Char(D3, D6, Char(D3, D7, Char(D3, D8, Char(D3, D9, End))))

  lemma CheckFirst()
    ensures FeedChars(ONES, FIRST_FIVE) == Bits(D3, D4, D0, DA, DC, D5, DE, D3)
    ensures TextOf(FIRST_FIVE) == Ascii("12345")
  {
  }

  lemma CheckLast()
    ensures FeedChars(Bits(D3, D4, D0, DA, DC, D5, DE, D3), LAST_FOUR) == Bits(D3, D4, D0, DB, DC, D6, DD, D9)
    ensures TextOf(LAST_FOUR) == Ascii("6789")
  {
  }

  /** What is left in the register, complemented. */
  lemma Complemented(w: Bits)
    ensures Xor(Word(w), ALL_ONES) == Word(XorBits(w, ONES))
  {
    hide Number, XorBits, Xor;
    NumberBound(w);
    ConstantNumbers();
    XorNumber(w, ONES);
  }

  /** The check value of CRC-32 as IEEE 802.3 has it. */
  lemma CheckValue()
    ensures ChecksumIEEE(Ascii("123456789")) == 0xCBF43926
  {
    hide Number, FeedChars, TextOf, XorBits, Xor, FeedAll;
    var five, nine := Bits(D3, D4, D0, DA, DC, D5, DE, D3), Bits(D3, D4, D0, DB, DC, D6, DD, D9);
    var last := Ascii("6789");
    assert Ascii("123456789") == Ascii("12345") + last && last == last + [];
    CheckFirst();
    CheckLast();
    ConstantNumbers();
    FeedCharsNumber(ONES, FIRST_FIVE, last);
    FeedCharsNumber(five, LAST_FOUR, []);
    FeedNothing(Word(nine));
    Complemented(nine);
    CheckNumber();
  }

  lemma FeedNothing(r: word)
    ensures FeedAll(r, []) == r
  {
  }

  lemma CheckNumber()
    ensures Number(XorBits(Bits(D3, D4, D0, DB, DC, D6, DD, D9), ONES)) == 0xCBF43926
  {
    assert XorBits(Bits(D3, D4, D0, DB, DC, D6, DD, D9), ONES) == Bits(DC, DB, DF, D4, D3, D9, D2, D6);
  }
}
