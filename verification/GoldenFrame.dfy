/** The frame the three implementations of the spool agree on, byte for byte
    (TestGoldenVectorMatchesTheReaders in spool/segment_test.go). */
module GoldenFrame {
  import opened Bytes
  import opened Crc32
  import opened CrcTable
  import opened JsonHeader
  import opened Frames

  /** The characters spell the text, and take the register from one word to the next. */
  predicate Takes(from: Bits, chars: Chars, text: Text, to: Bits) {
    FeedChars(from, chars) == to && TextOf(chars) == text
  }

  // ----- The body, a few characters at a time, and the register behind each ---------------------------

  const P1 := Char(D7, DB, Char(D2, D2, Char(D7, D3, Char(D6, D9, Char(D6, D7, End)))))
  const P2 := Char(D6, DE, Char(D6, D1, Char(D6, DC, Char(D2, D2, Char(D3, DA, End)))))
  const P3 := Char(D2, D2, Char(D7, D4, Char(D7, D2, Char(D6, D1, End))))
  const P4 := Char(D6, D3, Char(D6, D5, Char(D2, D2, End)))
  const P5 := Char(D2, DC, Char(D2, D2, Char(D6, D5, Char(D6, DE, End))))
  const P6 := Char(D6, D3, Char(D6, DF, Char(D6, D4, Char(D6, D9, End))))
  const P7 := Char(D6, DE, Char(D6, D7, Char(D2, D2, Char(D3, DA, End))))
  const P8 := Char(D2, D2, Char(D6, DA, Char(D7, D3, End)))
  const P9 := Char(D6, DF, Char(D6, DE, Char(D2, D2, End)))
  const P10 := Char(D2, DC, Char(D2, D2, Char(D6, D9, End)))
  const P11 := Char(D6, D4, Char(D2, D2, Char(D3, DA, End)))
  const P12 := Char(D2, D2, Char(D6, D1, Char(D6, D2, Char(D6, D3, End))))
  const P13 := Char(D3, D1, Char(D3, D2, Char(D3, D3, Char(D2, D2, End))))
  const P14 := Char(D7, DD, End)
  const P15 := Char(D7, DB, Char(D7, DD, End))

  const R1 := Bits(D8, DC, DB, DA, D4, DC, D9, D5)
  const R2 := Bits(D1, D2, D3, D0, D1, D7, DF, D8)
  const R3 := Bits(D0, D8, D3, DB, D2, D1, D8, D5)
  const R4 := Bits(D5, DD, D1, D1, D8, DE, DD, DB)
  const R5 := Bits(D3, DF, D5, D0, D5, D7, DF, DE)
  const R6 := Bits(D5, DC, D7, D0, D8, DA, D6, D7)
  const R7 := Bits(DF, D0, D6, DE, DF, D7, DC, D2)
  const R8 := Bits(D0, DE, D0, DB, D4, D8, DD, DE)
  const R9 := Bits(D4, D5, DF, D0, D8, DF, D6, D1)
  const R10 := Bits(DE, DA, D3, D8, DF, D7, D9, D2)
  const R11 := Bits(DA, D3, D0, D8, D5, DF, DF, DE)
  const R12 := Bits(D4, D6, D0, D1, D8, DF, D2, D6)
  const R13 := Bits(DA, D7, DE, D7, DF, D3, D5, D5)
  const R14 := Bits(D3, D5, D1, D2, D4, DF, D0, D9)
  const R15 := Bits(DD, D5, DD, DE, D7, DF, DE, D6)

  lemma Part1()
    ensures Takes(ONES, P1, Ascii("{\"sig"), R1)
  {
  }

  lemma Part2()
    ensures Takes(R1, P2, Ascii("nal\":"), R2)
  {
  }

  lemma Part3()
    ensures Takes(R2, P3, Ascii("\"tra"), R3)
  {
  }

  lemma Part4()
    ensures Takes(R3, P4, Ascii("ce\""), R4)
  {
  }

  lemma Part5()
    ensures Takes(R4, P5, Ascii(",\"en"), R5)
  {
  }

  lemma Part6()
    ensures Takes(R5, P6, Ascii("codi"), R6)
  {
  }

  lemma Part7()
    ensures Takes(R6, P7, Ascii("ng\":"), R7)
  {
  }

  lemma Part8()
    ensures Takes(R7, P8, Ascii("\"js"), R8)
  {
  }

  lemma Part9()
    ensures Takes(R8, P9, Ascii("on\""), R9)
  {
  }

  lemma Part10()
    ensures Takes(R9, P10, Ascii(",\"i"), R10)
  {
  }

  lemma Part11()
    ensures Takes(R10, P11, Ascii("d\":"), R11)
  {
  }

  lemma Part12()
    ensures Takes(R11, P12, Ascii("\"abc"), R12)
  {
  }

  lemma Part13()
    ensures Takes(R12, P13, Ascii("123\""), R13)
  {
  }

  lemma Part14()
    ensures Takes(R13, P14, Ascii("}"), R14)
  {
  }

  lemma Part15()
    ensures Takes(R14, P15, Ascii("{}"), R15)
  {
  }

  lemma TakesThen(from: Bits, chars: Chars, text: Text, to: Bits, rest: Text)
    requires Takes(from, chars, text, to)
    ensures FeedAll(Word(from), text + rest) == FeedAll(Word(to), rest)
  {
    FeedCharsNumber(from, chars, rest);
  }

  // ----- The body, token by token ---------------------------------------------------------------------

  lemma Token1(rest: Text)
    ensures FeedAll(Word(ONES), Ascii("{\"signal\":") + rest) == FeedAll(Word(R2), rest)
  {
    hide Takes, FeedAll, Word, Escape;
    var t1 := Ascii("nal\":") + rest;
    Part1();
    TakesThen(ONES, P1, Ascii("{\"sig"), R1, t1);
    Part2();
    TakesThen(R1, P2, Ascii("nal\":"), R2, rest);
    assert Ascii("{\"signal\":") + rest == Ascii("{\"sig") + t1;
  }

  lemma Token2(rest: Text)
    ensures FeedAll(Word(R2), Quoted(Ascii("trace")) + rest) == FeedAll(Word(R4), rest)
  {
    hide Takes, FeedAll, Word, Escape;
    PlainIsItself(Ascii("trace"));
    var t1 := Ascii("ce\"") + rest;
    Part3();
    TakesThen(R2, P3, Ascii("\"tra"), R3, t1);
    Part4();
    TakesThen(R3, P4, Ascii("ce\""), R4, rest);
    assert Quoted(Ascii("trace")) + rest == Ascii("\"tra") + t1;
  }

  lemma Token3(rest: Text)
    ensures FeedAll(Word(R4), Ascii(",\"encoding\":") + rest) == FeedAll(Word(R7), rest)
  {
    hide Takes, FeedAll, Word, Escape;
    var t2 := Ascii("ng\":") + rest;
    var t1 := Ascii("codi") + t2;
    Part5();
    TakesThen(R4, P5, Ascii(",\"en"), R5, t1);
    Part6();
    TakesThen(R5, P6, Ascii("codi"), R6, t2);
    Part7();
    TakesThen(R6, P7, Ascii("ng\":"), R7, rest);
    assert Ascii(",\"encoding\":") + rest == Ascii(",\"en") + t1;
  }

  lemma Token4(rest: Text)
    ensures FeedAll(Word(R7), Quoted(Ascii("json")) + rest) == FeedAll(Word(R9), rest)
  {
    hide Takes, FeedAll, Word, Escape;
    PlainIsItself(Ascii("json"));
    var t1 := Ascii("on\"") + rest;
    Part8();
    TakesThen(R7, P8, Ascii("\"js"), R8, t1);
    Part9();
    TakesThen(R8, P9, Ascii("on\""), R9, rest);
    assert Quoted(Ascii("json")) + rest == Ascii("\"js") + t1;
  }

  lemma Token5(rest: Text)
    ensures FeedAll(Word(R9), Ascii(",\"id\":") + rest) == FeedAll(Word(R11), rest)
  {
    hide Takes, FeedAll, Word, Escape;
    var t1 := Ascii("d\":") + rest;
    Part10();
    TakesThen(R9, P10, Ascii(",\"i"), R10, t1);
    Part11();
    TakesThen(R10, P11, Ascii("d\":"), R11, rest);
    assert Ascii(",\"id\":") + rest == Ascii(",\"i") + t1;
  }

  lemma Token6(rest: Text)
    ensures FeedAll(Word(R11), Quoted(Ascii("abc123")) + rest) == FeedAll(Word(R13), rest)
  {
    hide Takes, FeedAll, Word, Escape;
    PlainIsItself(Ascii("abc123"));
    var t1 := Ascii("123\"") + rest;
    Part12();
    TakesThen(R11, P12, Ascii("\"abc"), R12, t1);
    Part13();
    TakesThen(R12, P13, Ascii("123\""), R13, rest);
    assert Quoted(Ascii("abc123")) + rest == Ascii("\"abc") + t1;
  }

  lemma Token7(rest: Text)
    ensures FeedAll(Word(R13), Ascii("}") + rest) == FeedAll(Word(R14), rest)
  {
    hide Takes, FeedAll, Word, Escape;
    Part14();
    TakesThen(R13, P14, Ascii("}"), R14, rest);
  }

  lemma Token8(rest: Text)
    ensures FeedAll(Word(R14), Ascii("{}") + rest) == FeedAll(Word(R15), rest)
  {
    hide Takes, FeedAll, Word, Escape;
    Part15();
    TakesThen(R14, P15, Ascii("{}"), R15, rest);
  }

  // ----- The frame ------------------------------------------------------------------------------------

  lemma LastWord()
    ensures Number(XorBits(R15, ONES)) == 0x2A218019
  {
    assert XorBits(R15, ONES) == Bits(D2, DA, D2, D1, D8, D0, D1, D9);
  }

  function GoldenHeader(): Header {
    Header(Ascii("trace"), Ascii("json"), Ascii("abc123"))
  }

  lemma Rebracketed(a: Text, b: Text, c: Text, d: Text, e: Text, f: Text, g: Text, p: Text)
    ensures (a + (b + (c + (d + (e + (f + g)))))) + p == a + (b + (c + (d + (e + (f + (g + (p + [])))))))
  {
  }

  lemma GoldenChecksum()
    ensures ChecksumIEEE(MarshalHeader(GoldenHeader()) + Ascii("{}")) == 0x2A218019
  {
    hide FeedAll, Number, XorBits, Xor, Quoted, Ascii;
    var signal, trace, encoding, json := Ascii("{\"signal\":"), Quoted(Ascii("trace")), Ascii(",\"encoding\":"), Quoted(Ascii("json"));
    var id, abc123, close, payload := Ascii(",\"id\":"), Quoted(Ascii("abc123")), Ascii("}"), Ascii("{}");
    Rebracketed(signal, trace, encoding, json, id, abc123, close, payload);
    var t7 := close + (payload + []);
    var t5 := id + (abc123 + t7);
    var t3 := encoding + (json + t5);
    Token1(trace + t3);
    Token2(t3);
    Token3(json + t5);
    Token4(t5);
    Token5(abc123 + t7);
    Token6(t7);
    Token7(payload + []);
    Token8([]);
    FeedNothing(Word(R15));
    ConstantNumbers();
    Complemented(R15);
    LastWord();
  }

  function GoldenText(): Text {
    Ascii("{\"signal\":") + (Ascii("\"trace\"") + (Ascii(",\"encoding\":") + (Ascii("\"json\"") +
    (Ascii(",\"id\":") + (Ascii("\"abc123\"") + Ascii("}"))))))
  }

  lemma GoldenHeaderText()
    ensures MarshalHeader(GoldenHeader()) == GoldenText() && |GoldenText()| == 50
  {
    hide Escape;
    PlainIsItself(Ascii("trace"));
    PlainIsItself(Ascii("json"));
    PlainIsItself(Ascii("abc123"));
    assert Quoted(Ascii("trace")) == Ascii("\"trace\"");
    assert Quoted(Ascii("json")) == Ascii("\"json\"");
    assert Quoted(Ascii("abc123")) == Ascii("\"abc123\"");
  }

  function GoldenPrefix(): Text {
    [0x43, 0x48, 0x52, 0x4E, 0x32, 0x00, 0x02, 0x00, 0x00, 0x00, 0x19, 0x80, 0x21, 0x2A]
  }

  function Golden(): Frame {
    Frame(Ascii("trace"), Ascii("json"), Ascii("abc123"), Ascii("{}"))
  }

  lemma GoldenFields()
    ensures Magic() + PutUint16(50) + PutUint32(2) + PutUint32(0x2A218019) == GoldenPrefix()
  {
    assert Magic() == [0x43, 0x48, 0x52, 0x4E];
    assert PutUint16(50) == [0x32, 0] && PutUint32(2) == [2, 0, 0, 0] && PutUint32(0x2A218019) == [0x19, 0x80, 0x21, 0x2A];
  }

  /** The magic CHRN, the lengths 50 and 2 and the checksum, least significant byte first; then the
      header and the payload. */
  lemma GoldenVector()
    ensures Encodable(Golden()) && FrameBytes(Golden()) == GoldenPrefix() + (GoldenText() + Ascii("{}"))
  {
    hide MarshalHeader, ChecksumIEEE, GoldenText, Magic, PutUint16, PutUint32, GoldenPrefix;
    assert HeaderOf(Golden()) == GoldenHeader();
    GoldenHeaderText();
    GoldenChecksum();
    GoldenFields();
  }
}
