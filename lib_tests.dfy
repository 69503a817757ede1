/** The inputs the tests of src/lib.rs decode, including the end-of-input
    error of a string whose declared length is too long. */
module LibTests {
  import opened Bytes
  import opened Utf8
  import opened Grammar
  import opened Lib
  import opened LibProperties
  import opened LibAgreement
  import opened BDecodeSyntax
  import opened BDecodeTests
  import B = BDecode

  lemma TestNumberPositive(s: seq<byte>)
    requires s == Ascii("i3e")
    ensures ParseNumber(s) == Ok([], 3)
  {
    SpellNumber(s, "i3e", false, [ZERO + 3]);
    OneDigit(ZERO + 3);
    NumberLiteral(false, [ZERO + 3], []);
  }

  lemma TestNumberNegative(s: seq<byte>)
    requires s == Ascii("i-3e")
    ensures ParseNumber(s) == Ok([], -3)
  {
    SpellNumber(s, "i-3e", true, [ZERO + 3]);
    OneDigit(ZERO + 3);
    NumberLiteral(true, [ZERO + 3], []);
  }

  /** `length` consumes the digits and the colon. */
  lemma TestLength(s: seq<byte>)
    requires s == Ascii("12:Hello World!")
    ensures ParseLength(s) == Ok(Ascii("Hello World!"), 12)
  {
    SpellHello(s);
    TwoDigits(ZERO + 1, ZERO + 2);
    LengthLiteral([ZERO + 1, ZERO + 2], Ascii("Hello World!"));
  }

  lemma TestString(s: seq<byte>)
    requires s == Ascii("12:Hello World!")
    ensures ValidUtf8(Ascii("Hello World!"))
    ensures Text(s) == Ok([], Ascii("Hello World!"))
  {
    var hello := Ascii("Hello World!");
    AsciiIsValid(hello);
    SpellHello(s);
    TwoDigits(ZERO + 1, ZERO + 2);
    TextLiteral([ZERO + 1, ZERO + 2], hello);
    assert hello[12..] == [] && hello[..12] == hello;
  }

  /** Fifteen bytes declared, twelve present: an `Eof` error at the twelve. */
  lemma TestStringTooLong(s: seq<byte>)
    requires s == Ascii("15:Hello World!")
    ensures Text(s) == Err(ParseError(Ascii("Hello World!"), Eof))
  {
    SpellBytes(s);
    TwoDigits(ZERO + 1, ZERO + 5);
    TextLiteral([ZERO + 1, ZERO + 5], Ascii("Hello World!"));
  }

  lemma TestValueNumber(s: seq<byte>)
    requires s == Ascii("i3e")
    ensures Value(s) == Ok([], BNumber(3))
  {
    TestNumberPositive(s);
    LibProperties.DispatchNumber(s);
  }

  lemma TestValueString(s: seq<byte>)
    requires s == Ascii("12:Hello World!")
    ensures ValidUtf8(Ascii("Hello World!"))
    ensures Value(s) == Ok([], BString(Ascii("Hello World!")))
  {
    TestString(s);
    LibProperties.DispatchText(s);
  }

  lemma SpamEggs(a: Term, b: Term)
    requires a == Short(ZERO + 4, "spam") && b == Short(ZERO + 4, "eggs")
    requires ValidUtf8(Ascii("spam")) && ValidUtf8(Ascii("eggs"))
    requires WellFormed(TList([a, b])) && Denote(TList([a, b])) == B.BList([B.BBytes(Ascii("spam")), B.BBytes(Ascii("eggs"))])
    ensures TextualTerm(TList([a, b]))
    ensures Embed(BList([BString(Ascii("spam")), BString(Ascii("eggs"))])) == Denote(TList([a, b]))
  {
    var x, y := BString(Ascii("spam")), BString(Ascii("eggs"));
    EmbedCons(y, []);
    EmbedCons(x, [y]);
    assert [y] + [] == [y];
    assert [x] + [y] == [x, y];
  }

  lemma TestList(s: seq<byte>)
    requires s == Ascii("l4:spam4:eggse")
    ensures ValidUtf8(Ascii("spam")) && ValidUtf8(Ascii("eggs"))
    ensures Value(s) == Ok([], BList([BString(Ascii("spam")), BString(Ascii("eggs"))]))
  {
    AsciiIsValid(Ascii("spam"));
    AsciiIsValid(Ascii("eggs"));
    SpellList(s);
    var a, b := Short(ZERO + 4, "spam"), Short(ZERO + 4, "eggs");
    ShortTerm(ZERO + 4, "spam");
    ShortTerm(ZERO + 4, "eggs");
    TwoItems(a, b);
    SpamEggs(a, b);
    DecodesTo(TList([a, b]), s, BList([BString(Ascii("spam")), BString(Ascii("eggs"))]));
  }
}
