/** The inputs the tests of src/bdecode.rs decode, and the leading-zero, `-0`,
    range, truncation and repeated-key cases, each derived from the general
    lemmas rather than by running the decoder on the bytes. */
module BDecodeTests {
  import opened Bytes
  import opened Utf8
  import opened Grammar
  import opened BDecode
  import opened BDecodeProperties
  import opened BDecodeSyntax

  /** The byte string `<digits>:<payload>` of an ASCII payload whose length
      has the single decimal digit `d`. */
  function Short(d: byte, payload: string): Term
    requires forall i | 0 <= i < |payload| :: payload[i] as int < 128
  {
    TBytes([d], Ascii(payload))
  }

  lemma OneDigit(d: byte)
    requires IsDigit(d)
    ensures DecimalValue([d]) == d - ZERO
  {
    assert [d][..0] == [];
  }

  // Each input is first re-spelled in the shape the general lemmas speak
  // of, in a lemma of its own so that the sequence reasoning stays out of
  // the decoding proofs. Those lemmas speak of a value followed by a
  // remainder, so the spellings end in an explicit empty remainder `+ []`
  // that they then match term for term.

  lemma SpellNumber(s: seq<byte>, text: string, negative: bool, ds: seq<byte>)
    requires forall i | 0 <= i < |text| :: text[i] as int < 128
    requires s == Ascii(text) && Ascii(text) == [INTEGER_START] + Sign(negative) + ds + [END]
    ensures s == [INTEGER_START] + Sign(negative) + ds + [END] + []
  {
  }

  lemma TestPositive(s: seq<byte>)
    requires s == Ascii("i3e")
    ensures Parse(s) == Ok([], BNumber(3))
  {
    SpellNumber(s, "i3e", false, [ZERO + 3]);
    OneDigit(ZERO + 3);
    NumberLiteral(false, [ZERO + 3], []);
    DispatchNumber(s);
  }

  lemma TestNegative(s: seq<byte>)
    requires s == Ascii("i-3e")
    ensures Parse(s) == Ok([], BNumber(-3))
  {
    SpellNumber(s, "i-3e", true, [ZERO + 3]);
    OneDigit(ZERO + 3);
    NumberLiteral(true, [ZERO + 3], []);
    DispatchNumber(s);
  }

  /** Leading zeros are accepted. */
  lemma TestLeadingZero(s: seq<byte>)
    requires s == Ascii("i03e")
    ensures Parse(s) == Ok([], BNumber(3))
  {
    SpellNumber(s, "i03e", false, [ZERO, ZERO + 3]);
    OneDigit(ZERO + 3);
    LeadingZero([ZERO + 3]);
    assert [ZERO] + [ZERO + 3] == [ZERO, ZERO + 3];
    NumberLiteral(false, [ZERO, ZERO + 3], []);
    DispatchNumber(s);
  }

  /** `-0` is accepted, as zero. */
  lemma TestNegativeZero(s: seq<byte>)
    requires s == Ascii("i-0e")
    ensures Parse(s) == Ok([], BNumber(0))
  {
    SpellNumber(s, "i-0e", true, [ZERO]);
    OneDigit(ZERO);
    assert LiteralValue(true, [ZERO]) == 0;
    NumberLiteral(true, [ZERO], []);
    DispatchNumber(s);
  }

  /** A two-digit length `d1 d2`. */
  lemma TwoDigits(d1: byte, d2: byte)
    requires IsDigit(d1) && IsDigit(d2)
    ensures AllDigits([d1, d2]) && DecimalValue([d1, d2]) == (d1 - ZERO) * 10 + (d2 - ZERO)
  {
    OneDigit(d1);
    AppendDigit([d1], d2);
    assert [d1] + [d2] == [d1, d2];
  }

  lemma TestBytes(s: seq<byte>)
    requires s == Ascii("12:Hello World!")
    ensures Parse(s) == Ok([], BBytes(Ascii("Hello World!")))
  {
    SpellHello(s);
    TwoDigits(ZERO + 1, ZERO + 2);
    var hello := Ascii("Hello World!");
    BytesLiteral([ZERO + 1, ZERO + 2], hello);
    assert hello[12..] == [] && hello[..12] == hello;
    DispatchBytes(s);
  }

  /** A declared length beyond the input is refused, however little is missing. */
  lemma TestTruncated(s: seq<byte>)
    requires s == Ascii("15:Hello World!")
    ensures ParseBytes(s) == Err(ParseError(Ascii("Hello World!"), Eof))
    ensures Parse(s).Err?
  {
    SpellBytes(s);
    TwoDigits(ZERO + 1, ZERO + 5);
    BytesLiteral([ZERO + 1, ZERO + 5], Ascii("Hello World!"));
    DispatchBytes(s);
  }

  lemma SpellBytes(s: seq<byte>)
    requires s == Ascii("15:Hello World!")
    ensures s == [ZERO + 1, ZERO + 5] + [COLON] + Ascii("Hello World!")
  {
  }

  lemma SpellHello(s: seq<byte>)
    requires s == Ascii("12:Hello World!")
    ensures s == [ZERO + 1, ZERO + 2] + [COLON] + Ascii("Hello World!")
  {
  }

  /** The spelling and meaning of short byte strings, two-item lists and
      two-entry dicts. */
  lemma ShortTerm(d: byte, payload: string)
    requires IsDigit(d) && forall i | 0 <= i < |payload| :: payload[i] as int < 128
    requires d - ZERO == |payload|
    ensures Render(Short(d, payload)) == [d] + [COLON] + Ascii(payload)
    ensures WellFormed(Short(d, payload)) && Denote(Short(d, payload)) == BBytes(Ascii(payload))
  {
    OneDigit(d);
  }

  lemma TwoItems(a: Term, b: Term)
    requires WellFormed(a) && WellFormed(b)
    ensures Render(TList([a, b])) == [LIST_START] + Render(a) + Render(b) + [END]
    ensures WellFormed(TList([a, b])) && Denote(TList([a, b])) == BList([Denote(a), Denote(b)])
  {
    assert [a, b][1..] == [b];
    assert [b][1..] == [];
    assert RenderItems([b]) == Render(b) + RenderItems([]);
    assert RenderItems([a, b]) == Render(a) + RenderItems([b]);
    assert RenderItems([a, b]) == Render(a) + Render(b);
    assert DenoteItems([b]) == [Denote(b)] + DenoteItems([]);
    assert DenoteItems([a, b]) == [Denote(a)] + DenoteItems([b]);
  }

  lemma TwoBindings(a: Binding, b: Binding)
    requires WellFormedBinding(a) && WellFormedBinding(b)
    ensures Render(TDict([a, b])) == [DICT_START] + Render(a.key) + Render(a.value) + Render(b.key) + Render(b.value) + [END]
    ensures WellFormed(TDict([a, b]))
    ensures Denote(TDict([a, b])) == BDict(Collect([DenoteBinding(a), DenoteBinding(b)]))
  {
    assert [a, b][1..] == [b];
    assert [b][1..] == [];
    assert RenderBindings([b]) == RenderBinding(b) + RenderBindings([]);
    assert RenderBindings([a, b]) == RenderBinding(a) + RenderBindings([b]);
    Regroup(DICT_START, Render(a.key), Render(a.value), Render(b.key), Render(b.value), END);
    assert DenoteBindings([b]) == [DenoteBinding(b)] + DenoteBindings([]);
    assert DenoteBindings([a, b]) == [DenoteBinding(a)] + DenoteBindings([b]);
    assert DenoteBindings([a, b]) == [DenoteBinding(a), DenoteBinding(b)];
  }

  /** The grouping `TwoBindings` unfolds to, regrouped as written left to
      right. */
  lemma Regroup(x: byte, p: seq<byte>, q: seq<byte>, u: seq<byte>, v: seq<byte>, y: byte)
    ensures [x] + ((p + q) + ((u + v) + [])) + [y] == [x] + p + q + u + v + [y]
  {
  }

  /** Two entries, collected: the second wins when the keys are equal. */
  lemma CollectTwo(x: (Utf8String, BValue), y: (Utf8String, BValue))
    ensures Collect([x, y]) == map[x.0 := x.1, y.0 := y.1]
  {
    assert [x, y][..1] == [x];
    assert [x][..0] == [];
  }

  lemma SpellList(s: seq<byte>)
    requires s == Ascii("l4:spam4:eggse")
    ensures s == [LIST_START] + ([ZERO + 4] + [COLON] + Ascii("spam")) + ([ZERO + 4] + [COLON] + Ascii("eggs")) + [END] + []
  {
  }

  lemma TestList(s: seq<byte>)
    requires s == Ascii("l4:spam4:eggse")
    ensures Parse(s) == Ok([], BList([BBytes(Ascii("spam")), BBytes(Ascii("eggs"))]))
  {
    SpellList(s);
    var a, b := Short(ZERO + 4, "spam"), Short(ZERO + 4, "eggs");
    ShortTerm(ZERO + 4, "spam");
    ShortTerm(ZERO + 4, "eggs");
    TwoItems(a, b);
    ParseRender(TList([a, b]), []);
  }

  lemma SpellDict(s: seq<byte>)
    requires s == Ascii("d3:cow3:moo4:spam4:eggse")
    ensures s == [DICT_START] + ([ZERO + 3] + [COLON] + Ascii("cow")) + ([ZERO + 3] + [COLON] + Ascii("moo"))
                 + ([ZERO + 4] + [COLON] + Ascii("spam")) + ([ZERO + 4] + [COLON] + Ascii("eggs")) + [END] + []
  {
  }

  lemma TestDict(s: seq<byte>)
    requires s == Ascii("d3:cow3:moo4:spam4:eggse")
    ensures ValidUtf8(Ascii("cow")) && ValidUtf8(Ascii("spam"))
    ensures Parse(s)
         == Ok([], BDict(map[Ascii("cow") := BBytes(Ascii("moo")), Ascii("spam") := BBytes(Ascii("eggs"))]))
  {
    SpellDict(s);
    AsciiIsValid(Ascii("cow"));
    AsciiIsValid(Ascii("spam"));
    ShortTerm(ZERO + 3, "cow");
    ShortTerm(ZERO + 3, "moo");
    ShortTerm(ZERO + 4, "spam");
    ShortTerm(ZERO + 4, "eggs");
    var a := Binding(Short(ZERO + 3, "cow"), Short(ZERO + 3, "moo"));
    var b := Binding(Short(ZERO + 4, "spam"), Short(ZERO + 4, "eggs"));
    TwoBindings(a, b);
    CollectTwo(DenoteBinding(a), DenoteBinding(b));
    ParseRender(TDict([a, b]), []);
  }

  lemma SpellRepeated(s: seq<byte>)
    requires s == Ascii("d1:ai1e1:ai2ee")
    ensures s == [DICT_START] + ([ZERO + 1] + [COLON] + Ascii("a")) + ([INTEGER_START] + Sign(false) + [ZERO + 1] + [END])
                 + ([ZERO + 1] + [COLON] + Ascii("a")) + ([INTEGER_START] + Sign(false) + [ZERO + 2] + [END]) + [END] + []
  {
  }

  /** With a repeated key, the later value is kept. */
  lemma TestRepeatedKey(s: seq<byte>)
    requires s == Ascii("d1:ai1e1:ai2ee")
    ensures ValidUtf8(Ascii("a"))
    ensures Parse(s) == Ok([], BDict(map[Ascii("a") := BNumber(2)]))
  {
    SpellRepeated(s);
    AsciiIsValid(Ascii("a"));
    ShortTerm(ZERO + 1, "a");
    OneDigit(ZERO + 1);
    OneDigit(ZERO + 2);
    var key := Short(ZERO + 1, "a");
    var a := Binding(key, TNumber(false, [ZERO + 1]));
    var b := Binding(key, TNumber(false, [ZERO + 2]));
    TwoBindings(a, b);
    CollectTwo(DenoteBinding(a), DenoteBinding(b));
    assert map[Ascii("a") := BNumber(1), Ascii("a") := BNumber(2)] == map[Ascii("a") := BNumber(2)];
    ParseRender(TDict([a, b]), []);
  }
}
