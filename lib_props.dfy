/** What the decoder of src/lib.rs accepts and returns, and the behaviour its
    tests pin down, including the position of the end-of-input error. */
module LibProperties {
  import opened Bytes
  import opened Utf8
  import opened Grammar
  import opened Lib

  /** A string `digits : after` takes exactly the declared number of bytes
      from `after` as text. It fails with `MapRes` at the input when the
      length does not fit a `usize`, with `Eof` at `after` when fewer bytes
      are left than declared, and with `MapRes` at `after` when the bytes
      taken are not UTF-8. */
  lemma TextLiteral(ds: seq<byte>, after: seq<byte>)
    requires |ds| >= 1 && AllDigits(ds)
    ensures var s := ds + [COLON] + after;
            var n := DecimalValue(ds);
            Text(s) ==
              if n > USIZE_MAX then Err(ParseError(s, MapRes))
              else if n > |after| then Err(ParseError(after, Eof))
              else if !ValidUtf8(after[..n]) then Err(ParseError(after, MapRes))
              else Ok(after[n..], after[..n])
  {
    LengthLiteral(ds, after);
  }

  /** Round trip: the shortest length prefix, a colon and UTF-8 bytes `b`
      decode to exactly `b`, leaving exactly what follows. */
  lemma TextRoundTrip(b: seq<byte>, rest: seq<byte>)
    requires |b| <= USIZE_MAX && ValidUtf8(b)
    ensures Text(Decimal(|b|) + [COLON] + b + rest) == Ok(rest, b)
  {
    var ds := Decimal(|b|);
    assert Text(ds + [COLON] + (b + rest)) == Ok(rest, b) by {
      TextLiteral(ds, b + rest);
      SplitAppend(b, rest);
    }
    AppendAssoc(ds + [COLON], b, rest);
  }

  // `value` is decided by the first byte: `i` a number, a digit a string,
  // `l` a list. A failed number or string is reported as the list's `Char`
  // error at the input; a failed list keeps its own error.

  lemma DispatchNumber(s: seq<byte>)
    requires |s| > 0 && s[0] == INTEGER_START
    ensures Value(s) ==
      if ParseNumber(s).Ok? then Ok(ParseNumber(s).rest, BNumber(ParseNumber(s).value))
      else Err(ParseError(s, Char))
  {
  }

  lemma DispatchText(s: seq<byte>)
    requires |s| > 0 && IsDigit(s[0])
    ensures Value(s) ==
      if Text(s).Ok? then Ok(Text(s).rest, BString(Text(s).value))
      else Err(ParseError(s, Char))
  {
  }

  lemma DispatchList(s: seq<byte>)
    requires |s| > 0 && s[0] == LIST_START
    ensures Value(s) ==
      if List(s).Ok? then Ok(List(s).rest, BList(List(s).value))
      else Err(List(s).error)
  {
  }

  /** Empty input, and input starting with any other byte, is a `Char` error
      at the input. */
  lemma DispatchNone(s: seq<byte>)
    requires |s| == 0 || (s[0] != INTEGER_START && s[0] != LIST_START && !IsDigit(s[0]))
    ensures Value(s) == Err(ParseError(s, Char))
  {
  }

  /** There are no dicts: input starting with `d` is rejected. */
  lemma DictRejected(s: seq<byte>)
    requires |s| > 0 && s[0] == DICT_START
    ensures Value(s) == Err(ParseError(s, Char))
  {
    DispatchNone(s);
  }

  // One step of `many1(value)`.

  lemma ValuesLast(s: seq<byte>, tail: seq<byte>, v: BValue)
    requires Value(s) == Ok(tail, v) && Values(tail).Err?
    ensures Values(s) == Ok(tail, [v])
  {
  }

  lemma ValuesCons(s: seq<byte>, tail: seq<byte>, v: BValue)
    requires Value(s) == Ok(tail, v) && Values(tail).Ok?
    ensures Values(s) == Ok(Values(tail).rest, [v] + Values(tail).value)
  {
  }

  lemma EndStartsNoValues(s: seq<byte>)
    requires |s| > 0 && s[0] == END
    ensures Values(s).Err?
  {
    DispatchNone(s);
  }

  /** `le` is rejected: a list needs at least one element. */
  lemma EmptyListRejected(rest: seq<byte>)
    ensures Value([LIST_START, END] + rest).Err?
  {
    var s := [LIST_START, END] + rest;
    EndStartsNoValues(s[1..]);
    DispatchList(s);
  }

  /** The items of a list appear in input order: a list whose items decode
      one after the other to `v` and then `vs` decodes to `[v] + vs`. */
  lemma ListOrder(s: seq<byte>, v: BValue)
    requires |s| > 0 && s[0] == LIST_START
    requires Value(s[1..]).Ok? && Value(s[1..]).value == v
    requires List([LIST_START] + Value(s[1..]).rest).Ok?
    ensures List(s) == Ok(List([LIST_START] + Value(s[1..]).rest).rest,
                          [v] + List([LIST_START] + Value(s[1..]).rest).value)
  {
    var tail := Value(s[1..]).rest;
    assert ([LIST_START] + tail)[1..] == tail;
    ValuesCons(s[1..], tail, v);
  }
}
