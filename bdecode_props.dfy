/** What the decoder of src/bdecode.rs accepts and returns, primitive by
    primitive, and the behaviour its tests pin down. */
module BDecodeProperties {
  import opened Bytes
  import opened Utf8
  import opened Grammar
  import opened BDecode

  /** A byte string `digits : after` takes exactly the declared number of
      bytes from `after` and leaves the rest; it fails with `Eof` at `after`
      when fewer are left, and with `MapRes` when the length does not fit a
      `usize`. */
  lemma BytesLiteral(ds: seq<byte>, after: seq<byte>)
    requires |ds| >= 1 && AllDigits(ds)
    ensures var s := ds + [COLON] + after;
            var n := DecimalValue(ds);
            ParseBytes(s) ==
              if n > USIZE_MAX then Err(ParseError(s, MapRes))
              else if n <= |after| then Ok(after[n..], after[..n])
              else Err(ParseError(after, Eof))
  {
    LengthLiteral(ds, after);
  }

  /** Round trip: the shortest length prefix, a colon and the bytes `b`
      decode to exactly `b`, and the remainder is exactly what follows. */
  lemma BytesRoundTrip(b: seq<byte>, rest: seq<byte>)
    requires |b| <= USIZE_MAX
    ensures ParseBytes(Decimal(|b|) + [COLON] + b + rest) == Ok(rest, b)
  {
    var ds := Decimal(|b|);
    var after := b + rest;
    assert ParseBytes(ds + [COLON] + after) == Ok(rest, b) by {
      BytesLiteral(ds, after);
      assert after[..|b|] == b;
      assert after[|b|..] == rest;
    }
    AppendAssoc(ds + [COLON], b, rest);
  }

  /** The two ways a byte string fails before its payload: no digit where the
      length should start (a `Digit` error at the input) and digits that are
      not followed by `:` (a `Char` error after the digits). */
  lemma BytesMalformedPrefix(s: seq<byte>)
    ensures |s| == 0 || !IsDigit(s[0]) ==> ParseBytes(s) == Err(ParseError(s, Digit))
    ensures var n := DigitRun(s);
            n >= 1 && (n == |s| || s[n] != COLON) ==> ParseBytes(s) == Err(ParseError(s[n..], Char))
  {
  }

  /** The shortest spelling of an integer: `i`, a minus sign for a negative
      value, its decimal digits, `e`. Only a specification helper. */
  function IntegerLiteral(n: int): seq<byte> {
    [INTEGER_START] + Sign(n < 0) + Decimal(if n < 0 then -n else n) + [END]
  }

  /** Every `i64` round-trips through its literal; every other integer is
      refused by `str::parse::<i64>` (a `MapRes` error), which `parse` then
      reports as the last alternative's error. */
  lemma IntegerRoundTrip(n: int, rest: seq<byte>)
    ensures var s := IntegerLiteral(n) + rest;
            && (InI64(n) ==> Parse(s) == Ok(rest, BNumber(n)))
            && (!InI64(n) ==> ParseNumber(s) == Err(ParseError(s[1..], MapRes)) && Parse(s).Err?)
  {
    var s := IntegerLiteral(n) + rest;
    NumberLiteral(n < 0, Decimal(if n < 0 then -n else n), rest);
    DispatchNumber(s);
  }

  // `parse` is decided by the first byte: `i` a number, a digit a byte
  // string, `l` a list, `d` a dict. Every alternative but the dict (the last
  // one tried) fails with a `Char` error at the input, so a failed number,
  // byte string or list is reported as that; a failed dict keeps its error.

  lemma DispatchNumber(s: seq<byte>)
    requires |s| > 0 && s[0] == INTEGER_START
    ensures Parse(s) ==
      if ParseNumber(s).Ok? then Ok(ParseNumber(s).rest, BNumber(ParseNumber(s).value))
      else Err(ParseError(s, Char))
  {
  }

  lemma DispatchBytes(s: seq<byte>)
    requires |s| > 0 && IsDigit(s[0])
    ensures Parse(s) ==
      if ParseBytes(s).Ok? then Ok(ParseBytes(s).rest, BBytes(ParseBytes(s).value))
      else Err(ParseError(s, Char))
  {
  }

  lemma DispatchList(s: seq<byte>)
    requires |s| > 0 && s[0] == LIST_START
    ensures Parse(s) ==
      if ParseList(s).Ok? then Ok(ParseList(s).rest, BList(ParseList(s).value))
      else Err(ParseError(s, Char))
  {
  }

  lemma DispatchDict(s: seq<byte>)
    requires |s| > 0 && s[0] == DICT_START
    ensures Parse(s) ==
      if ParseDict(s).Ok? then Ok(ParseDict(s).rest, BDict(ParseDict(s).value))
      else Err(ParseDict(s).error)
  {
  }

  /** Empty input, and any input starting with a byte that starts no value,
      is a `Char` error at the input. */
  lemma DispatchNone(s: seq<byte>)
    requires |s| == 0 || (s[0] != INTEGER_START && s[0] != LIST_START && s[0] != DICT_START && !IsDigit(s[0]))
    ensures Parse(s) == Err(ParseError(s, Char))
  {
  }

  // One step of each `many1`, stated over opaque inputs so that the proofs
  // that use them need not unfold the parsers.

  lemma ItemsLast(s: seq<byte>, tail: seq<byte>, v: BValue)
    requires Parse(s) == Ok(tail, v) && ListItems(tail).Err?
    ensures ListItems(s) == Ok(tail, [v])
  {
  }

  lemma ItemsCons(s: seq<byte>, tail: seq<byte>, v: BValue)
    requires Parse(s) == Ok(tail, v) && ListItems(tail).Ok?
    ensures ListItems(s) == Ok(ListItems(tail).rest, [v] + ListItems(tail).value)
  {
  }

  lemma EntriesLast(s: seq<byte>, tail: seq<byte>, kv: (Utf8String, BValue))
    requires ParseEntry(s) == Ok(tail, kv) && DictEntries(tail).Err?
    ensures DictEntries(s) == Ok(tail, [kv])
  {
  }

  lemma EntriesCons(s: seq<byte>, tail: seq<byte>, kv: (Utf8String, BValue))
    requires ParseEntry(s) == Ok(tail, kv) && DictEntries(tail).Ok?
    ensures DictEntries(s) == Ok(DictEntries(tail).rest, [kv] + DictEntries(tail).value)
  {
  }

  /** No value starts with `e`, which is what ends a list or dict. */
  lemma EndStartsNoValue(s: seq<byte>)
    requires |s| > 0 && s[0] == END
    ensures Parse(s) == Err(ParseError(s, Char))
  {
    DispatchNone(s);
  }

  lemma EndStartsNoItems(s: seq<byte>)
    requires |s| > 0 && s[0] == END
    ensures ListItems(s).Err?
  {
    EndStartsNoValue(s);
  }

  lemma EndStartsNoEntries(s: seq<byte>)
    requires |s| > 0 && s[0] == END
    ensures DictEntries(s).Err?
  {
    assert ParseBytes(s).Err?;
  }

  /** `le` is rejected: a list needs at least one element. */
  lemma EmptyListRejected(rest: seq<byte>)
    ensures Parse([LIST_START, END] + rest).Err?
  {
    var s := [LIST_START, END] + rest;
    EndStartsNoItems(s[1..]);
    DispatchList(s);
  }

  /** `de` is rejected: a dict needs at least one entry. */
  lemma EmptyDictRejected(rest: seq<byte>)
    ensures Parse([DICT_START, END] + rest).Err?
  {
    var s := [DICT_START, END] + rest;
    EndStartsNoEntries(s[1..]);
    DispatchDict(s);
  }

  /** A dict whose first key is not valid UTF-8 is rejected with a `MapRes`
      error at that key, even though the same bytes are a valid byte string. */
  lemma NonUtf8KeyRejected(ds: seq<byte>, key: seq<byte>, after: seq<byte>)
    requires |ds| >= 1 && AllDigits(ds) && DecimalValue(ds) == |key| <= USIZE_MAX
    requires !ValidUtf8(key)
    ensures var s := [DICT_START] + ds + [COLON] + key + after;
            Parse(s) == Err(ParseError(s[1..], MapRes))
  {
    var s := [DICT_START] + ds + [COLON] + key + after;
    var inner := s[1..];
    assert ParseBytes(inner) == Ok(after, key) by {
      AppendAssoc([DICT_START] + ds + [COLON], key, after);
      DropHead(DICT_START, ds, [COLON], key + after);
      BytesLiteral(ds, key + after);
      SplitAppend(key, after);
    }
    assert ParseString(inner) == Err(ParseError(inner, MapRes));
    assert DictEntries(inner) == Err(ParseError(inner, MapRes));
    DispatchDict(s);
  }

  /** Keys need not be sorted, and a repeated key keeps the value of its last
      occurrence. */
  lemma {:induction false} CollectLastWins(entries: seq<(Utf8String, BValue)>, i: nat)
    requires i < |entries|
    requires forall j | i < j < |entries| :: entries[j].0 != entries[i].0
    ensures entries[i].0 in Collect(entries) && Collect(entries)[entries[i].0] == entries[i].1
    decreases |entries|
  {
    if i < |entries| - 1 {
      var init := entries[..|entries| - 1];
      assert init[i] == entries[i];
      CollectLastWins(init, i);
    }
  }
}
