/** The few `nom` 5 parsers the decoders are built from, over complete
    (non-streaming) byte input, with nom 5's default error type: the input
    slice at which a parser gave up and an error kind; and the integer and
    length primitives, which src/bdecode.rs and src/lib.rs spell alike. */
module Grammar {
  import opened Bytes

  /** The error kinds these parsers can produce. The kinds that combinators
      `append` on the way out (`Many1`, `Alt`) are dropped by nom 5's
      `(input, ErrorKind)` error type, which keeps the innermost error. */
  datatype ErrorKind = Char | Digit | MapRes | Eof

  datatype ParseError = ParseError(input: seq<byte>, kind: ErrorKind)

  /** `IResult<&[u8], T>`: the unconsumed input and a value, or an error. */
  datatype Result<+T> = Ok(rest: seq<byte>, value: T) | Err(error: ParseError)

  /** `r` is what is left of `s` after a prefix of it was consumed. */
  predicate Suffix(r: seq<byte>, s: seq<byte>) {
    |r| <= |s| && s[|s| - |r|..] == r
  }

  /** `r` is what is left of `s` after a non-empty prefix was consumed. */
  predicate ProperSuffix(r: seq<byte>, s: seq<byte>) {
    |r| < |s| && s[|s| - |r|..] == r
  }

  lemma ConcatSuffix(a: seq<byte>, b: seq<byte>)
    ensures Suffix(b, a + b) && (|a| > 0 ==> ProperSuffix(b, a + b))
  {
    assert (a + b)[|a|..] == b;
  }

  lemma SuffixTrans(a: seq<byte>, b: seq<byte>, c: seq<byte>)
    requires Suffix(a, b) && Suffix(b, c)
    ensures Suffix(a, c)
  {
    assert c[|c| - |a|..] == c[|c| - |b|..][|b| - |a|..];
  }

  // Sequence identities the solver does not find unprompted inside a parser
  // proof. Each is called where a proof needs it, so that the proofs about
  // the parsers need not search for them.

  lemma AppendAssoc(a: seq<byte>, b: seq<byte>, c: seq<byte>)
    ensures a + b + c == a + (b + c)
  {
  }

  lemma SplitAppend(a: seq<byte>, b: seq<byte>)
    ensures (a + b)[..|a|] == a && (a + b)[|a|..] == b
  {
  }

  lemma DropHead(x: byte, a: seq<byte>, b: seq<byte>, c: seq<byte>)
    ensures ([x] + a + b + c)[0] == x && ([x] + a + b + c)[1..] == a + b + c
  {
    assert [x] + a + b + c == [x] + (a + b + c);
  }

  lemma Rejoin(s: seq<byte>)
    requires |s| > 0
    ensures s == [s[0]] + s[1..]
  {
  }

  /** `char(c)`: one byte equal to `c`. */
  function Literal(c: byte, s: seq<byte>): (r: Result<byte>)
    ensures r.Ok? <==> |s| > 0 && s[0] == c
    ensures r.Ok? ==> r.rest == s[1..]
    ensures r.Err? ==> r.error == ParseError(s, Char)
  {
    if |s| > 0 && s[0] == c then Ok(s[1..], c) else Err(ParseError(s, Char))
  }

  /** The length of the longest run of digits at the start of `s`. */
  function DigitRun(s: seq<byte>): (n: nat)
    ensures n <= |s| && AllDigits(s[..n])
    ensures n < |s| ==> !IsDigit(s[n])
    decreases |s|
  {
    if |s| > 0 && IsDigit(s[0]) then
      var n := 1 + DigitRun(s[1..]);
      assert s[..n] == [s[0]] + s[1..][..n - 1];
      n
    else 0
  }

  /** The run of digits that starts `ds + rest` is exactly `ds` when `rest`
      does not continue it. */
  lemma {:induction false} DigitRunOf(ds: seq<byte>, rest: seq<byte>)
    requires AllDigits(ds)
    requires rest == [] || !IsDigit(rest[0])
    ensures DigitRun(ds + rest) == |ds|
    decreases |ds|
  {
    if ds != [] {
      assert (ds + rest)[1..] == ds[1..] + rest;
      DigitRunOf(ds[1..], rest);
    }
  }

  /** `digit1`: the longest non-empty run of ASCII digits. */
  function Digit1(s: seq<byte>): (r: Result<seq<byte>>)
    ensures r.Ok? <==> |s| > 0 && IsDigit(s[0])
    ensures r.Ok? ==> |r.value| >= 1 && AllDigits(r.value) && s == r.value + r.rest
    ensures r.Ok? ==> r.rest == [] || !IsDigit(r.rest[0])
    ensures r.Err? ==> r.error == ParseError(s, Digit)
  {
    var n := DigitRun(s);
    if n == 0 then Err(ParseError(s, Digit))
    else
      assert s == s[..n] + s[n..];
      Ok(s[n..], s[..n])
  }

  /** `take(n)` (complete): exactly `n` bytes, or an `Eof` error at the input. */
  function Take(n: nat, s: seq<byte>): (r: Result<seq<byte>>)
    ensures r.Ok? <==> n <= |s|
    ensures r.Ok? ==> |r.value| == n && s == r.value + r.rest
    ensures r.Err? ==> r.error == ParseError(s, Eof)
  {
    if n <= |s| then
      assert s == s[..n] + s[n..];
      Ok(s[n..], s[..n])
    else Err(ParseError(s, Eof))
  }

  /** An optional minus sign followed by at least one digit: the text both
      decoders hand to `str::parse::<i64>`. */
  predicate IsSignedDigits(lit: seq<byte>) {
    || (|lit| >= 1 && lit[0] != MINUS && AllDigits(lit))
    || (|lit| >= 2 && lit[0] == MINUS && AllDigits(lit[1..]))
  }

  /** `recognize(pair(opt(char('-')), digit1))`: the consumed text of an
      optional minus sign and a maximal non-empty run of digits. */
  function SignedDigits(s: seq<byte>): (r: Result<seq<byte>>)
    ensures r.Ok? ==> IsSignedDigits(r.value) && s == r.value + r.rest
    ensures r.Ok? ==> r.rest == [] || !IsDigit(r.rest[0])
  {
    var afterSign := match Literal(MINUS, s) case Ok(rest, _) => rest case Err(_) => s;
    match Digit1(afterSign)
    case Err(e) => Err(e)
    case Ok(rest, ds) =>
      var lit := s[..|s| - |rest|];
      assert s == lit + rest;
      assert lit == s[..|s| - |afterSign|] + ds;
      Ok(rest, lit)
  }

  /** The optional-minus-sign-plus-digits text recognized for `sign` and `ds`
      is read back by `SignedDigits` when nothing digit-like follows it. */
  lemma SignedDigitsOf(negative: bool, ds: seq<byte>, rest: seq<byte>)
    requires |ds| >= 1 && AllDigits(ds)
    requires rest == [] || !IsDigit(rest[0])
    ensures SignedDigits(Sign(negative) + ds + rest) == Ok(rest, Sign(negative) + ds)
  {
    var s := Sign(negative) + ds + rest;
    if negative {
      assert s[1..] == ds + rest;
    } else {
      assert s == ds + rest;
    }
    DigitRunOf(ds, rest);
  }

  /** `[MINUS]` for a negative literal, nothing otherwise. */
  function Sign(negative: bool): seq<byte> {
    if negative then [MINUS] else []
  }

  /** The value `str::parse::<i64>` gives recognized signed digits before its
      range check. */
  function SignedValue(lit: seq<byte>): (v: int)
    requires IsSignedDigits(lit)
    ensures v < 0 ==> lit[0] == MINUS
    ensures lit[0] == MINUS ==> v <= 0
    ensures -(Pow10(|lit|) as int) < v < Pow10(|lit|)
  {
    if lit[0] == MINUS then -(DecimalValue(lit[1..]) as int) else DecimalValue(lit)
  }

  /** The signed value of an integer literal's sign and digits. */
  function LiteralValue(negative: bool, ds: seq<byte>): int
    requires AllDigits(ds)
  {
    if negative then -(DecimalValue(ds) as int) else DecimalValue(ds)
  }

  predicate InI64(v: int) {
    I64_MIN <= v <= I64_MAX
  }

  /** `map_res(signed_digit, |s| from_utf8(s).unwrap().parse::<i64>())`: the
      recognized text read as an `i64`. A value out of range is a `MapRes`
      error at the input of `map_res`. */
  function SignedInteger(s: seq<byte>): (r: Result<int64>)
    ensures r.Ok? ==> ProperSuffix(r.rest, s) && (r.rest == [] || !IsDigit(r.rest[0]))
  {
    match SignedDigits(s)
    case Err(e) => Err(e)
    case Ok(rest, lit) =>
      if InI64(SignedValue(lit)) then
        ConcatSuffix(lit, rest);
        Ok(rest, SignedValue(lit))
      else Err(ParseError(s, MapRes))
  }

  /** An optional minus sign and a digit run, followed by something that is
      not a digit, read as its signed value, or rejected when out of range. */
  lemma SignedIntegerOf(negative: bool, ds: seq<byte>, rest: seq<byte>)
    requires |ds| >= 1 && AllDigits(ds)
    requires rest == [] || !IsDigit(rest[0])
    ensures var s := Sign(negative) + ds + rest;
            var v := LiteralValue(negative, ds);
            SignedInteger(s) == if InI64(v) then Ok(rest, v) else Err(ParseError(s, MapRes))
  {
    SignedDigitsOf(negative, ds, rest);
    SignedValueOf(negative, ds);
  }

  lemma SignedValueOf(negative: bool, ds: seq<byte>)
    requires |ds| >= 1 && AllDigits(ds)
    ensures IsSignedDigits(Sign(negative) + ds)
    ensures SignedValue(Sign(negative) + ds) == LiteralValue(negative, ds)
  {
    var lit := Sign(negative) + ds;
    if negative {
      assert lit[1..] == ds;
    } else {
      assert lit == ds && lit[0] != MINUS;
    }
  }

  /** What `SignedInteger` accepted: a sign, a digit run of the value it
      returned, and the rest. */
  lemma SignedIntegerSound(s: seq<byte>) returns (negative: bool, ds: seq<byte>)
    requires SignedInteger(s).Ok?
    ensures |ds| >= 1 && AllDigits(ds)
    ensures SignedInteger(s).value == LiteralValue(negative, ds)
    ensures s == Sign(negative) + ds + SignedInteger(s).rest
  {
    var lit := SignedDigits(s).value;
    negative := lit[0] == MINUS;
    ds := if negative then lit[1..] else lit;
    if negative { Rejoin(lit); }
  }

  // The two grammar primitives both decoders share.

  /** `parse_number` (bdecode.rs) and `number` (lib.rs), which are spelled
      alike: `i`, an optional `-`, digits, `e`. The digits are read
      by `str::parse::<i64>` before the `e` is looked for. */
  function ParseNumber(s: seq<byte>): (r: Result<int64>)
    ensures r.Ok? ==> ProperSuffix(r.rest, s)
    ensures |s| == 0 || s[0] != INTEGER_START ==> r == Err(ParseError(s, Char))
  {
    match Literal(INTEGER_START, s)
    case Err(e) => Err(e)
    case Ok(afterStart, _) =>
      match SignedInteger(afterStart)
      case Err(e) => Err(e)
      case Ok(afterDigits, n) =>
        match Literal(END, afterDigits)
        case Err(e) => Err(e)
        case Ok(rest, _) =>
          SuffixTrans(rest, afterDigits, afterStart);
          SuffixTrans(rest, afterStart, s);
          Ok(rest, n)
  }

  /** `parse_length` (bdecode.rs) and `length` (lib.rs): digits then `:`, read by `str::parse::<usize>`. */
  function ParseLength(s: seq<byte>): (r: Result<usize>)
    ensures r.Ok? ==> ProperSuffix(r.rest, s)
    ensures |s| == 0 || !IsDigit(s[0]) ==> r == Err(ParseError(s, Digit))
  {
    match Digit1(s)
    case Err(e) => Err(e)
    case Ok(afterDigits, ds) =>
      match Literal(COLON, afterDigits)
      case Err(e) => Err(e)
      case Ok(rest, _) =>
        if DecimalValue(ds) > USIZE_MAX then Err(ParseError(s, MapRes))
        else
          assert Suffix(afterDigits, s) by {
            assert (ds + afterDigits)[|ds|..] == afterDigits;
          }
          SuffixTrans(rest, afterDigits, s);
          Ok(rest, DecimalValue(ds))
  }

  /** An integer literal `i`, optional `-`, digits (leading zeros allowed),
      `e` decodes to its signed value, followed by whatever came after it; a
      value outside the `i64` range is a `MapRes` error after the `i`. */
  lemma NumberLiteral(negative: bool, ds: seq<byte>, rest: seq<byte>)
    requires |ds| >= 1 && AllDigits(ds)
    ensures var s := [INTEGER_START] + Sign(negative) + ds + [END] + rest;
            var v := LiteralValue(negative, ds);
            ParseNumber(s) == if InI64(v) then Ok(rest, v) else Err(ParseError(s[1..], MapRes))
  {
    var s := [INTEGER_START] + Sign(negative) + ds + [END] + rest;
    var after := Sign(negative) + ds + ([END] + rest);
    assert s[1..] == after by {
      assert s == [INTEGER_START] + after;
    }
    SignedIntegerOf(negative, ds, [END] + rest);
  }

  /** A length prefix `digits :` is read as the value of the digits, leaving
      everything after the colon; a value beyond `usize` is a `MapRes` error
      at the input. */
  lemma LengthLiteral(ds: seq<byte>, after: seq<byte>)
    requires |ds| >= 1 && AllDigits(ds)
    ensures var s := ds + [COLON] + after;
            var n := DecimalValue(ds);
            ParseLength(s) == if n > USIZE_MAX then Err(ParseError(s, MapRes)) else Ok(after, n)
  {
    var s := ds + [COLON] + after;
    assert s == ds + ([COLON] + after);
    DigitRunOf(ds, [COLON] + after);
    assert ([COLON] + after)[1..] == after;
  }
}
