/** The earlier decoder of src/lib.rs: a three-variant value tree whose
    strings are UTF-8 text, with no dicts. Its `number` and `length` are
    spelled exactly as `parse_number` and `parse_length` of src/bdecode.rs and
    are `Grammar.ParseNumber` and `Grammar.ParseLength` here. */
module Lib {
  import opened Bytes
  import opened Utf8
  import opened Grammar

  /** `BValue` of src/lib.rs. */
  datatype BValue =
    | BString(text: Utf8String)
    | BNumber(number: int64)
    | BList(list: seq<BValue>)

  /** `string`: a length prefix, exactly that many bytes, and
      `String::from_utf8` on them. The `map_res` wraps only the `take`, so a
      payload that is not UTF-8 is a `MapRes` error at the input after the
      colon, and a short payload an `Eof` error there. */
  function Text(s: seq<byte>): (r: Result<Utf8String>)
    ensures r.Ok? ==> ProperSuffix(r.rest, s)
    ensures |s| == 0 || !IsDigit(s[0]) ==> r == Err(ParseError(s, Digit))
  {
    match ParseLength(s)
    case Err(e) => Err(e)
    case Ok(left, len) =>
      match Take(len, left)
      case Err(e) => Err(e)
      case Ok(rest, b) =>
        if ValidUtf8(b) then
          assert Suffix(rest, left) by {
            assert (b + rest)[|b|..] == rest;
          }
          SuffixTrans(rest, left, s);
          Ok(rest, b)
        else Err(ParseError(left, MapRes))
  }

  /** `value`: `alt((bnumber, bstring, blist))`. When all three fail the
      error is the list's. */
  function Value(s: seq<byte>): (r: Result<BValue>)
    ensures r.Ok? ==> ProperSuffix(r.rest, s)
    decreases |s|, 2
  {
    match ParseNumber(s)
    case Ok(rest, n) => Ok(rest, BNumber(n))
    case Err(_) =>
      match Text(s)
      case Ok(rest, t) => Ok(rest, BString(t))
      case Err(_) =>
        match List(s)
        case Ok(rest, vs) => Ok(rest, BList(vs))
        case Err(e) => Err(e)
  }

  /** `many1(value)`. */
  function Values(s: seq<byte>): (r: Result<seq<BValue>>)
    ensures r.Ok? ==> ProperSuffix(r.rest, s) && |r.value| >= 1
    decreases |s|, 3
  {
    match Value(s)
    case Err(e) => Err(e)
    case Ok(rest, v) =>
      match Values(rest)
      case Err(_) => Ok(rest, [v])
      case Ok(rest', vs) =>
        SuffixTrans(rest', rest, s);
        Ok(rest', [v] + vs)
  }

  /** `list`: `l`, one or more values, `e`. */
  function List(s: seq<byte>): (r: Result<seq<BValue>>)
    ensures r.Ok? ==> ProperSuffix(r.rest, s)
    ensures |s| == 0 || s[0] != LIST_START ==> r == Err(ParseError(s, Char))
    decreases |s|, 1
  {
    match Literal(LIST_START, s)
    case Err(e) => Err(e)
    case Ok(afterStart, _) =>
      match Values(afterStart)
      case Err(e) => Err(e)
      case Ok(afterItems, vs) =>
        match Literal(END, afterItems)
        case Err(e) => Err(e)
        case Ok(rest, _) =>
          SuffixTrans(rest, afterItems, afterStart);
          SuffixTrans(rest, afterStart, s);
          Ok(rest, vs)
  }
}
