/** The complete bencode decoder of src/bdecode.rs: a four-variant value
    tree, its narrowing accessors, and a recursive-descent parser written with
    nom combinators, here as direct recursive functions with the same
    accept/reject behaviour and the same nom 5 errors. */
module BDecode {
  import opened Bytes
  import opened Utf8
  import opened Grammar

  /** `BValue`. Dict keys are Rust `String`s, so only valid UTF-8 byte strings. */
  datatype BValue =
    | BBytes(bytes: seq<byte>)
    | BNumber(number: int64)
    | BList(list: seq<BValue>)
    | BDict(dict: map<Utf8String, BValue>)

  // The narrowing accessors. Each aborts the process on the wrong variant;
  // here that is `None`.

  function GetList(v: BValue): (r: Option<seq<BValue>>)
    ensures r.Some? <==> v.BList?
    ensures r.Some? ==> r.value == v.list
  {
    match v
    case BList(list) => Some(list)
    case _ => None
  }

  function GetDict(v: BValue): (r: Option<map<Utf8String, BValue>>)
    ensures r.Some? <==> v.BDict?
    ensures r.Some? ==> r.value == v.dict
  {
    match v
    case BDict(dict) => Some(dict)
    case _ => None
  }

  function GetNumber(v: BValue): (r: Option<int64>)
    ensures r.Some? <==> v.BNumber?
    ensures r.Some? ==> r.value == v.number
  {
    match v
    case BNumber(n) => Some(n)
    case _ => None
  }

  function GetBytes(v: BValue): (r: Option<seq<byte>>)
    ensures r.Some? <==> v.BBytes?
    ensures r.Some? ==> r.value == v.bytes
  {
    match v
    case BBytes(bytes) => Some(bytes)
    case _ => None
  }

  /** `from_utf8(self.get_bytes()).unwrap()`: the bytes as text, which aborts
      on a non-byte-string and on invalid UTF-8. */
  function GetString(v: BValue): (r: Option<Utf8String>)
    ensures r.Some? <==> v.BBytes? && ValidUtf8(v.bytes)
    ensures r.Some? ==> r.value == v.bytes
  {
    match GetBytes(v)
    case None => None
    case Some(b) => if ValidUtf8(b) then Some(b) else None
  }

  // Grammar primitives (`parse_number` and `parse_length` are in Grammar).

  /** `parse_bytes`: a length prefix, then exactly that many bytes. */
  function ParseBytes(s: seq<byte>): (r: Result<seq<byte>>)
    ensures r.Ok? ==> ProperSuffix(r.rest, s)
    ensures |s| == 0 || !IsDigit(s[0]) ==> r == Err(ParseError(s, Digit))
  {
    match ParseLength(s)
    case Err(e) => Err(e)
    case Ok(afterLength, n) =>
      match Take(n, afterLength)
      case Err(e) => Err(e)
      case Ok(rest, b) =>
        assert Suffix(rest, afterLength) by {
          assert (b + rest)[|b|..] == rest;
        }
        SuffixTrans(rest, afterLength, s);
        Ok(rest, b)
  }

  /** `parse_string`: a byte string that `String::from_utf8` accepts; a
      `MapRes` error at the byte string's start otherwise. */
  function ParseString(s: seq<byte>): (r: Result<Utf8String>)
    ensures r.Ok? ==> ProperSuffix(r.rest, s)
    ensures |s| == 0 || !IsDigit(s[0]) ==> r == Err(ParseError(s, Digit))
  {
    match ParseBytes(s)
    case Err(e) => Err(e)
    case Ok(rest, b) => if ValidUtf8(b) then Ok(rest, b) else Err(ParseError(s, MapRes))
  }

  /** `into_iter().collect()` into a `HashMap`: entries are inserted in order,
      so a later entry replaces an earlier one with the same key. */
  function Collect(entries: seq<(Utf8String, BValue)>): (m: map<Utf8String, BValue>)
    ensures m.Keys == set i | 0 <= i < |entries| :: entries[i].0
    decreases |entries|
  {
    if entries == [] then map[]
    else
      var init := entries[..|entries| - 1];
      var last := entries[|entries| - 1];
      var m := Collect(init)[last.0 := last.1];
      assert m.Keys == (set i | 0 <= i < |init| :: init[i].0) + {last.0};
      forall i | 0 <= i < |entries| ensures entries[i].0 in m.Keys {
        if i < |init| { assert init[i] == entries[i]; }
      }
      forall i | 0 <= i < |init| ensures init[i].0 in (set j | 0 <= j < |entries| :: entries[j].0) {
        assert init[i] == entries[i];
      }
      m
  }

  // The recursive parsers. `parse` calls `parse_list` and `parse_dict` on its
  // own input, and they call `parse` on shorter input: the proper-suffix
  // ensures of each is what makes the recursion well founded.

  /** `parse`: `alt((bnumber, bbytes, blist, bdict))`. The alternatives are
      tried in order; when all fail, the error is the last one's. */
  function Parse(s: seq<byte>): (r: Result<BValue>)
    ensures r.Ok? ==> ProperSuffix(r.rest, s)
    decreases |s|, 2
  {
    match ParseNumber(s)
    case Ok(rest, n) => Ok(rest, BNumber(n))
    case Err(_) =>
      match ParseBytes(s)
      case Ok(rest, b) => Ok(rest, BBytes(b))
      case Err(_) =>
        match ParseList(s)
        case Ok(rest, vs) => Ok(rest, BList(vs))
        case Err(_) =>
          match ParseDict(s)
          case Ok(rest, m) => Ok(rest, BDict(m))
          case Err(e) => Err(e)
  }

  /** `many1(parse)`: one value, then as many more as parse (stopping, without
      error, at the first that does not). */
  function ListItems(s: seq<byte>): (r: Result<seq<BValue>>)
    ensures r.Ok? ==> ProperSuffix(r.rest, s) && |r.value| >= 1
    decreases |s|, 3
  {
    match Parse(s)
    case Err(e) => Err(e)
    case Ok(rest, v) =>
      match ListItems(rest)
      case Err(_) => Ok(rest, [v])
      case Ok(rest', vs) =>
        SuffixTrans(rest', rest, s);
        Ok(rest', [v] + vs)
  }

  /** `parse_list`: `l`, one or more values, `e`. */
  function ParseList(s: seq<byte>): (r: Result<seq<BValue>>)
    ensures r.Ok? ==> ProperSuffix(r.rest, s)
    ensures |s| == 0 || s[0] != LIST_START ==> r == Err(ParseError(s, Char))
    decreases |s|, 1
  {
    match Literal(LIST_START, s)
    case Err(e) => Err(e)
    case Ok(afterStart, _) =>
      match ListItems(afterStart)
      case Err(e) => Err(e)
      case Ok(afterItems, vs) =>
        match Literal(END, afterItems)
        case Err(e) => Err(e)
        case Ok(rest, _) =>
          SuffixTrans(rest, afterItems, afterStart);
          SuffixTrans(rest, afterStart, s);
          Ok(rest, vs)
  }

  /** `pair(parse_string, parse)`: one key and its value. */
  function ParseEntry(s: seq<byte>): (r: Result<(Utf8String, BValue)>)
    ensures r.Ok? ==> ProperSuffix(r.rest, s)
    decreases |s|, 3
  {
    match ParseString(s)
    case Err(e) => Err(e)
    case Ok(afterKey, k) =>
      match Parse(afterKey)
      case Err(e) => Err(e)
      case Ok(rest, v) =>
        SuffixTrans(rest, afterKey, s);
        Ok(rest, (k, v))
  }

  /** `many1(pair(parse_string, parse))`. */
  function DictEntries(s: seq<byte>): (r: Result<seq<(Utf8String, BValue)>>)
    ensures r.Ok? ==> ProperSuffix(r.rest, s) && |r.value| >= 1
    decreases |s|, 4
  {
    match ParseEntry(s)
    case Err(e) => Err(e)
    case Ok(rest, kv) =>
      match DictEntries(rest)
      case Err(_) => Ok(rest, [kv])
      case Ok(rest', kvs) =>
        SuffixTrans(rest', rest, s);
        Ok(rest', [kv] + kvs)
  }

  /** `parse_dict`: `d`, one or more key/value pairs, `e`, collected into a map. */
  function ParseDict(s: seq<byte>): (r: Result<map<Utf8String, BValue>>)
    ensures r.Ok? ==> ProperSuffix(r.rest, s)
    ensures |s| == 0 || s[0] != DICT_START ==> r == Err(ParseError(s, Char))
    decreases |s|, 1
  {
    match Literal(DICT_START, s)
    case Err(e) => Err(e)
    case Ok(afterStart, _) =>
      match DictEntries(afterStart)
      case Err(e) => Err(e)
      case Ok(afterEntries, entries) =>
        match Literal(END, afterEntries)
        case Err(e) => Err(e)
        case Ok(rest, _) =>
          SuffixTrans(rest, afterEntries, afterStart);
          SuffixTrans(rest, afterStart, s);
          Ok(rest, Collect(entries))
  }
}
