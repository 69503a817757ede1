/** The language `parse` of src/bdecode.rs accepts, described independently
    of the parser: syntax trees, the bytes each is spelled with, and the value
    it denotes. `Parse` is proved complete (every well-formed tree's spelling
    decodes to its denotation, whatever follows) and sound (every decoded
    prefix is the spelling of a well-formed tree that denotes the result). */
module BDecodeSyntax {
  import opened Bytes
  import opened Utf8
  import opened Grammar
  import opened BDecode
  import opened BDecodeProperties

  /** A bencoded value as written: the sign and digits of an integer (leading
      zeros and `-0` included), the length digits and payload of a byte
      string, the items of a list, the key/value pairs of a dict in the order
      they appear. */
  datatype Term =
    | TNumber(negative: bool, digits: seq<byte>)
    | TBytes(length: seq<byte>, payload: seq<byte>)
    | TList(items: seq<Term>)
    | TDict(entries: seq<Binding>)

  datatype Binding = Binding(key: Term, value: Term)

  function Render(t: Term): seq<byte>
    decreases t
  {
    match t
    case TNumber(negative, ds) => [INTEGER_START] + Sign(negative) + ds + [END]
    case TBytes(ds, payload) => ds + [COLON] + payload
    case TList(ts) => [LIST_START] + RenderItems(ts) + [END]
    case TDict(bs) => [DICT_START] + RenderBindings(bs) + [END]
  }

  function RenderItems(ts: seq<Term>): seq<byte>
    decreases ts
  {
    if ts == [] then [] else Render(ts[0]) + RenderItems(ts[1..])
  }

  function RenderBindings(bs: seq<Binding>): seq<byte>
    decreases bs
  {
    if bs == [] then [] else RenderBinding(bs[0]) + RenderBindings(bs[1..])
  }

  function RenderBinding(b: Binding): seq<byte>
    decreases b
  {
    Render(b.key) + Render(b.value)
  }

  /** What the decoder demands beyond the shape: digits, an integer within
      `i64`, a length that fits `usize` and matches the payload, at least one
      list item and dict entry, and keys that are UTF-8 byte strings. Nothing
      is demanded of key order or key uniqueness. */
  predicate WellFormed(t: Term)
    decreases t
  {
    match t
    case TNumber(negative, ds) =>
      |ds| >= 1 && AllDigits(ds) && InI64(LiteralValue(negative, ds))
    case TBytes(ds, payload) =>
      |ds| >= 1 && AllDigits(ds) && DecimalValue(ds) == |payload| && |payload| <= USIZE_MAX
    case TList(ts) =>
      |ts| >= 1 && forall i | 0 <= i < |ts| :: WellFormed(ts[i])
    case TDict(bs) =>
      |bs| >= 1 && forall i | 0 <= i < |bs| :: WellFormedBinding(bs[i])
  }

  predicate WellFormedBinding(b: Binding)
    decreases b
  {
    && b.key.TBytes? && WellFormed(b.key) && ValidUtf8(b.key.payload)
    && WellFormed(b.value)
  }

  function Denote(t: Term): BValue
    requires WellFormed(t)
    decreases t
  {
    match t
    case TNumber(negative, ds) => BNumber(LiteralValue(negative, ds))
    case TBytes(_, payload) => BBytes(payload)
    case TList(ts) => BList(DenoteItems(ts))
    case TDict(bs) => BDict(Collect(DenoteBindings(bs)))
  }

  function DenoteItems(ts: seq<Term>): seq<BValue>
    requires forall i | 0 <= i < |ts| :: WellFormed(ts[i])
    decreases ts
  {
    if ts == [] then [] else [Denote(ts[0])] + DenoteItems(ts[1..])
  }

  function DenoteBindings(bs: seq<Binding>): seq<(Utf8String, BValue)>
    requires forall i | 0 <= i < |bs| :: WellFormedBinding(bs[i])
    decreases bs
  {
    if bs == [] then [] else [DenoteBinding(bs[0])] + DenoteBindings(bs[1..])
  }

  function DenoteBinding(b: Binding): (Utf8String, BValue)
    requires WellFormedBinding(b)
    decreases b
  {
    (b.key.payload, Denote(b.value))
  }

  // Completeness.

  /** A well-formed byte string decodes to its payload. */
  lemma BytesRender(k: Term, after: seq<byte>)
    requires k.TBytes? && WellFormed(k)
    ensures ParseBytes(Render(k) + after) == Ok(after, k.payload)
  {
    var p := k.payload;
    assert ParseBytes(k.length + [COLON] + (p + after)) == Ok(after, p) by {
      BytesLiteral(k.length, p + after);
      SplitAppend(p, after);
    }
    AppendAssoc(k.length + [COLON], p, after);
  }

  /** A well-formed key decodes, as a `String`, to its payload. */
  lemma StringRender(k: Term, after: seq<byte>)
    requires k.TBytes? && WellFormed(k) && ValidUtf8(k.payload)
    ensures ParseString(Render(k) + after) == Ok(after, k.payload)
  {
    BytesRender(k, after);
  }

  /** Every well-formed tree's spelling decodes to what it denotes, and
      nothing after it is consumed. */
  lemma {:induction false} ParseRender(t: Term, rest: seq<byte>)
    requires WellFormed(t)
    ensures Parse(Render(t) + rest) == Ok(rest, Denote(t))
    decreases t, 2
  {
    match t
    case TNumber(negative, ds) =>
      NumberLiteral(negative, ds, rest);
      DispatchNumber(Render(t) + rest);
    case TBytes(ds, payload) =>
      BytesRender(t, rest);
      DispatchBytes(Render(t) + rest);
    case TList(ts) => ListRender(ts, rest);
    case TDict(bs) => DictRender(bs, rest);
  }

  lemma {:induction false} ListRender(ts: seq<Term>, rest: seq<byte>)
    requires WellFormed(TList(ts))
    ensures Parse(Render(TList(ts)) + rest) == Ok(rest, Denote(TList(ts)))
    decreases TList(ts), 1
  {
    var s := Render(TList(ts)) + rest;
    DropHead(LIST_START, RenderItems(ts), [END], rest);
    ItemsRender(ts, rest);
    assert ([END] + rest)[1..] == rest;
    assert ParseList(s) == Ok(rest, DenoteItems(ts));
    DispatchList(s);
  }

  lemma {:induction false} DictRender(bs: seq<Binding>, rest: seq<byte>)
    requires WellFormed(TDict(bs))
    ensures Parse(Render(TDict(bs)) + rest) == Ok(rest, Denote(TDict(bs)))
    decreases TDict(bs), 1
  {
    var s := Render(TDict(bs)) + rest;
    DropHead(DICT_START, RenderBindings(bs), [END], rest);
    BindingsRender(bs, rest);
    assert ([END] + rest)[1..] == rest;
    assert ParseDict(s) == Ok(rest, Collect(DenoteBindings(bs)));
    DispatchDict(s);
  }

  /** The items of a well-formed list, up to its closing `e`. */
  lemma {:induction false} ItemsRender(ts: seq<Term>, rest: seq<byte>)
    requires |ts| >= 1 && forall i | 0 <= i < |ts| :: WellFormed(ts[i])
    ensures ListItems(RenderItems(ts) + [END] + rest) == Ok([END] + rest, DenoteItems(ts))
    decreases ts, 1
  {
    var tail := RenderItems(ts[1..]) + [END] + rest;
    assert RenderItems(ts) + [END] + rest == Render(ts[0]) + tail by {
      AppendAssoc(RenderItems(ts[1..]), [END], rest);
      AppendAssoc(Render(ts[0]), RenderItems(ts[1..]), [END] + rest);
    }
    ParseRender(ts[0], tail);
    var v := Denote(ts[0]);
    if |ts| == 1 {
      assert ListItems(tail).Err? && DenoteItems(ts) == [v] && tail == [END] + rest by {
        assert ts[1..] == [];
        assert RenderItems(ts[1..]) == [];
        EndStartsNoItems(tail);
      }
      ItemsLast(Render(ts[0]) + tail, tail, v);
    } else {
      ItemsRender(ts[1..], rest);
      ItemsCons(Render(ts[0]) + tail, tail, v);
    }
  }

  /** The entries of a well-formed dict, up to its closing `e`. */
  lemma {:induction false} BindingsRender(bs: seq<Binding>, rest: seq<byte>)
    requires |bs| >= 1 && forall i | 0 <= i < |bs| :: WellFormedBinding(bs[i])
    ensures DictEntries(RenderBindings(bs) + [END] + rest) == Ok([END] + rest, DenoteBindings(bs))
    decreases bs, 1
  {
    var s := RenderBindings(bs) + [END] + rest;
    var tail := RenderBindings(bs[1..]) + [END] + rest;
    ConsBindings(bs[0], bs[1..]);
    assert [bs[0]] + bs[1..] == bs;
    assert s == RenderBinding(bs[0]) + tail by {
      AppendAssoc(RenderBindings(bs[1..]), [END], rest);
      AppendAssoc(RenderBinding(bs[0]), RenderBindings(bs[1..]), [END] + rest);
    }
    BindingRender(bs[0], tail);
    var kv := DenoteBinding(bs[0]);
    if |bs| == 1 {
      assert DictEntries(tail).Err? && DenoteBindings(bs) == [kv] && tail == [END] + rest by {
        assert bs[1..] == [];
        assert RenderBindings(bs[1..]) == [];
        EndStartsNoEntries(tail);
      }
      EntriesLast(RenderBinding(bs[0]) + tail, tail, kv);
    } else {
      BindingsRender(bs[1..], rest);
      EntriesCons(RenderBinding(bs[0]) + tail, tail, kv);
    }
  }

  /** One well-formed key/value pair. */
  lemma {:induction false} BindingRender(b: Binding, rest: seq<byte>)
    requires WellFormedBinding(b)
    ensures ParseEntry(RenderBinding(b) + rest) == Ok(rest, DenoteBinding(b))
    decreases b, 0
  {
    var afterKey := Render(b.value) + rest;
    AppendAssoc(Render(b.key), Render(b.value), rest);
    StringRender(b.key, afterKey);
    ParseRender(b.value, rest);
  }

  // Soundness.

  /** A decoded byte string was spelled as a well-formed byte string. */
  lemma BytesSound(s: seq<byte>) returns (k: Term)
    requires ParseBytes(s).Ok?
    ensures k.TBytes? && WellFormed(k) && k.payload == ParseBytes(s).value
    ensures s == Render(k) + ParseBytes(s).rest
  {
    var ds := Digit1(s).value;
    var afterDigits := Digit1(s).rest;
    var afterLength := afterDigits[1..];
    var rest := ParseBytes(s).rest;
    var payload := ParseBytes(s).value;
    k := TBytes(ds, payload);
    assert afterLength == payload + rest;
    Rejoin(afterDigits);
    AppendAssoc(ds, [COLON], afterLength);
    AppendAssoc(ds + [COLON], payload, rest);
  }

  /** A decoded integer was spelled as a well-formed integer literal. */
  lemma NumberSound(s: seq<byte>) returns (t: Term)
    requires ParseNumber(s).Ok?
    ensures t.TNumber? && WellFormed(t) && BNumber(ParseNumber(s).value) == Denote(t)
    ensures s == Render(t) + ParseNumber(s).rest
  {
    var afterStart := s[1..];
    var afterDigits := SignedInteger(afterStart).rest;
    var rest := ParseNumber(s).rest;
    assert s[0] == INTEGER_START && |afterDigits| > 0 && afterDigits[0] == END && rest == afterDigits[1..];
    assert ParseNumber(s).value == SignedInteger(afterStart).value;
    var negative, ds := SignedIntegerSound(afterStart);
    t := TNumber(negative, ds);
    NumberSpelling(s, negative, ds, afterDigits, rest);
  }

  lemma NumberSpelling(s: seq<byte>, negative: bool, ds: seq<byte>, afterDigits: seq<byte>, rest: seq<byte>)
    requires |s| > 0 && s[0] == INTEGER_START && s[1..] == Sign(negative) + ds + afterDigits
    requires |afterDigits| > 0 && afterDigits[0] == END && rest == afterDigits[1..]
    ensures s == [INTEGER_START] + Sign(negative) + ds + [END] + rest
  {
    Rejoin(s);
    Rejoin(afterDigits);
  }

  /** Every successful decode consumed the spelling of a well-formed tree
      that denotes the decoded value. */
  lemma {:induction false} ParseSound(s: seq<byte>) returns (t: Term)
    requires Parse(s).Ok?
    ensures WellFormed(t) && Denote(t) == Parse(s).value
    ensures s == Render(t) + Parse(s).rest
    decreases |s|, 2
  {
    if ParseNumber(s).Ok? {
      t := NumberSound(s);
    } else if ParseBytes(s).Ok? {
      t := BytesSound(s);
    } else if ParseList(s).Ok? {
      t := ListSound(s);
    } else {
      t := DictSound(s);
    }
  }

  lemma {:induction false} ListSound(s: seq<byte>) returns (t: Term)
    requires ParseList(s).Ok?
    ensures t.TList? && WellFormed(t) && Denote(t) == BList(ParseList(s).value)
    ensures s == Render(t) + ParseList(s).rest
    decreases |s|, 1
  {
    var afterStart := s[1..];
    var afterItems := ListItems(afterStart).rest;
    var rest := ParseList(s).rest;
    var ts := ItemsSound(afterStart);
    t := TList(ts);
    Rejoin(s);
    Rejoin(afterItems);
    assert s == [LIST_START] + (RenderItems(ts) + ([END] + rest));
    AppendAssoc(RenderItems(ts), [END], rest);
    AppendAssoc([LIST_START], RenderItems(ts) + [END], rest);
    AppendAssoc([LIST_START], RenderItems(ts), [END]);
  }

  lemma {:induction false} ItemsSound(s: seq<byte>) returns (ts: seq<Term>)
    requires ListItems(s).Ok?
    ensures |ts| >= 1 && forall i | 0 <= i < |ts| :: WellFormed(ts[i])
    ensures DenoteItems(ts) == ListItems(s).value
    ensures s == RenderItems(ts) + ListItems(s).rest
    decreases |s|, 3
  {
    var t0 := ParseSound(s);
    var r1 := Parse(s).rest;
    if ListItems(r1).Err? {
      LastItem(s, t0);
      ts := [t0];
    } else {
      var more := ItemsSound(r1);
      NextItem(s, t0, more);
      ts := [t0] + more;
    }
  }

  lemma LastItem(s: seq<byte>, t: Term)
    requires Parse(s).Ok? && ListItems(Parse(s).rest).Err?
    requires WellFormed(t) && Denote(t) == Parse(s).value
    ensures ListItems(s) == Ok(Parse(s).rest, [Denote(t)])
    ensures forall i | 0 <= i < |[t]| :: WellFormed([t][i])
    ensures DenoteItems([t]) == [Denote(t)] && RenderItems([t]) == Render(t)
  {
    ItemsLast(s, Parse(s).rest, Parse(s).value);
    ConsItems(t, []);
    assert [t] + [] == [t];
  }

  lemma NextItem(s: seq<byte>, t: Term, more: seq<Term>)
    requires Parse(s).Ok? && ListItems(Parse(s).rest).Ok?
    requires WellFormed(t) && Denote(t) == Parse(s).value
    requires s == Render(t) + Parse(s).rest
    requires forall i | 0 <= i < |more| :: WellFormed(more[i])
    requires DenoteItems(more) == ListItems(Parse(s).rest).value
    requires Parse(s).rest == RenderItems(more) + ListItems(Parse(s).rest).rest
    ensures forall i | 0 <= i < |[t] + more| :: WellFormed(([t] + more)[i])
    ensures ListItems(s).Ok? && DenoteItems([t] + more) == ListItems(s).value
    ensures s == RenderItems([t] + more) + ListItems(s).rest
  {
    var r1 := Parse(s).rest;
    ItemsCons(s, r1, Parse(s).value);
    ConsItems(t, more);
    AppendAssoc(Render(t), RenderItems(more), ListItems(r1).rest);
  }

  /** Spelling and meaning of a list body, one item at a time. */
  lemma ConsItems(t: Term, ts: seq<Term>)
    requires WellFormed(t) && forall i | 0 <= i < |ts| :: WellFormed(ts[i])
    ensures forall i | 0 <= i < |[t] + ts| :: WellFormed(([t] + ts)[i])
    ensures RenderItems([t] + ts) == Render(t) + RenderItems(ts)
    ensures DenoteItems([t] + ts) == [Denote(t)] + DenoteItems(ts)
  {
    assert ([t] + ts)[1..] == ts;
  }

  lemma {:induction false} DictSound(s: seq<byte>) returns (t: Term)
    requires ParseDict(s).Ok?
    ensures t.TDict? && WellFormed(t) && Denote(t) == BDict(ParseDict(s).value)
    ensures s == Render(t) + ParseDict(s).rest
    decreases |s|, 1
  {
    var afterStart := s[1..];
    var afterEntries := DictEntries(afterStart).rest;
    var rest := ParseDict(s).rest;
    var bs := BindingsSound(afterStart);
    t := TDict(bs);
    Rejoin(s);
    Rejoin(afterEntries);
    assert s == [DICT_START] + (RenderBindings(bs) + ([END] + rest));
    AppendAssoc(RenderBindings(bs), [END], rest);
    AppendAssoc([DICT_START], RenderBindings(bs) + [END], rest);
    AppendAssoc([DICT_START], RenderBindings(bs), [END]);
  }

  lemma {:induction false} EntrySound(s: seq<byte>) returns (b: Binding)
    requires ParseEntry(s).Ok?
    ensures WellFormedBinding(b) && DenoteBinding(b) == ParseEntry(s).value
    ensures s == RenderBinding(b) + ParseEntry(s).rest
    decreases |s|, 3
  {
    var k := BytesSound(s);
    var afterKey := ParseString(s).rest;
    var v := ParseSound(afterKey);
    b := Binding(k, v);
    AppendAssoc(Render(k), Render(v), ParseEntry(s).rest);
  }

  lemma {:induction false} BindingsSound(s: seq<byte>) returns (bs: seq<Binding>)
    requires DictEntries(s).Ok?
    ensures |bs| >= 1 && forall i | 0 <= i < |bs| :: WellFormedBinding(bs[i])
    ensures DenoteBindings(bs) == DictEntries(s).value
    ensures s == RenderBindings(bs) + DictEntries(s).rest
    decreases |s|, 4
  {
    var b0 := EntrySound(s);
    var r1 := ParseEntry(s).rest;
    if DictEntries(r1).Err? {
      LastBinding(s, b0);
      bs := [b0];
    } else {
      var more := BindingsSound(r1);
      NextBinding(s, b0, more);
      bs := [b0] + more;
    }
  }

  lemma LastBinding(s: seq<byte>, b: Binding)
    requires ParseEntry(s).Ok? && DictEntries(ParseEntry(s).rest).Err?
    requires WellFormedBinding(b) && DenoteBinding(b) == ParseEntry(s).value
    ensures DictEntries(s) == Ok(ParseEntry(s).rest, [DenoteBinding(b)])
    ensures forall i | 0 <= i < |[b]| :: WellFormedBinding([b][i])
    ensures DenoteBindings([b]) == [DenoteBinding(b)] && RenderBindings([b]) == RenderBinding(b)
  {
    EntriesLast(s, ParseEntry(s).rest, ParseEntry(s).value);
    ConsBindings(b, []);
    assert [b] + [] == [b];
  }

  lemma NextBinding(s: seq<byte>, b: Binding, more: seq<Binding>)
    requires ParseEntry(s).Ok? && DictEntries(ParseEntry(s).rest).Ok?
    requires WellFormedBinding(b) && DenoteBinding(b) == ParseEntry(s).value
    requires s == RenderBinding(b) + ParseEntry(s).rest
    requires forall i | 0 <= i < |more| :: WellFormedBinding(more[i])
    requires DenoteBindings(more) == DictEntries(ParseEntry(s).rest).value
    requires ParseEntry(s).rest == RenderBindings(more) + DictEntries(ParseEntry(s).rest).rest
    ensures forall i | 0 <= i < |[b] + more| :: WellFormedBinding(([b] + more)[i])
    ensures DictEntries(s).Ok? && DenoteBindings([b] + more) == DictEntries(s).value
    ensures s == RenderBindings([b] + more) + DictEntries(s).rest
  {
    var r1 := ParseEntry(s).rest;
    EntriesCons(s, r1, ParseEntry(s).value);
    ConsBindings(b, more);
    AppendAssoc(RenderBinding(b), RenderBindings(more), DictEntries(r1).rest);
  }

  /** Spelling and meaning of a dict body, one entry at a time. */
  lemma ConsBindings(b: Binding, bs: seq<Binding>)
    requires WellFormedBinding(b) && forall i | 0 <= i < |bs| :: WellFormedBinding(bs[i])
    ensures forall i | 0 <= i < |[b] + bs| :: WellFormedBinding(([b] + bs)[i])
    ensures RenderBindings([b] + bs) == RenderBinding(b) + RenderBindings(bs)
    ensures DenoteBindings([b] + bs) == [DenoteBinding(b)] + DenoteBindings(bs)
  {
    assert ([b] + bs)[1..] == bs;
  }

  // Consequences.

  /** `parse` only looks at the value it decodes: appending bytes to the
      input appends them to the remainder and changes nothing else. */
  lemma Extension(s: seq<byte>, x: seq<byte>)
    requires Parse(s).Ok?
    ensures Parse(s + x) == Ok(Parse(s).rest + x, Parse(s).value)
  {
    var t := ParseSound(s);
    AppendAssoc(Render(t), Parse(s).rest, x);
    ParseRender(t, Parse(s).rest + x);
  }

  /** Every proper prefix of a decoded value is rejected: there is no
      truncated value the decoder would take for a complete one. */
  lemma TruncationRejected(s: seq<byte>, k: nat)
    requires Parse(s).Ok? && k < |s| - |Parse(s).rest|
    ensures Parse(s[..k]).Err?
  {
    assert s[..k] + s[k..] == s;
    if Parse(s[..k]).Ok? {
      Extension(s[..k], s[k..]);
      assert false;
    }
  }
}
