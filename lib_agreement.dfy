/** How the two decoders relate: src/lib.rs accepts exactly the inputs that
    src/bdecode.rs accepts with a value free of dicts whose byte strings are
    all UTF-8, and the two agree there on the remainder and, reading a
    `String` as its bytes, on the value. */
module LibAgreement {
  import opened Bytes
  import opened Utf8
  import opened Grammar
  import B = BDecode
  import BP = BDecodeProperties
  import opened BDecodeSyntax
  import Lib
  import LP = LibProperties

  /** A src/lib.rs value read as a src/bdecode.rs value. */
  function Embed(v: Lib.BValue): B.BValue
    decreases v, 1
  {
    match v
    case BString(t) => B.BBytes(t)
    case BNumber(n) => B.BNumber(n)
    case BList(vs) => B.BList(EmbedAll(vs))
  }

  function EmbedAll(vs: seq<Lib.BValue>): (r: seq<B.BValue>)
    ensures |r| == |vs|
    decreases vs, 0
  {
    if vs == [] then [] else [Embed(vs[0])] + EmbedAll(vs[1..])
  }

  /** The values src/lib.rs can represent: no dicts, and UTF-8 byte strings. */
  predicate Textual(v: B.BValue)
    decreases v
  {
    match v
    case BBytes(b) => ValidUtf8(b)
    case BNumber(_) => true
    case BList(vs) => forall i | 0 <= i < |vs| :: Textual(vs[i])
    case BDict(_) => false
  }

  /** The same, of a syntax tree. */
  predicate TextualTerm(t: Term)
    decreases t
  {
    match t
    case TNumber(_, _) => true
    case TBytes(_, payload) => ValidUtf8(payload)
    case TList(ts) => forall i | 0 <= i < |ts| :: TextualTerm(ts[i])
    case TDict(_) => false
  }

  lemma EmbedCons(v: Lib.BValue, vs: seq<Lib.BValue>)
    ensures EmbedAll([v] + vs) == [Embed(v)] + EmbedAll(vs)
  {
    assert ([v] + vs)[1..] == vs;
  }

  /** Reading a `String` as its bytes loses nothing: distinct src/lib.rs
      values stay distinct. */
  lemma {:induction false} EmbedInjective(x: Lib.BValue, y: Lib.BValue)
    requires Embed(x) == Embed(y)
    ensures x == y
    decreases x, 1
  {
    match x
    case BString(_) =>
    case BNumber(_) =>
    case BList(xs) =>
      EmbedAllInjective(xs, y.list);
  }

  lemma {:induction false} EmbedAllInjective(xs: seq<Lib.BValue>, ys: seq<Lib.BValue>)
    requires EmbedAll(xs) == EmbedAll(ys)
    ensures xs == ys
    decreases xs, 0
  {
    if xs != [] {
      assert |ys| == |xs|;
      assert EmbedAll(xs)[0] == Embed(xs[0]) && EmbedAll(ys)[0] == Embed(ys[0]);
      assert EmbedAll(xs)[1..] == EmbedAll(xs[1..]) && EmbedAll(ys)[1..] == EmbedAll(ys[1..]);
      EmbedInjective(xs[0], ys[0]);
      EmbedAllInjective(xs[1..], ys[1..]);
      assert xs == [xs[0]] + xs[1..] && ys == [ys[0]] + ys[1..];
    }
  }

  /** `string` accepts what `parse_bytes` accepts when the bytes are UTF-8,
      with the same result. */
  lemma TextIsBytes(s: seq<byte>)
    requires Lib.Text(s).Ok?
    ensures B.ParseBytes(s) == Ok(Lib.Text(s).rest, Lib.Text(s).value)
  {
  }

  /** Soundness of src/lib.rs with respect to src/bdecode.rs: whatever `value`
      decodes, `parse` decodes alike. */
  lemma {:induction false} ValueAgrees(s: seq<byte>)
    requires Lib.Value(s).Ok?
    ensures B.Parse(s) == Ok(Lib.Value(s).rest, Embed(Lib.Value(s).value))
    decreases |s|, 2
  {
    if ParseNumber(s).Ok? {
      BP.DispatchNumber(s);
    } else if Lib.Text(s).Ok? {
      TextIsBytes(s);
      BP.DispatchBytes(s);
    } else {
      ListAgrees(s);
      BP.DispatchList(s);
    }
  }

  lemma {:induction false} ListAgrees(s: seq<byte>)
    requires Lib.List(s).Ok?
    ensures B.ParseList(s) == Ok(Lib.List(s).rest, EmbedAll(Lib.List(s).value))
    decreases |s|, 1
  {
    var afterStart := s[1..];
    var afterItems := Lib.Values(afterStart).rest;
    assert |afterItems| > 0 && afterItems[0] == END;
    ValuesAgree(afterStart);
  }

  /** The items agree up to a closing `e`, where both stop. */
  lemma {:induction false} ValuesAgree(s: seq<byte>)
    requires Lib.Values(s).Ok?
    requires |Lib.Values(s).rest| > 0 && Lib.Values(s).rest[0] == END
    ensures B.ListItems(s) == Ok(Lib.Values(s).rest, EmbedAll(Lib.Values(s).value))
    decreases |s|, 3
  {
    var tail := Lib.Value(s).rest;
    var v := Lib.Value(s).value;
    ValueAgrees(s);
    if Lib.Values(tail).Err? {
      LastAgrees(s, tail, v);
    } else {
      LP.ValuesCons(s, tail, v);
      ValuesAgree(tail);
      ConsAgrees(s, tail, v, Lib.Values(tail).rest, Lib.Values(tail).value);
    }
  }

  lemma LastAgrees(s: seq<byte>, tail: seq<byte>, v: Lib.BValue)
    requires Lib.Value(s) == Ok(tail, v) && Lib.Values(tail).Err?
    requires |tail| > 0 && tail[0] == END
    requires B.Parse(s) == Ok(tail, Embed(v))
    ensures Lib.Values(s) == Ok(tail, [v])
    ensures B.ListItems(s) == Ok(tail, EmbedAll([v]))
  {
    LP.ValuesLast(s, tail, v);
    BP.EndStartsNoItems(tail);
    BP.ItemsLast(s, tail, Embed(v));
    assert EmbedAll([v]) == [Embed(v)] by {
      EmbedCons(v, []);
      assert [v] + [] == [v];
    }
  }

  lemma ConsAgrees(s: seq<byte>, tail: seq<byte>, v: Lib.BValue, rest: seq<byte>, vs: seq<Lib.BValue>)
    requires Lib.Values(s) == Ok(rest, [v] + vs)
    requires B.Parse(s) == Ok(tail, Embed(v))
    requires B.ListItems(tail) == Ok(rest, EmbedAll(vs))
    ensures B.ListItems(s) == Ok(rest, EmbedAll([v] + vs))
  {
    BP.ItemsCons(s, tail, Embed(v));
    EmbedCons(v, vs);
  }

  // Completeness of src/lib.rs on textual values.

  /** Every well-formed textual tree's spelling is decoded by `value` to what
      `parse` decodes it to, leaving what follows. */
  lemma {:induction false} ValueRender(t: Term, rest: seq<byte>)
    requires WellFormed(t) && TextualTerm(t)
    ensures Lib.Value(Render(t) + rest).Ok?
    ensures Lib.Value(Render(t) + rest).rest == rest
    ensures Embed(Lib.Value(Render(t) + rest).value) == Denote(t)
    decreases t, 2
  {
    var s := Render(t) + rest;
    match t
    case TNumber(negative, ds) =>
      NumberLiteral(negative, ds, rest);
      LP.DispatchNumber(s);
    case TBytes(ds, payload) =>
      TextRender(t, rest);
      LP.DispatchText(s);
    case TList(ts) =>
      ListRender(ts, rest);
  }

  lemma TextRender(k: Term, after: seq<byte>)
    requires k.TBytes? && WellFormed(k) && ValidUtf8(k.payload)
    ensures Lib.Text(Render(k) + after) == Ok(after, k.payload)
  {
    var p := k.payload;
    assert Lib.Text(k.length + [COLON] + (p + after)) == Ok(after, p) by {
      LP.TextLiteral(k.length, p + after);
      SplitAppend(p, after);
    }
    AppendAssoc(k.length + [COLON], p, after);
  }

  lemma {:induction false} ListRender(ts: seq<Term>, rest: seq<byte>)
    requires WellFormed(TList(ts)) && TextualTerm(TList(ts))
    ensures Lib.Value(Render(TList(ts)) + rest).Ok?
    ensures Lib.Value(Render(TList(ts)) + rest).rest == rest
    ensures Embed(Lib.Value(Render(TList(ts)) + rest).value) == Denote(TList(ts))
    decreases TList(ts), 1
  {
    var s := Render(TList(ts)) + rest;
    DropHead(LIST_START, RenderItems(ts), [END], rest);
    var vs := ValuesRender(ts, rest);
    assert ([END] + rest)[1..] == rest;
    assert Lib.List(s) == Ok(rest, vs);
    LP.DispatchList(s);
  }

  lemma {:induction false} ValuesRender(ts: seq<Term>, rest: seq<byte>) returns (vs: seq<Lib.BValue>)
    requires |ts| >= 1 && forall i | 0 <= i < |ts| :: WellFormed(ts[i]) && TextualTerm(ts[i])
    ensures Lib.Values(RenderItems(ts) + [END] + rest) == Ok([END] + rest, vs)
    ensures EmbedAll(vs) == DenoteItems(ts)
    decreases ts, 1
  {
    var tail := RenderItems(ts[1..]) + [END] + rest;
    assert RenderItems(ts) + [END] + rest == Render(ts[0]) + tail by {
      AppendAssoc(RenderItems(ts[1..]), [END], rest);
      AppendAssoc(Render(ts[0]), RenderItems(ts[1..]), [END] + rest);
    }
    ValueRender(ts[0], tail);
    var v := Lib.Value(Render(ts[0]) + tail).value;
    if |ts| == 1 {
      assert Lib.Values(tail).Err? && tail == [END] + rest by {
        assert ts[1..] == [];
        assert RenderItems(ts[1..]) == [];
        LP.EndStartsNoValues(tail);
      }
      LP.ValuesLast(Render(ts[0]) + tail, tail, v);
      vs := [v];
      EmbedCons(v, []);
      assert DenoteItems(ts) == [Denote(ts[0])] + DenoteItems([]) by {
        assert ts[1..] == [];
      }
    } else {
      var more := ValuesRender(ts[1..], rest);
      LP.ValuesCons(Render(ts[0]) + tail, tail, v);
      vs := [v] + more;
      EmbedCons(v, more);
    }
  }

  /** The whole spelling of a textual tree decodes to the one src/lib.rs
      value that embeds as the tree's meaning. */
  lemma DecodesTo(t: Term, s: seq<byte>, v: Lib.BValue)
    requires WellFormed(t) && TextualTerm(t)
    requires s == Render(t) && Embed(v) == Denote(t)
    ensures Lib.Value(s) == Ok([], v)
  {
    assert Render(t) + [] == s;
    ValueRender(t, []);
    EmbedInjective(Lib.Value(s).value, v);
  }

  // From values back to trees.

  lemma DenoteItemsAt(ts: seq<Term>, i: nat)
    requires forall j | 0 <= j < |ts| :: WellFormed(ts[j])
    requires i < |ts|
    ensures |DenoteItems(ts)| == |ts| && DenoteItems(ts)[i] == Denote(ts[i])
    decreases |ts|
  {
    if i > 0 {
      DenoteItemsAt(ts[1..], i - 1);
    } else if |ts| > 1 {
      DenoteItemsAt(ts[1..], 0);
    }
  }

  /** A tree whose value is textual is itself textual. */
  lemma {:induction false} TextualOfValue(t: Term)
    requires WellFormed(t) && Textual(Denote(t))
    ensures TextualTerm(t)
    decreases t
  {
    match t
    case TNumber(_, _) =>
    case TBytes(_, _) =>
    case TList(ts) =>
      forall i | 0 <= i < |ts| ensures TextualTerm(ts[i]) {
        DenoteItemsAt(ts, i);
        TextualOfValue(ts[i]);
      }
    case TDict(_) =>
  }

  /** Completeness of src/lib.rs with respect to src/bdecode.rs: whatever
      `parse` decodes to a textual value, `value` decodes alike. */
  lemma ValueComplete(s: seq<byte>)
    requires B.Parse(s).Ok? && Textual(B.Parse(s).value)
    ensures Lib.Value(s).Ok? && Lib.Value(s).rest == B.Parse(s).rest
    ensures Embed(Lib.Value(s).value) == B.Parse(s).value
  {
    var t := ParseSound(s);
    TextualOfValue(t);
    ValueRender(t, B.Parse(s).rest);
  }
}
