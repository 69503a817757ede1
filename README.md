# bencode decoder (bencode-rust), modelled in Dafny

bencode-rust decodes the bencode format of BitTorrent metadata files. It has
four kinds of value:
- integers `i<digits>e`;
- byte strings `<length>:<bytes>`;
- lists `l<values>e`;
- dicts `d<key><value>...e`.

The crate holds two decoders, both written with nom 5 parser combinators:

- `src/bdecode.rs` is the complete one, and the one the command-line tool
  uses. Its value tree has four variants: byte strings, `i64` integers, lists
  and `HashMap<String, _>` dicts. It also provides narrowing accessors.
- `src/lib.rs` is an earlier, smaller decoder. Its value tree has three
  variants: UTF-8 strings, `i64` integers and lists. It has no dicts.

The combinators become direct recursive functions over `seq<byte>`. They
accept and reject the same inputs and return the same remainders and
values. Failures return nom's default error: the input slice where the
failure was detected, and an `ErrorKind`.

- `char` fails with `Char`, `digit1` with `Digit`, a conversion inside
  `map_res` with `MapRes`, and `take` with `Eof`.
- `alt` reports the error of its last alternative.
- `many1(p)` parses one `p`, then keeps parsing until `p` fails. That failure
  is not an error.

The files:

- `bytes.dfy`: bytes, the delimiters and decimal digit runs.
- `utf8.dfy`: UTF-8 well-formedness, following section 4 of RFC 3629. This
  is what `String::from_utf8` and `str::from_utf8` check.
- `grammar.dfy`: the nom primitives, and the `parse_number` and
  `parse_length` grammar that both decoders spell identically.
- `bdecode.dfy`: the src/bdecode.rs value type, accessors and parsers.
- `bdecode_props.dfy`:
  - per-primitive behaviour;
  - round trips;
  - dispatch on the first byte;
  - the rejection of `le`, `de` and non-UTF-8 keys;
  - last-wins collection of dict entries.
- `bdecode_syntax.dfy`: an independent description of the accepted language,
  as syntax trees with a spelling (`Render`) and a meaning (`Denote`).
  - Completeness: every well-formed tree's spelling decodes to its meaning,
    whatever follows it.
  - Soundness: everything decoded is such a spelling.
  - Consequences: appending input never changes a decode, and no truncated
    value is accepted.
- `bdecode_tests.dfy`: the inputs of the unit tests in src/bdecode.rs, and
  the leading-zero, `-0`, truncation and repeated-key cases. Each is derived
  from the general lemmas.
- `lib.dfy`, `lib_props.dfy`, `lib_tests.dfy`: the same for src/lib.rs.
- `lib_agreement.dfy`: how the two decoders relate. src/lib.rs decodes
  exactly the inputs that src/bdecode.rs decodes to a value with no dicts and
  only UTF-8 byte strings. On those inputs the two agree.

The model follows the code where it departs from the bencode conventions:

- Integers may have leading zeros (`i03e` is 3), and `-0` is accepted as 0.
- A list or dict needs at least one element, because of `many1`. So `le` and
  `de` are rejected.
- Dict keys need not be sorted. A repeated key keeps its last value.
- Dict keys must be valid UTF-8, because the map is keyed by Rust `String`.
  A dict whose key is not UTF-8 is rejected, not decoded with byte keys.
- Errors are nom's (input, kind) pairs, not a bencode-specific error
  taxonomy.
- A value that matches no alternative reports the error of the last
  alternative: the dict's in src/bdecode.rs, the list's in src/lib.rs.

## Model

| member | source | states |
|---|---|---|
| Bytes.DecimalValue | src/bdecode.rs:64 | the value `str::parse::<usize>` (and, unsigned, `parse::<i64>`) reads from a digit run: `n` digits stay below `10^n` |
| Bytes.DecimalConcat | src/bdecode.rs:64 | the reading is positional: digits `a` in front of `b` count ten to the power of the length of `b` times their own value |
| Bytes.LeadingZero | src/bdecode.rs:58 | a leading `0` does not change the value `str::parse` gives a digit run |
| Utf8.ValidUtf8 | src/bdecode.rs:68 | the acceptance test of `String::from_utf8` / `from_utf8` (RFC 3629, section 4, character by character); whatever it accepts contains none of the bytes C0, C1, F5 to FF |
| Utf8.AsciiIsValid | src/bdecode.rs:68 | every ASCII byte string is accepted by `String::from_utf8` |
| Utf8.LoneTailRejected | src/bdecode.rs:68 | a lone continuation byte is not UTF-8 |
| Utf8.OverlongRejected | src/bdecode.rs:68 | the overlong encoding `C0 AF` is not UTF-8 |
| Utf8.SurrogateRejected | src/bdecode.rs:68 | an encoded surrogate `ED A0 80` is not UTF-8 |
| Utf8.EuroAccepted | src/lib.rs:35 | the three-byte character `E2 82 AC` is UTF-8 |
| Grammar.Literal | src/bdecode.rs:59 | `char(c)` succeeds exactly when the input starts with `c` and consumes that byte; otherwise it fails with `Char` at the input |
| Grammar.Digit1 | src/bdecode.rs:57 | `digit1` succeeds exactly on input that starts with a digit and takes the maximal digit run; otherwise it fails with `Digit` at the input |
| Grammar.Take | src/bdecode.rs:73 | `take(n)` succeeds exactly when `n` bytes remain and splits them off; otherwise it fails with `Eof` at the input |
| Grammar.SignedDigits | src/bdecode.rs:57 | `recognize(pair(opt(char('-')), digit1))` returns an optional minus and a digit run that the rest does not continue |
| Grammar.SignedDigitsOf | src/bdecode.rs:57 | a minus sign (optional) and digits not followed by a digit are recognized exactly |
| Grammar.SignedInteger | src/bdecode.rs:57-58 | the recognized text is read as an `i64`; the rest does not start with a digit |
| Grammar.SignedValue | src/bdecode.rs:58 | the value `parse::<i64>` reads before its range check: negative only after a minus sign, never positive after one (`-0` is 0), and below `10^n` in magnitude for `n` bytes of text |
| Grammar.SignedIntegerOf | src/bdecode.rs:57-58 | sign plus digits decode to their signed value when it fits `i64`; otherwise they give `MapRes` at the input |
| Grammar.SignedIntegerSound | src/bdecode.rs:57-58 | whatever is read was spelled as a sign, a digit run of the returned value, and the rest |
| Grammar.ParseNumber | src/bdecode.rs:56-60 | `parse_number` consumes input it decodes; input that does not start with `i` is a `Char` error at the input |
| Grammar.ParseLength | src/bdecode.rs:62-65 | `parse_length` consumes input it decodes; input that does not start with a digit is a `Digit` error at the input |
| Grammar.NumberLiteral | src/bdecode.rs:56-60 | `i`, an optional `-`, digits and `e` decode to the signed value and leave what follows; out of `i64` range is `MapRes` after the `i` |
| Grammar.LengthLiteral | src/bdecode.rs:62-65 | `digits:` decodes to the value of the digits and leaves what follows; beyond `usize` is `MapRes` at the input |
| BDecode.GetList | src/bdecode.rs:23-28 | `get_list` yields the items exactly for a list; any other variant is the panic case |
| BDecode.GetDict | src/bdecode.rs:30-35 | `get_dict` yields the map exactly for a dict |
| BDecode.GetNumber | src/bdecode.rs:37-42 | `get_number` yields the integer exactly for a number |
| BDecode.GetBytes | src/bdecode.rs:44-49 | `get_bytes` yields the bytes exactly for a byte string |
| BDecode.GetString | src/bdecode.rs:51-53 | `get_string` yields the bytes exactly for a byte string that is UTF-8; otherwise it aborts |
| BDecode.ParseBytes | src/bdecode.rs:71-75 | `parse_bytes` consumes input it decodes; input that does not start with a digit is a `Digit` error |
| BDecode.ParseString | src/bdecode.rs:67-69 | `parse_string` consumes input it decodes; input that does not start with a digit is a `Digit` error |
| BDecode.Collect | src/bdecode.rs:86 | collecting pairs into the map gives exactly the keys of the pairs |
| BDecode.Parse | src/bdecode.rs:89-95 | `parse` leaves a proper suffix of its input whenever it succeeds |
| BDecode.ListItems | src/bdecode.rs:78 | `many1(parse)` yields at least one value and consumes input |
| BDecode.ParseList | src/bdecode.rs:77-80 | `parse_list` consumes input it decodes; input that does not start with `l` is a `Char` error at the input |
| BDecode.ParseEntry | src/bdecode.rs:83 | one key/value pair consumes input |
| BDecode.DictEntries | src/bdecode.rs:84 | `many1` of pairs yields at least one pair and consumes input |
| BDecode.ParseDict | src/bdecode.rs:82-87 | `parse_dict` consumes input it decodes; input that does not start with `d` is a `Char` error at the input |
| BDecodeProperties.BytesLiteral | src/bdecode.rs:71-75 | `digits:after` takes exactly the declared count from `after`; too few bytes is `Eof` at `after`, beyond `usize` is `MapRes` |
| BDecodeProperties.BytesRoundTrip | src/bdecode.rs:71-75 | the shortest length prefix, a colon and any bytes `b` decode to exactly `b` and leave exactly what follows |
| BDecodeProperties.BytesMalformedPrefix | src/bdecode.rs:62-65 | no leading digit is a `Digit` error at the input; digits without a following `:` are a `Char` error after the digits |
| BDecodeProperties.IntegerRoundTrip | src/bdecode.rs:56-60 | every `i64` decodes from its literal to itself, leaving what follows; every other integer is `MapRes` and `parse` fails |
| BDecodeProperties.DispatchNumber | src/bdecode.rs:89-95 | on input starting with `i`, `parse` is `parse_number`, and a failure is reported as the dict's `Char` error |
| BDecodeProperties.DispatchBytes | src/bdecode.rs:89-95 | on input starting with a digit, `parse` is `parse_bytes`, and a failure is the dict's `Char` error |
| BDecodeProperties.DispatchList | src/bdecode.rs:89-95 | on input starting with `l`, `parse` is `parse_list`, and a failure is the dict's `Char` error |
| BDecodeProperties.DispatchDict | src/bdecode.rs:89-95 | on input starting with `d`, `parse` is `parse_dict`, including its error |
| BDecodeProperties.DispatchNone | src/bdecode.rs:89-95 | empty input, or input starting with any other byte, is a `Char` error at the input |
| BDecodeProperties.EndStartsNoValue | src/bdecode.rs:89-95 | no value starts with `e` |
| BDecodeProperties.EndStartsNoItems | src/bdecode.rs:78 | no run of values starts with `e` |
| BDecodeProperties.EndStartsNoEntries | src/bdecode.rs:84 | no run of pairs starts with `e` |
| BDecodeProperties.EmptyListRejected | src/bdecode.rs:77-80 | `le` is rejected, whatever follows |
| BDecodeProperties.EmptyDictRejected | src/bdecode.rs:82-87 | `de` is rejected, whatever follows |
| BDecodeProperties.NonUtf8KeyRejected | src/bdecode.rs:67-69 | a dict whose first key is a well-formed byte string but not UTF-8 fails with `MapRes` at that key |
| BDecodeProperties.CollectLastWins | src/bdecode.rs:86 | a key maps to the value of its last occurrence, wherever it stands in the input |
| BDecodeSyntax.BytesRender | src/bdecode.rs:71-75 | a well-formed byte string's spelling decodes to its payload and leaves what follows |
| BDecodeSyntax.StringRender | src/bdecode.rs:67-69 | a well-formed UTF-8 key's spelling decodes to its payload |
| BDecodeSyntax.ParseRender | src/bdecode.rs:89-95 | completeness: every well-formed tree's spelling decodes to its meaning, leaving exactly what follows |
| BDecodeSyntax.ListRender | src/bdecode.rs:77-80 | completeness for lists |
| BDecodeSyntax.DictRender | src/bdecode.rs:82-87 | completeness for dicts, with the pairs collected in input order |
| BDecodeSyntax.ItemsRender | src/bdecode.rs:78 | the items of a list decode in order up to its closing `e` |
| BDecodeSyntax.BindingsRender | src/bdecode.rs:84 | the pairs of a dict decode in order up to its closing `e` |
| BDecodeSyntax.BindingRender | src/bdecode.rs:83 | one key/value pair decodes to its key and value |
| BDecodeSyntax.BytesSound | src/bdecode.rs:71-75 | whatever `parse_bytes` decodes was spelled as a well-formed byte string of that payload |
| BDecodeSyntax.NumberSound | src/bdecode.rs:56-60 | whatever `parse_number` decodes was spelled as a well-formed integer literal of that value |
| BDecodeSyntax.ParseSound | src/bdecode.rs:89-95 | soundness: every successful decode consumed the spelling of a well-formed tree that means the decoded value |
| BDecodeSyntax.ListSound | src/bdecode.rs:77-80 | soundness for lists |
| BDecodeSyntax.ItemsSound | src/bdecode.rs:78 | soundness for a run of list items |
| BDecodeSyntax.DictSound | src/bdecode.rs:82-87 | soundness for dicts |
| BDecodeSyntax.EntrySound | src/bdecode.rs:83 | soundness for one pair |
| BDecodeSyntax.BindingsSound | src/bdecode.rs:84 | soundness for a run of pairs |
| BDecodeSyntax.Extension | src/bdecode.rs:89-95 | appending bytes to a decodable input appends them to the remainder and changes nothing else |
| BDecodeSyntax.TruncationRejected | src/bdecode.rs:89-95 | every proper prefix of a decoded value is rejected |
| BDecodeTests.TestPositive | src/bdecode.rs:104 | `i3e` decodes to 3 with nothing left |
| BDecodeTests.TestNegative | src/bdecode.rs:105 | `i-3e` decodes to -3 |
| BDecodeTests.TestLeadingZero | src/bdecode.rs:58 | `i03e` is accepted, as 3 |
| BDecodeTests.TestNegativeZero | src/bdecode.rs:58 | `i-0e` is accepted, as 0 |
| BDecodeTests.TestBytes | src/bdecode.rs:110 | `12:Hello World!` decodes to its twelve bytes |
| BDecodeTests.TestTruncated | src/bdecode.rs:73 | `15:Hello World!` is an `Eof` error at the payload, and `parse` fails |
| BDecodeTests.TestList | src/bdecode.rs:116 | `l4:spam4:eggse` decodes to the list [spam, eggs] |
| BDecodeTests.TestDict | src/bdecode.rs:125 | `d3:cow3:moo4:spam4:eggse` decodes to {cow: moo, spam: eggs} |
| BDecodeTests.CollectTwo | src/bdecode.rs:86 | two collected pairs make the map that inserts them in order |
| BDecodeTests.TestRepeatedKey | src/bdecode.rs:86 | `d1:ai1e1:ai2ee` decodes to {a: 2} |
| Lib.Text | src/lib.rs:31-36 | `string` consumes input it decodes; input that does not start with a digit is a `Digit` error |
| Lib.Value | src/lib.rs:43-48 | `value` leaves a proper suffix of its input whenever it succeeds |
| Lib.Values | src/lib.rs:39 | `many1(value)` yields at least one value and consumes input |
| Lib.List | src/lib.rs:38-41 | `list` consumes input it decodes; input that does not start with `l` is a `Char` error |
| LibProperties.TextLiteral | src/lib.rs:31-36 | `digits:after` is `MapRes` at the input beyond `usize`, `Eof` at `after` when too short, `MapRes` at `after` when not UTF-8, and otherwise the declared bytes |
| LibProperties.TextRoundTrip | src/lib.rs:31-36 | any UTF-8 text round-trips through its shortest length prefix |
| LibProperties.DispatchNumber | src/lib.rs:43-48 | on input starting with `i`, `value` is `number`, and a failure is the list's `Char` error |
| LibProperties.DispatchText | src/lib.rs:43-48 | on input starting with a digit, `value` is `string`, and a failure is the list's `Char` error |
| LibProperties.DispatchList | src/lib.rs:43-48 | on input starting with `l`, `value` is `list`, including its error |
| LibProperties.DispatchNone | src/lib.rs:43-48 | any other first byte, or empty input, is a `Char` error at the input |
| LibProperties.DictRejected | src/lib.rs:43-48 | there are no dicts: input starting with `d` is a `Char` error |
| LibProperties.EndStartsNoValues | src/lib.rs:39 | no run of values starts with `e` |
| LibProperties.EmptyListRejected | src/lib.rs:38-41 | `le` is rejected |
| LibAgreement.EmbedInjective | src/lib.rs:13-18 | reading a src/lib.rs value as a src/bdecode.rs value keeps distinct values distinct |
| LibAgreement.TextIsBytes | src/lib.rs:31-36 | whatever `string` decodes, `parse_bytes` decodes the same |
| LibAgreement.ValueAgrees | src/lib.rs:43-48 | soundness: whatever `value` decodes, src/bdecode.rs `parse` decodes to the same value with the same remainder |
| LibAgreement.ListAgrees | src/lib.rs:38-41 | the same for lists |
| LibAgreement.ValuesAgree | src/lib.rs:39 | the same for a run of list items |
| LibAgreement.ValueRender | src/lib.rs:43-48 | every well-formed tree with no dicts and UTF-8 byte strings is decoded by `value` to its meaning |
| LibAgreement.TextRender | src/lib.rs:31-36 | a well-formed UTF-8 byte string is decoded by `string` to its payload |
| LibAgreement.ListRender | src/lib.rs:38-41 | the same for lists |
| LibAgreement.ValuesRender | src/lib.rs:39 | the same for a run of list items |
| LibAgreement.DecodesTo | src/lib.rs:43-48 | the whole spelling of such a tree decodes to the unique src/lib.rs value that means the same |
| LibAgreement.ValueComplete | src/lib.rs:43-48 | completeness: whatever `parse` decodes to a value with no dicts and only UTF-8 byte strings, `value` decodes alike |
| LibTests.TestNumberPositive | src/lib.rs:60 | `number` reads `i3e` as 3 |
| LibTests.TestNumberNegative | src/lib.rs:61 | `number` reads `i-3e` as -3 |
| LibTests.TestLength | src/lib.rs:66 | `length` reads `12:` as 12 and leaves `Hello World!` |
| LibTests.TestString | src/lib.rs:67 | `string` reads `12:Hello World!` as the text |
| LibTests.TestStringTooLong | src/lib.rs:68 | `15:Hello World!` is an `Eof` error at `Hello World!` |
| LibTests.TestValueNumber | src/lib.rs:73 | `value` reads `i3e` as the number 3 |
| LibTests.TestValueString | src/lib.rs:74 | `value` reads `12:Hello World!` as the string |
| LibTests.TestList | src/lib.rs:80 | `value` reads `l4:spam4:eggse` as the list [spam, eggs] |

## Left out

- src/main.rs, the command-line tool, is not part of this model. It reads a
  file and prints fields of the decoded dict.
- A panic in an accessor (`get_*`, `get_string`'s `unwrap`) is modelled as
  `None`.
- nom's `Err::Incomplete` and `Err::Failure` never arise with the `complete`
  combinators used here. Only `Err::Error` is modelled.
- `HashMap` iteration order is not modelled: a dict is a finite map.
- `usize` is taken to be 64 bits wide. On a 32-bit target, lengths from 2^32
  up would be refused with `MapRes` instead.
- Nesting depth is unbounded here. Very deep input would exhaust the Rust
  call stack.
- Neither source file has an encoder. `Bytes.Decimal` and
  `BDecodeProperties.IntegerLiteral` exist only to state round trips.
- BDecode.Parse: its own contract states only that it consumes input. What
  it decodes is stated by the `Dispatch*` lemmas and `ParseRender` /
  `ParseSound` in `BDecodeProperties` and `BDecodeSyntax`.
- Lib.Value: likewise. Its behaviour is stated by `LibProperties.Dispatch*`
  and by `LibAgreement`.
