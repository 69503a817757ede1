/** Bytes, the ASCII delimiters of bencode, decimal digit runs and the
    fixed-width integer ranges the decoders parse into. */
module Bytes {

  /** One byte of input (`u8`). */
  type byte = b: int | 0 <= b < 256

  const I64_MIN: int := -0x8000_0000_0000_0000
  const I64_MAX: int := 0x7fff_ffff_ffff_ffff
  /** `usize` is taken to be 64 bits wide. */
  const USIZE_MAX: int := 0xffff_ffff_ffff_ffff

  /** Rust's `i64`. */
  type int64 = x: int | I64_MIN <= x <= I64_MAX
  /** Rust's `usize` on a 64-bit target. */
  type usize = x: int | 0 <= x <= USIZE_MAX

  datatype Option<+T> = None | Some(value: T)

  const INTEGER_START: byte := 105  // 'i'
  const LIST_START: byte := 108     // 'l'
  const DICT_START: byte := 100     // 'd'
  const END: byte := 101            // 'e'
  const MINUS: byte := 45           // '-'
  const COLON: byte := 58           // ':'
  const ZERO: byte := 48            // '0'

  /** The bytes of an ASCII string literal, for writing inputs and expected values. */
  function Ascii(s: string): (r: seq<byte>)
    requires forall i | 0 <= i < |s| :: s[i] as int < 128
    ensures |r| == |s|
    ensures forall i | 0 <= i < |r| :: r[i] == s[i] as int
  {
    seq(|s|, i requires 0 <= i < |s| => s[i] as int)
  }

  predicate IsDigit(b: byte) {
    ZERO <= b <= ZERO + 9
  }

  predicate AllDigits(ds: seq<byte>) {
    forall i | 0 <= i < |ds| :: IsDigit(ds[i])
  }

  /** The number a run of decimal digits denotes, most significant first
      (leading zeros contribute nothing). */
  function DecimalValue(ds: seq<byte>): (n: nat)
    requires AllDigits(ds)
    ensures n < Pow10(|ds|)
    decreases |ds|
  {
    if ds == [] then 0 else DecimalValue(ds[..|ds| - 1]) * 10 + (ds[|ds| - 1] - ZERO)
  }

  function Pow10(k: nat): (p: nat)
    ensures p >= 1
  {
    if k == 0 then 1 else 10 * Pow10(k - 1)
  }

  /** Decimal notation is positional: the digits `a` in front of `b` count
      `10^|b|` times their own value. */
  lemma {:induction false} DecimalConcat(a: seq<byte>, b: seq<byte>)
    requires AllDigits(a) && AllDigits(b)
    ensures AllDigits(a + b)
    ensures DecimalValue(a + b) == DecimalValue(a) * Pow10(|b|) + DecimalValue(b)
    decreases |b|
  {
    if b == [] {
      assert a + b == a;
    } else {
      var b', d := b[..|b| - 1], b[|b| - 1] - ZERO;
      LastDigit(a + b);
      LastDigit(b);
      assert (a + b)[..|a + b| - 1] == a + b';
      assert (a + b)[|a + b| - 1] == b[|b| - 1];
      DecimalConcat(a, b');
      Shift(DecimalValue(a), Pow10(|b'|), DecimalValue(b'), d);
    }
  }

  lemma LastDigit(ds: seq<byte>)
    requires AllDigits(ds) && |ds| > 0
    ensures DecimalValue(ds) == DecimalValue(ds[..|ds| - 1]) * 10 + (ds[|ds| - 1] - ZERO)
  {
  }

  lemma Shift(x: int, p: int, y: int, d: int)
    ensures (x * p + y) * 10 + d == x * (10 * p) + (y * 10 + d)
  {
  }

  /** The shortest decimal spelling of `n`. Only a specification helper: the
      decoders contain no encoder. */
  function Decimal(n: nat): (r: seq<byte>)
    ensures |r| >= 1 && AllDigits(r)
    ensures DecimalValue(r) == n
    decreases n
  {
    if n < 10 then [ZERO + n]
    else
      var r := Decimal(n / 10) + [ZERO + n % 10];
      assert r[..|r| - 1] == Decimal(n / 10);
      r
  }

  /** A leading zero does not change the value of a digit run. */
  lemma {:induction false} LeadingZero(ds: seq<byte>)
    requires AllDigits(ds)
    ensures AllDigits([ZERO] + ds) && DecimalValue([ZERO] + ds) == DecimalValue(ds)
    decreases |ds|
  {
    if ds != [] {
      var zs := [ZERO] + ds;
      assert zs[..|zs| - 1] == [ZERO] + ds[..|ds| - 1];
      LeadingZero(ds[..|ds| - 1]);
    }
  }

  /** Appending a digit multiplies the value by ten and adds the digit. */
  lemma AppendDigit(ds: seq<byte>, d: byte)
    requires AllDigits(ds) && IsDigit(d)
    ensures AllDigits(ds + [d]) && DecimalValue(ds + [d]) == DecimalValue(ds) * 10 + (d - ZERO)
  {
    assert (ds + [d])[..|ds|] == ds;
  }
}
