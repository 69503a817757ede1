/** Well-formed UTF-8, the check behind Rust's `std::str::from_utf8` and
    `String::from_utf8`, following the syntax of UTF-8 byte sequences in
    section 4 of RFC 3629 (which excludes overlong forms, the surrogates
    U+D800..U+DFFF and everything above U+10FFFF). */
module Utf8 {
  import opened Bytes

  predicate IsTail(b: byte) {
    0x80 <= b <= 0xBF
  }

  /** The length of the well-formed character at the start of `b`, or 0 when
      `b` does not start with one. */
  function CharLength(b: seq<byte>): (n: nat)
    requires |b| > 0
    ensures n <= 4 && n <= |b|
  {
    var b0 := b[0];
    if b0 <= 0x7F then 1
    else if 0xC2 <= b0 <= 0xDF then
      if |b| >= 2 && IsTail(b[1]) then 2 else 0
    else if b0 == 0xE0 then
      if |b| >= 3 && 0xA0 <= b[1] <= 0xBF && IsTail(b[2]) then 3 else 0
    else if 0xE1 <= b0 <= 0xEC || 0xEE <= b0 <= 0xEF then
      if |b| >= 3 && IsTail(b[1]) && IsTail(b[2]) then 3 else 0
    else if b0 == 0xED then
      if |b| >= 3 && 0x80 <= b[1] <= 0x9F && IsTail(b[2]) then 3 else 0
    else if b0 == 0xF0 then
      if |b| >= 4 && 0x90 <= b[1] <= 0xBF && IsTail(b[2]) && IsTail(b[3]) then 4 else 0
    else if 0xF1 <= b0 <= 0xF3 then
      if |b| >= 4 && IsTail(b[1]) && IsTail(b[2]) && IsTail(b[3]) then 4 else 0
    else if b0 == 0xF4 then
      if |b| >= 4 && 0x80 <= b[1] <= 0x8F && IsTail(b[2]) && IsTail(b[3]) then 4 else 0
    else 0
  }

  /** `b` is a concatenation of well-formed characters. As section 1 of
      RFC 3629 notes, the bytes C0, C1 and F5 to FF then never appear. */
  predicate ValidUtf8(b: seq<byte>): (r: bool)
    ensures r ==> forall i | 0 <= i < |b| :: MayAppear(b[i])
    decreases |b|
  {
    b == [] || (CharLength(b) > 0 && ValidUtf8(b[CharLength(b)..]) && (FirstCharBytes(b); true))
  }

  predicate MayAppear(x: byte) {
    x != 0xC0 && x != 0xC1 && x < 0xF5
  }

  /** The bytes of a well-formed character are of the kinds that may appear,
      and so are the bytes of what follows it when those are. */
  lemma FirstCharBytes(b: seq<byte>)
    requires |b| > 0 && CharLength(b) > 0
    requires forall i | 0 <= i < |b[CharLength(b)..]| :: MayAppear(b[CharLength(b)..][i])
    ensures forall i | 0 <= i < |b| :: MayAppear(b[i])
  {
    var n := CharLength(b);
    forall i | 0 <= i < |b| ensures MayAppear(b[i]) {
      if i >= n {
        assert b[i] == b[n..][i - n];
      }
    }
  }

  /** Rust's `String` / `&str`: bytes that are well-formed UTF-8. */
  type Utf8String = b: seq<byte> | ValidUtf8(b) witness []

  predicate IsAscii(b: seq<byte>) {
    forall i | 0 <= i < |b| :: b[i] < 0x80
  }

  /** Every ASCII byte string is valid UTF-8. */
  lemma {:induction false} AsciiIsValid(b: seq<byte>)
    requires IsAscii(b)
    ensures ValidUtf8(b)
    decreases |b|
  {
    if b != [] {
      assert CharLength(b) == 1;
      AsciiIsValid(b[1..]);
    }
  }

  /** The concatenation of two valid byte strings is valid. */
  lemma {:induction false} ConcatIsValid(a: seq<byte>, b: seq<byte>)
    requires ValidUtf8(a) && ValidUtf8(b)
    ensures ValidUtf8(a + b)
    decreases |a|
  {
    if a != [] {
      var n := CharLength(a);
      CharLengthOfPrefix(a, b);
      assert (a + b)[n..] == a[n..] + b;
      ConcatIsValid(a[n..], b);
    } else {
      assert a + b == b;
    }
  }

  /** A well-formed leading character is not changed by what follows it. */
  lemma CharLengthOfPrefix(a: seq<byte>, b: seq<byte>)
    requires |a| > 0 && CharLength(a) > 0
    ensures CharLength(a + b) == CharLength(a)
  {
    var n := CharLength(a);
    forall i | 0 <= i < n ensures (a + b)[i] == a[i] { }
  }

  // Three malformed sequences and a well-formed one.

  /** A continuation byte cannot start a character. */
  lemma LoneTailRejected()
    ensures !ValidUtf8([0x80])
  {
    assert CharLength([0x80]) == 0;
  }

  /** The overlong two-byte encoding of '/' is rejected. */
  lemma OverlongRejected()
    ensures !ValidUtf8([0xC0, 0xAF])
  {
    assert CharLength([0xC0, 0xAF]) == 0;
  }

  /** An encoded surrogate (U+D800) is rejected. */
  lemma SurrogateRejected()
    ensures !ValidUtf8([0xED, 0xA0, 0x80])
  {
    assert CharLength([0xED, 0xA0, 0x80]) == 0;
  }

  /** The euro sign U+20AC is one three-byte character. */
  lemma EuroAccepted()
    ensures ValidUtf8([0xE2, 0x82, 0xAC])
  {
    assert CharLength([0xE2, 0x82, 0xAC]) == 3;
    assert [0xE2, 0x82, 0xAC][3..] == [];
  }
}
