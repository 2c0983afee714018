/**
 The reference side of the converters: Unicode scalar values, their UTF-16 units (section 2.1 of
 RFC 2781), their UTF-8 bytes (section 3 of RFC 3629) and the byte syntax of section 4 of RFC 3629.
 */
module Codepoints {
  import opened Machine

  type Scalar = c: int | 0 <= c < 0xD800 || 0xE000 <= c < 0x11_0000

  predicate High(u: uint16) {
    0xD800 <= u <= 0xDBFF
  }

  predicate Low(u: uint16) {
    0xDC00 <= u <= 0xDFFF
  }

  function Utf16Of(c: Scalar): seq<uint16> {
    if c < 0x1_0000 then [c]
    else [0xD800 + (c - 0x1_0000) / 0x400, 0xDC00 + (c - 0x1_0000) % 0x400]
  }

  function Utf8Of(c: Scalar): seq<uint8> {
    if c < 0x80 then [c]
    else if c < 0x800 then [0xC0 + c / 0x40, 0x80 + c % 0x40]
    else if c < 0x1_0000 then [0xE0 + c / 0x1000, 0x80 + c / 0x40 % 0x40, 0x80 + c % 0x40]
    else [0xF0 + c / 0x4_0000, 0x80 + c / 0x1000 % 0x40, 0x80 + c / 0x40 % 0x40, 0x80 + c % 0x40]
  }

  /** Concatenation of the images of the members of `cs`. */
  function Text<T>(emit: Scalar -> seq<T>, cs: seq<Scalar>): seq<T> {
    if cs == [] then [] else emit(cs[0]) + Text(emit, cs[1..])
  }

  lemma {:induction false} TextConcat<T>(emit: Scalar -> seq<T>, a: seq<Scalar>, b: seq<Scalar>)
    ensures Text(emit, a + b) == Text(emit, a) + Text(emit, b)
  {
    if a == [] {
      assert a + b == b;
    } else {
      TextConcat(emit, a[1..], b);
      assert (a + b)[1..] == a[1..] + b;
    }
  }

  lemma TextSnoc<T>(emit: Scalar -> seq<T>, a: seq<Scalar>, c: Scalar)
    ensures Text(emit, a + [c]) == Text(emit, a) + emit(c)
  {
    TextConcat(emit, a, [c]);
    assert Text(emit, [c]) == emit(c) + [];
  }

  /** The text splits at any character. */
  lemma TextSplit<T>(emit: Scalar -> seq<T>, cs: seq<Scalar>, i: nat)
    requires i <= |cs|
    ensures Text(emit, cs) == Text(emit, cs[..i]) + Text(emit, cs[i..])
    ensures Text(emit, cs)[|Text(emit, cs[..i])|..] == Text(emit, cs[i..])
  {
    assert cs == cs[..i] + cs[i..];
    TextConcat(emit, cs[..i], cs[i..]);
  }

  lemma TextStep<T>(emit: Scalar -> seq<T>, cs: seq<Scalar>, i: nat)
    requires i < |cs|
    ensures Text(emit, cs[i..]) == emit(cs[i]) + Text(emit, cs[i + 1..])
    ensures Text(emit, cs[..i + 1]) == Text(emit, cs[..i]) + emit(cs[i])
  {
    assert cs[..i + 1] == cs[..i] + [cs[i]];
    TextSnoc(emit, cs[..i], cs[i]);
    assert cs[i..][1..] == cs[i + 1..];
  }

  predicate Tail(b: uint8) {
    0x80 <= b <= 0xBF
  }

  /** The productions UTF8-1 to UTF8-4 of section 4 of RFC 3629. */
  predicate Utf8Char(s: seq<uint8>) {
    || (|s| == 1 && s[0] <= 0x7F)
    || (|s| == 2 && 0xC2 <= s[0] <= 0xDF && Tail(s[1]))
    || (|s| == 3 && Tail(s[2]) && Second3(s[0], s[1]))
    || (|s| == 4 && Tail(s[2]) && Tail(s[3]) && Second4(s[0], s[1]))
  }

  predicate Second3(lead: uint8, b: uint8) {
    || (lead == 0xE0 && 0xA0 <= b <= 0xBF)
    || (0xE1 <= lead <= 0xEC && Tail(b))
    || (lead == 0xED && 0x80 <= b <= 0x9F)
    || (0xEE <= lead <= 0xEF && Tail(b))
  }

  predicate Second4(lead: uint8, b: uint8) {
    || (lead == 0xF0 && 0x90 <= b <= 0xBF)
    || (0xF1 <= lead <= 0xF3 && Tail(b))
    || (lead == 0xF4 && 0x80 <= b <= 0x8F)
  }

  /** UTF8-octets = *( UTF8-char ) */
  predicate WellFormedUtf8(s: seq<uint8>) {
    || s == []
    || (|s| >= 1 && Utf8Char(s[..1]) && WellFormedUtf8(s[1..]))
    || (|s| >= 2 && Utf8Char(s[..2]) && WellFormedUtf8(s[2..]))
    || (|s| >= 3 && Utf8Char(s[..3]) && WellFormedUtf8(s[3..]))
    || (|s| >= 4 && Utf8Char(s[..4]) && WellFormedUtf8(s[4..]))
  }

  /** A sequence of units that are no surrogates and of pairs, high before low. */
  predicate WellFormedUtf16(s: seq<uint16>) {
    || s == []
    || (!High(s[0]) && !Low(s[0]) && WellFormedUtf16(s[1..]))
    || (|s| >= 2 && High(s[0]) && Low(s[1]) && WellFormedUtf16(s[2..]))
  }
}
