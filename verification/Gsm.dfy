/**
 The GSM alphabet with its escapes, d-mon/dsymbconv.cpp: dconvert_ascii_to_gsm and dconvert_gsm_to_ascii.
 The tables have 128 entries; what a byte from 128 on finds there is whatever memory follows them.
 */
module Gsm {
  import opened Machine

  const ESCAPE := 0x1b
  const QUESTION := 0x3f

  /** What follows each of the four tables. */
  datatype Past = Past(asciiGsm: uint8 -> uint8, asciiGsmExt: uint8 -> uint8, gsmAscii: uint8 -> uint8, gsmAsciiExt: uint8 -> uint8)

  predicate SevenBit(s: seq<uint8>) {
    forall i :: 0 <= i < |s| ==> s[i] < 128
  }

  /** The characters that all four tables leave as they are. */
  predicate Same(c: uint8) {
    c == 0x0a || c == 0x0d || (0x20 <= c <= 0x3f && c != 0x24) || 0x41 <= c <= 0x5a || 0x61 <= c <= 0x7a
  }

  /** dtable_ascii_gsm */
  function AsciiGsm(past: Past, c: uint8): uint8 {
    if c >= 128 then past.asciiGsm(c)
    else if Same(c) then c
    else if c == 0x24 then 0x02
    else if c == 0x40 then 0x00
    else if c == 0x5f then 0x11
    else if 0x5b <= c <= 0x5e || 0x7b <= c <= 0x7e then ESCAPE
    else QUESTION
  }

  /** dtable_ascii_gsm_ext */
  function AsciiGsmExt(past: Past, c: uint8): uint8 {
    if c >= 128 then past.asciiGsmExt(c)
    else
      match c
      case 0x5b => 0x3c
      case 0x5c => 0x2f
      case 0x5d => 0x3e
      case 0x5e => 0x14
      case 0x7b => 0x28
      case 0x7c => 0x40
      case 0x7d => 0x29
      case 0x7e => 0x3d
      case 0x7f => QUESTION
      case _ => 0
  }

  /** dtable_gsm_ascii */
  function GsmAscii(past: Past, g: uint8): uint8 {
    if g >= 128 then past.gsmAscii(g)
    else if Same(g) then g
    else if g == 0x00 then 0x40
    else if g == 0x02 then 0x24
    else if g == 0x11 then 0x5f
    else if g == 0x5b then 0x28
    else QUESTION
  }

  /** dtable_gsm_ascii_ext */
  function GsmAsciiExt(past: Past, g: uint8): uint8 {
    if g >= 128 then past.gsmAsciiExt(g)
    else
      match g
      case 0x14 => 0x5e
      case 0x28 => 0x7b
      case 0x29 => 0x7d
      case 0x2f => 0x5c
      case 0x3c => 0x5b
      case 0x3d => 0x7e
      case 0x3e => 0x5d
      case 0x40 => 0x7c
      case _ => QUESTION
  }

  // The alphabet of 3GPP TS 23.038, section 6.2.1.

  // The code points of the default table from 0x00 to 0x1f, from 0x5b to 0x5f, and from 0x7b to 0x7f.
  const FIRST_ROWS := [0x40, 0xa3, 0x24, 0xa5, 0xe8, 0xe9, 0xf9, 0xec, 0xf2, 0xc7, 0x0a, 0xd8, 0xf8, 0x0d, 0xc5, 0xe5,
                       0x394, 0x5f, 0x3a6, 0x393, 0x39b, 0x3a9, 0x3a0, 0x3a8, 0x3a3, 0x398, 0x39e, 0xa0, 0xc6, 0xe6, 0xdf, 0xc9]
  const AFTER_CAPITALS := [0xc4, 0xd6, 0xd1, 0xdc, 0xa7]
  const AFTER_SMALL := [0xe4, 0xf6, 0xf1, 0xfc, 0xe0]

  /** The code point of a septet; the escape itself stands for a space of no width to break at. */
  function Standard(g: uint8): nat
    requires g < 128
  {
    if g < 0x20 then FIRST_ROWS[g]
    else if g == 0x24 then 0xa4
    else if g == 0x40 then 0xa1
    else if 0x5b <= g < 0x60 then AFTER_CAPITALS[g - 0x5b]
    else if g == 0x60 then 0xbf
    else if 0x7b <= g then AFTER_SMALL[g - 0x7b]
    else g
  }

  // The extension table, as its characters and then the septets they have after an escape.
  const EXTENDED := [0x0c, 0x5e, 0x7b, 0x7d, 0x5c, 0x5b, 0x7e, 0x5d, 0x7c, 0x20ac]
  const EXTENSION := [0x0a, 0x14, 0x28, 0x29, 0x2f, 0x3c, 0x3d, 0x3e, 0x40, 0x65]

  /** The code stands for the character. */
  ghost predicate Means(code: seq<uint8>, c: nat) {
    || (|code| == 1 && code[0] < 128 && code[0] != 0x1b && Standard(code[0]) == c)
    || (|code| == 2 && code[0] == 0x1b && exists k :: 0 <= k < |EXTENSION| && EXTENSION[k] == code[1] && EXTENDED[k] == c)
  }

  /** An ASCII character is encoded as the standard has it if and only if it is in the alphabet. */
  lemma EncodesAsStandard(past: Past, c: uint8)
    requires c < 128
    ensures Means(Code(past, c), c) <==> InAlphabet(c)
  {
    var code := Code(past, c);
    if |code| == 2 {
      var k := if c == 0x5e then 1 else if c == 0x7b then 2 else if c == 0x7d then 3 else if c == 0x5c then 4
               else if c == 0x5b then 5 else if c == 0x7e then 6 else if c == 0x5d then 7 else 8;
      assert EXTENSION[k] == code[1] && EXTENDED[k] == c;
    }
  }

  // Encoding and decoding, prefix by prefix.

  /** The septets for one character; what a table does not give as a septet becomes a question mark. */
  function Code(past: Past, c: uint8): (r: seq<uint8>)
    ensures 1 <= |r| <= 2 && SevenBit(r)
    ensures if |r| == 1 then r[0] != ESCAPE else r[0] == ESCAPE
  {
    var g, x := AsciiGsm(past, c), AsciiGsmExt(past, c);
    if g > 0x7f then [QUESTION]
    else if g != ESCAPE then [g]
    else if x > 0x7f then [QUESTION]
    else [ESCAPE, x]
  }

  /** The room the encoder demands for it: two septets for an escape, whatever comes of it. */
  function Need(past: Past, c: uint8): (n: nat)
    ensures |Code(past, c)| <= n <= 2
    ensures c < 128 ==> n == |Code(past, c)|
  {
    if AsciiGsm(past, c) == ESCAPE then 2 else 1
  }

  function Encode(past: Past, s: seq<uint8>, n: nat): seq<uint8>
    requires n <= |s|
  {
    if n == 0 then [] else Encode(past, s, n - 1) + Code(past, s[n - 1])
  }

  /** What has been decoded, and whether an escape awaits its second septet. */
  datatype Decoded = Decoded(text: seq<uint8>, escaped: bool)

  function Plain(symbol: uint8): uint8 {
    if symbol > 0x7f then QUESTION else symbol
  }

  function DecodeStep(past: Past, d: Decoded, g: uint8): Decoded {
    if d.escaped then Decoded(d.text + [Plain(GsmAsciiExt(past, g))], false)
    else if g == ESCAPE then Decoded(d.text, true)
    else Decoded(d.text + [Plain(GsmAscii(past, g))], false)
  }

  function Decode(past: Past, b: seq<uint8>, n: nat): Decoded
    requires n <= |b|
  {
    if n == 0 then Decoded([], false) else DecodeStep(past, Decode(past, b, n - 1), b[n - 1])
  }

  lemma {:induction false} DecodeExtends(past: Past, b: seq<uint8>, m: nat, n: nat)
    requires m <= n <= |b|
    ensures Decode(past, b, m).text <= Decode(past, b, n).text
    decreases n
  {
    if m < n {
      DecodeExtends(past, b, m, n - 1);
    }
  }

  lemma {:induction false} DecodePrefix(past: Past, a: seq<uint8>, b: seq<uint8>, n: nat)
    requires n <= |a|
    ensures Decode(past, a + b, n) == Decode(past, a, n)
  {
    if n > 0 {
      DecodePrefix(past, a, b, n - 1);
    }
  }

  // The decoder and the standard.

  /** The one septet decoded to another ASCII character than the standard's: 0x5b, A with diaeresis there, gives 0x28. */
  lemma DecodesAsStandard(past: Past, g: uint8)
    requires g < 128 && g != 0x1b
    ensures Decode(past, [g], 1) == Decoded([if Standard(g) < 128 then Standard(g) else QUESTION], false) <==> g != 0x5b
  {
    var x := if Standard(g) < 128 then Standard(g) else QUESTION;
    assert [GsmAscii(past, g)][0] == GsmAscii(past, g) && [x][0] == x;
  }

  lemma EscapedDecodes(past: Past, g: uint8)
    requires g < 128
    ensures Decode(past, [0x1b, g], 2) == Decoded([GsmAsciiExt(past, g)], false)
  {
    assert Decode(past, [0x1b, g], 1) == DecodeStep(past, Decoded([], false), 0x1b);
    assert Decode(past, [0x1b, g], 2) == DecodeStep(past, Decoded([], true), g);
  }

  /** After an escape the ASCII characters of the extension table come back. */
  lemma DecodesExtension(past: Past, k: nat)
    requires k < |EXTENSION|
    ensures Decode(past, [0x1b, EXTENSION[k]], 2) == Decoded([if 0x20 <= EXTENDED[k] < 128 then EXTENDED[k] else QUESTION], false)
  {
    EscapedDecodes(past, EXTENSION[k]);
  }

  /** And all else is a question mark. */
  lemma NoExtension(past: Past, g: uint8)
    requires g < 128 && forall k :: 0 <= k < |EXTENSION| ==> EXTENSION[k] != g
    ensures Decode(past, [0x1b, g], 2) == Decoded([QUESTION], false)
  {
    EscapedDecodes(past, g);
    assert EXTENSION[1] != g && EXTENSION[2] != g && EXTENSION[3] != g && EXTENSION[4] != g;
    assert EXTENSION[5] != g && EXTENSION[6] != g && EXTENSION[7] != g && EXTENSION[8] != g;
  }

  // The alphabet, and what becomes of text.

  /** LF, CR and the printable ASCII characters but the backquote. */
  predicate InAlphabet(c: uint8) {
    c == 0x0a || c == 0x0d || (0x20 <= c <= 0x7e && c != 0x60)
  }

  /** What one character comes back as. */
  function Image(past: Past, c: uint8): uint8 {
    var code := Code(past, c);
    Plain(if |code| == 1 then GsmAscii(past, code[0]) else GsmAsciiExt(past, code[1]))
  }

  /** The characters of the alphabet come back, the others of ASCII as question marks, and no other as it was. */
  lemma ImageIff(past: Past, c: uint8)
    ensures Image(past, c) == c <==> InAlphabet(c)
    ensures c < 128 && !InAlphabet(c) ==> Image(past, c) == QUESTION
  {
  }

  function Images(past: Past, s: seq<uint8>, n: nat): (r: seq<uint8>)
    requires n <= |s|
    ensures |r| == n && forall i :: 0 <= i < n ==> r[i] == Image(past, s[i])
  {
    if n == 0 then [] else Images(past, s, n - 1) + [Image(past, s[n - 1])]
  }

  lemma DecodeSnoc(past: Past, b: seq<uint8>, g: uint8)
    ensures Decode(past, b + [g], |b + [g]|) == DecodeStep(past, Decode(past, b, |b|), g)
  {
    DecodePrefix(past, b, [g], |b|);
  }

  lemma PairDecodes(past: Past, b: seq<uint8>, g: uint8)
    requires !Decode(past, b, |b|).escaped
    ensures Decode(past, b + [ESCAPE, g], |b + [ESCAPE, g]|) ==
            Decoded(Decode(past, b, |b|).text + [Plain(GsmAsciiExt(past, g))], false)
  {
    var half: seq<uint8> := b + [ESCAPE];
    DecodeSnoc(past, b, ESCAPE);
    assert Decode(past, half, |half|) == Decoded(Decode(past, b, |b|).text, true);
    DecodeSnoc(past, half, g);
    assert b + [ESCAPE, g] == half + [g];
  }

  lemma CodeDecodes(past: Past, b: seq<uint8>, c: uint8, code: seq<uint8>)
    requires code == Code(past, c) && !Decode(past, b, |b|).escaped
    ensures Decode(past, b + code, |b + code|) == Decoded(Decode(past, b, |b|).text + [Image(past, c)], false)
  {
    if |code| == 1 {
      assert code == [code[0]];
      DecodeSnoc(past, b, code[0]);
    } else {
      assert code == [ESCAPE, code[1]];
      PairDecodes(past, b, code[1]);
    }
  }

  /** Decoding an encoding gives every character's image. */
  lemma {:induction false} DecodeOfEncode(past: Past, s: seq<uint8>, n: nat)
    requires n <= |s|
    ensures Decode(past, Encode(past, s, n), |Encode(past, s, n)|) == Decoded(Images(past, s, n), false)
  {
    if n > 0 {
      DecodeOfEncode(past, s, n - 1);
      CodeDecodes(past, Encode(past, s, n - 1), s[n - 1], Code(past, s[n - 1]));
    }
  }

  /** The round trip returns the text if and only if every character is in the alphabet. */
  lemma RoundTripIff(past: Past, s: seq<uint8>)
    ensures Decode(past, Encode(past, s, |s|), |Encode(past, s, |s|)|).text == s <==> forall i :: 0 <= i < |s| ==> InAlphabet(s[i])
  {
    DecodeOfEncode(past, s, |s|);
    forall i | 0 <= i < |s| ensures Images(past, s, |s|)[i] == s[i] <==> InAlphabet(s[i]) {
      ImageIff(past, s[i]);
    }
  }

  /** Whatever room there was, what was encoded decodes to the beginning of the text. */
  lemma ShortEncodingDecodes(past: Past, s: seq<uint8>, n: nat)
    requires n <= |s| && forall i :: 0 <= i < |s| ==> InAlphabet(s[i])
    ensures Decode(past, Encode(past, s, n), |Encode(past, s, n)|) == Decoded(s[..n], false)
  {
    DecodeOfEncode(past, s, n);
    forall i | 0 <= i < n ensures Images(past, s, n)[i] == s[i] {
      ImageIff(past, s[i]);
    }
  }

  // The converters.

  /** Writes one code at `at` when `room` suffices, and says how many septets it wrote. */
  method ConvertSymbol(past: Past, dest: array<uint8>, at: nat, room: nat, symbol: uint8) returns (result: nat)
    requires at + room <= dest.Length
    modifies dest
    ensures result == if Need(past, symbol) <= room then |Code(past, symbol)| else 0
    ensures result != 0 ==> dest[..at + result] == old(dest[..at]) + Code(past, symbol)
    ensures forall k :: 0 <= k < dest.Length && !(at <= k < at + result) ==> dest[k] == old(dest[k])
  {
    var g := AsciiGsm(past, symbol);
    result := 0;
    if g > 0x7f {
      if room != 0 {
        dest[at] := QUESTION;
        result := 1;
      }
    } else if g != ESCAPE {
      if room != 0 {
        dest[at] := g;
        result := 1;
      }
    } else if room >= 2 {
      g := AsciiGsmExt(past, symbol);
      if g > 0x7f {
        dest[at] := QUESTION;
        result := 1;
      } else {
        dest[at] := ESCAPE;
        dest[at + 1] := g;
        result := 2;
      }
    }
  }

  /** dconvert_ascii_to_gsm: the longest beginning of the text there is room for, and no septet more. */
  method ConvertAsciiToGsm(past: Past, dest: array<uint8>, limit: nat, sour: seq<uint8>) returns (j: nat, ghost n: nat)
    requires limit <= dest.Length
    modifies dest
    ensures n <= |sour| && j == |Encode(past, sour, n)| <= limit && dest[..j] == Encode(past, sour, n)
    ensures n < |sour| ==> j + Need(past, sour[n]) > limit
    ensures forall k :: j <= k < dest.Length ==> dest[k] == old(dest[k])
  {
    j := 0;
    var i := 0;
    while i < |sour|
      invariant i <= |sour| && j == |Encode(past, sour, i)| <= limit && dest[..j] == Encode(past, sour, i)
      invariant forall k :: j <= k < dest.Length ==> dest[k] == old(dest[k])
    {
      var sl := ConvertSymbol(past, dest, j, limit - j, sour[i]);
      if sl == 0 {
        break;
      }
      j := j + sl;
      i := i + 1;
    }
    n := i;
  }

  /** dconvert_gsm_to_ascii: as much of the decoded text as there is room for. */
  method ConvertGsmToAscii(past: Past, dest: array<uint8>, limit: nat, sour: seq<uint8>) returns (j: nat)
    requires limit <= dest.Length
    modifies dest
    ensures var text := Decode(past, sour, |sour|).text;
            j == (if |text| <= limit then |text| else limit) && dest[..j] == text[..j]
    ensures forall k :: j <= k < dest.Length ==> dest[k] == old(dest[k])
  {
    j := 0;
    var i := 0;
    while i < |sour|
      invariant i <= |sour| && j <= limit
      invariant Decode(past, sour, i) == Decoded(dest[..j], false)
      invariant forall k :: j <= k < dest.Length ==> dest[k] == old(dest[k])
    {
      if j >= limit {
        break;
      }
      ghost var was := dest[..j];
      if sour[i] != ESCAPE {
        dest[j] := Plain(GsmAscii(past, sour[i]));
      } else {
        i := i + 1;
        if i >= |sour| {
          break;
        }
        dest[j] := Plain(GsmAsciiExt(past, sour[i]));
      }
      j := j + 1;
      i := i + 1;
      assert dest[..j] == was + [dest[j - 1]];
    }
    DecodeExtends(past, sour, i, |sour|);
  }
}
