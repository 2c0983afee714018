/**
 The streaming digest of def/md5.cpp. The compression function is a parameter: what is proved is that
 the buffering, the bit counter and the padding feed it the blocks of RFC 1321, sections 3.1 to 3.5.
 */
module Md5 {
  import opened Machine

  type State = s: seq<uint32> | |s| == 4 witness [0, 0, 0, 0]
  type Block = b: seq<uint8> | |b| == 64 witness Zeros(64)
  type Compress = (State, Block) -> State

  function Zeros(n: nat): (z: seq<uint8>)
    ensures |z| == n && forall i :: 0 <= i < n ==> z[i] == 0
  {
    if n == 0 then [] else Zeros(n - 1) + [0]
  }

  const INITIAL: State := [0x6745_2301, 0xefcd_ab89, 0x98ba_dcfe, 0x1032_5476]
  const PADDING: seq<uint8> := [0x80] + Zeros(63)

  // The reference.

  /** The state after the first `n` blocks of `msg`. */
  function Fold(f: Compress, msg: seq<uint8>, n: nat): State
    requires 64 * n <= |msg|
  {
    if n == 0 then INITIAL else f(Fold(f, msg, n - 1), BlockAt(msg, n - 1))
  }

  function BlockAt(msg: seq<uint8>, n: nat): Block
    requires 64 * n + 64 <= |msg|
  {
    msg[64 * n..64 * n + 64]
  }

  /** Section 3.1: one bit and then zero bits, until the length is 56 modulo 64 bytes. */
  function PadLength(length: nat): (n: nat)
    ensures 1 <= n <= 64 && (length + n) % 64 == 56
    ensures (length + n + 8) % 64 == 0
  {
    if length % 64 < 56 then 56 - length % 64 else 120 - length % 64
  }

  /** Section 3.2: the low 64 bits of the length in bits. */
  function BitCount(length: nat): (n: nat)
    ensures n < TWO_TO_THE_64
  {
    8 * length % TWO_TO_THE_64
  }

  /** Sections 3.1 and 3.2. */
  function Pad(msg: seq<uint8>): (p: seq<uint8>)
    ensures |p| == |msg| + PadLength(|msg|) + 8
  {
    msg + PADDING[..PadLength(|msg|)] + Image8(BitCount(|msg|))
  }

  lemma PadWhole(msg: seq<uint8>)
    ensures |Pad(msg)| % 64 == 0
  {
  }

  function Digest(f: Compress, msg: seq<uint8>): (d: seq<uint8>)
    ensures |d| == 16
  {
    PadWhole(msg);
    EncodeWords(Fold(f, Pad(msg), |Pad(msg)| / 64), 4)
  }

  /** The little-endian image of the first `n` words. */
  function EncodeWords(words: seq<uint32>, n: nat): (b: seq<uint8>)
    requires n <= |words|
    ensures |b| == 4 * n
  {
    if n == 0 then [] else EncodeWords(words, n - 1) + Image4(words[n - 1])
  }

  /** Messages of any length are told apart by their padded forms, also where the bit count has wrapped. */
  lemma PadInjective(a: seq<uint8>, b: seq<uint8>)
    ensures Pad(a) == Pad(b) ==> a == b
  {
    if Pad(a) == Pad(b) {
      PadEnds(a);
      PadEnds(b);
      ImageTellsCount(BitCount(|a|), BitCount(|b|));
      NearLengths(|a|, |b|);
    }
  }

  /** Fewer than 64 bytes do not make the bit count come round. */
  lemma NearLengths(a: nat, b: nat)
    requires BitCount(a) == BitCount(b) && -64 < a - b < 64
    ensures a == b
  {
    var k := 8 * a / TWO_TO_THE_64 - 8 * b / TWO_TO_THE_64;
    assert 8 * (a - b) == TWO_TO_THE_64 * k;
  }

  lemma ImageTellsCount(m: nat, n: nat)
    requires m < TWO_TO_THE_64 && n < TWO_TO_THE_64 && Image8(m) == Image8(n)
    ensures m == n
  {
    var b := Image8(m);
    assert b[0..8] == b;
    Image8IsLe(b, 0, m);
    Image8IsLe(b, 0, n);
  }

  lemma PadEnds(m: seq<uint8>)
    ensures var p := Pad(m); m == p[..|m|] && p[|p| - 8..] == Image8(BitCount(|m|))
  {
  }

  function Power2(n: nat): (p: nat)
    ensures p > 0
  {
    if n == 0 then 1 else 2 * Power2(n - 1)
  }

  /** Bit `i` of a byte string, the high bit of each byte first. */
  function Bit(b: seq<uint8>, i: nat): nat
    requires i < 8 * |b|
  {
    b[i / 8] / Power2(7 - i % 8) % 2
  }

  /**
   Padding as RFC 1321 has it: the message's bits, a one bit, the fewest zero bits that make the length 448
   modulo 512, and the length in bits, modulo 2^64, low byte first.
   */
  lemma PadIsRfc(msg: seq<uint8>)
    ensures var p, n := Pad(msg), 8 * |msg|; var end := 8 * |p| - 64;
            && n < end && (forall i :: 0 <= i < n ==> Bit(p, i) == Bit(msg, i))
            && Bit(p, n) == 1 && (forall i :: n < i < end ==> Bit(p, i) == 0)
            && end % 512 == 448 && end <= n + 512
            && Le(p, |p| - 8, 8) == n % TWO_TO_THE_64
  {
    PadBytes(msg);
    PadBits(|msg|, PadLength(|msg|));
    forall i | 0 <= i < 8 * |Pad(msg)| - 64
      ensures Bit(Pad(msg), i) == if i < 8 * |msg| then Bit(msg, i) else if i == 8 * |msg| then 1 else 0
    {
      PadBit(msg, i);
    }
  }

  lemma PadBits(length: nat, n: nat)
    requires (length + n) % 64 == 56
    ensures 8 * (length + n) % 512 == 448
  {
  }

  lemma PadBytes(msg: seq<uint8>)
    ensures var p, n := Pad(msg), |msg|;
            && n < |p| - 8 && p[..n] == msg && p[n] == 0x80 && (forall k :: n < k < |p| - 8 ==> p[k] == 0)
            && Le(p, |p| - 8, 8) == 8 * n % TWO_TO_THE_64
  {
    PadEnds(msg);
    Image8IsLe(Pad(msg), |Pad(msg)| - 8, BitCount(|msg|));
  }

  lemma PadBit(msg: seq<uint8>, i: nat)
    requires i < 8 * |Pad(msg)| - 64
    ensures Bit(Pad(msg), i) == if i < 8 * |msg| then Bit(msg, i) else if i == 8 * |msg| then 1 else 0
  {
    var p, n, k := Pad(msg), |msg|, i % 8;
    PadBytes(msg);
    if i < 8 * n {
      assert p[i / 8] == p[..n][i / 8] == msg[i / 8];
    } else if i / 8 == n {
      LoneOne(k);
    } else {
      ZeroBit(Power2(7 - k));
    }
  }

  lemma ZeroBit(p: nat)
    requires p > 0
    ensures 0 / p % 2 == 0
  {
  }

  /** Of the bits of 0x80 the first is set, and no other. */
  lemma LoneOne(k: nat)
    requires k < 8
    ensures 0x80 / Power2(7 - k) % 2 == if k == 0 then 1 else 0
  {
    assert Power2(3) == 8 && Power2(7) == 128;
    assert Power2(4) == 16 && Power2(5) == 32 && Power2(6) == 64;
    assert Power2(0) == 1 && Power2(1) == 2 && Power2(2) == 4;
  }

  /** Section 3.3: as bytes, low first, the four words count the hexadecimal digits up and then down. */
  lemma InitialIsRfc()
    ensures var b := EncodeWords(INITIAL, 4);
            forall i :: 0 <= i < 16 ==> b[i] == if i < 8 then 16 * (2 * i) + (2 * i + 1) else 16 * (31 - 2 * i) + (30 - 2 * i)
  {
    assert EncodeWords(INITIAL, 1) == [0x01, 0x23, 0x45, 0x67];
    assert EncodeWords(INITIAL, 2) == EncodeWords(INITIAL, 1) + [0x89, 0xab, 0xcd, 0xef];
    assert EncodeWords(INITIAL, 3) == EncodeWords(INITIAL, 2) + [0xfe, 0xdc, 0xba, 0x98];
    assert EncodeWords(INITIAL, 4) == EncodeWords(INITIAL, 3) + [0x76, 0x54, 0x32, 0x10];
  }

  /** Blocks already complete do not change when the message goes on. */
  lemma {:induction false} FoldPrefix(f: Compress, a: seq<uint8>, b: seq<uint8>, n: nat)
    requires 64 * n <= |a| && 64 * n <= |b| && a[..64 * n] == b[..64 * n]
    ensures Fold(f, a, n) == Fold(f, b, n)
  {
    if n > 0 {
      assert a[..64 * (n - 1)] == a[..64 * n][..64 * (n - 1)] == b[..64 * (n - 1)];
      assert BlockAt(a, n - 1) == a[..64 * n][64 * (n - 1)..] == BlockAt(b, n - 1);
      FoldPrefix(f, a, b, n - 1);
    }
  }

  // The counter.

  /** The two words of the bit count after `len` more bytes, carry and all. */
  function Counted(count0: uint32, count1: uint32, len: uint32): (uint32, uint32) {
    var low := len * 8 % TWO_TO_THE_32;
    var c0 := (count0 + low) % TWO_TO_THE_32;
    var c1 := if c0 < low then (count1 + 1) % TWO_TO_THE_32 else count1;
    (c0, (c1 + len / 0x2000_0000) % TWO_TO_THE_32)
  }

  lemma CountAdds(count0: uint32, count1: uint32, total: nat, len: uint32)
    requires count0 + TWO_TO_THE_32 * count1 == BitCount(total)
    ensures var c := Counted(count0, count1, len); c.0 + TWO_TO_THE_32 * c.1 == BitCount(total + len)
  {
    var low, high := len * 8 % TWO_TO_THE_32, len / 0x2000_0000;
    var c0 := (count0 + low) % TWO_TO_THE_32;
    var carry := if c0 < low then 1 else 0;
    var c1 := (count1 + carry) % TWO_TO_THE_32;
    var c1' := (c1 + high) % TWO_TO_THE_32;
    LowWord(count0, low);
    LengthInBits(len);
    var k := HighWord(count1, carry, high);
    var q := 8 * total / TWO_TO_THE_64;
    assert 8 * total == TWO_TO_THE_64 * q + BitCount(total);
    BitsAdd(8 * total, q, count0, count1, 8 * len, low, high, c0, carry, c1', k);
    WordsAdd(q, k, c0, c1', 8 * total + 8 * len);
  }

  lemma BitsAdd(a: nat, q: nat, a0: nat, a1: nat, b: nat, b0: nat, b1: nat, c0: nat, carry: nat, c1: nat, k: int)
    requires a == TWO_TO_THE_64 * q + (a0 + TWO_TO_THE_32 * a1) && b == b0 + TWO_TO_THE_32 * b1
    requires a0 + b0 == c0 + TWO_TO_THE_32 * carry && a1 + carry + b1 == c1 + TWO_TO_THE_32 * k
    ensures a + b == TWO_TO_THE_64 * q + c0 + TWO_TO_THE_32 * (c1 + TWO_TO_THE_32 * k)
  {
  }

  /** The carry out of the low word shows in its sum. */
  lemma LowWord(count0: uint32, low: uint32)
    ensures var c0 := (count0 + low) % TWO_TO_THE_32;
            count0 + low == c0 + TWO_TO_THE_32 * if c0 < low then 1 else 0
  {
  }

  lemma HighWord(count1: uint32, carry: nat, high: uint32) returns (k: int)
    requires carry <= 1
    ensures var c1 := (count1 + carry) % TWO_TO_THE_32;
            && c1 == (if carry == 1 then (count1 + 1) % TWO_TO_THE_32 else count1)
            && count1 + carry + high == (c1 + high) % TWO_TO_THE_32 + TWO_TO_THE_32 * k
  {
    var c1 := (count1 + carry) % TWO_TO_THE_32;
    k := (count1 + carry) / TWO_TO_THE_32 + (c1 + high) / TWO_TO_THE_32;
  }

  lemma LengthInBits(len: uint32)
    ensures 8 * len == len * 8 % TWO_TO_THE_32 + TWO_TO_THE_32 * (len / 0x2000_0000)
  {
  }

  lemma WordsAdd(q: nat, k: int, c0: uint32, c1: uint32, bits: nat)
    requires bits == TWO_TO_THE_64 * q + c0 + TWO_TO_THE_32 * (c1 + TWO_TO_THE_32 * k)
    ensures c0 + TWO_TO_THE_32 * c1 == bits % TWO_TO_THE_64
  {
    ModUnique(bits, TWO_TO_THE_64, q + k, c0 + TWO_TO_THE_32 * c1);
  }

  lemma CountIndex(count0: uint32, count1: uint32, total: nat)
    requires count0 + TWO_TO_THE_32 * count1 == BitCount(total)
    ensures count0 / 8 % 64 == total % 64
  {
    var q := 8 * total / TWO_TO_THE_64;
    var u := 0x80_0000 * count1 + 0x80_0000_0000_0000 * q;
    assert 8 * total == TWO_TO_THE_64 * q + BitCount(total);
    assert count0 == 8 * (total - 64 * u);
    SameRemainder(count0 / 8, u, total);
  }

  lemma SameRemainder(a: nat, u: int, b: nat)
    requires a == b - 64 * u
    ensures a % 64 == b % 64
  {
  }

  // The words and bytes of the digest.

  /** The `n` words whose image begins `b`. */
  function DecodeWords(b: seq<uint8>, n: nat): (words: seq<uint32>)
    requires 4 * n <= |b|
    ensures |words| == n
  {
    if n == 0 then [] else DecodeWords(b, n - 1) + [Value4(b[4 * n - 4..4 * n])]
  }

  lemma {:induction false} DecodeInvertsEncode(words: seq<uint32>, n: nat, b: seq<uint8>)
    requires n <= |words| && EncodeWords(words, n) <= b
    ensures DecodeWords(b, n) == words[..n]
  {
    if n > 0 {
      PrefixSplits(EncodeWords(words, n - 1), Image4(words[n - 1]), b);
      DecodeInvertsEncode(words, n - 1, b);
      WordReads(b, n, words[n - 1]);
    }
  }

  lemma PrefixSplits(x: seq<uint8>, y: seq<uint8>, b: seq<uint8>)
    requires x + y <= b
    ensures x <= b && b[|x|..|x| + |y|] == y
  {
    assert b[|x|..|x| + |y|] == (x + y)[|x|..];
  }

  lemma WordReads(b: seq<uint8>, n: nat, w: uint32)
    requires 0 < 4 * n <= |b| && b[4 * n - 4..4 * n] == Image4(w)
    ensures DecodeWords(b, n) == DecodeWords(b, n - 1) + [w]
  {
    Image4Inverts(w, []);
  }

  lemma {:induction false} EncodeInvertsDecode(b: seq<uint8>, n: nat, words: seq<uint32>)
    requires 4 * n <= |b| && DecodeWords(b, n) <= words
    ensures EncodeWords(words, n) == b[..4 * n]
  {
    if n > 0 {
      assert words[n - 1] == DecodeWords(b, n)[n - 1];
      assert DecodeWords(b, n - 1) <= words;
      Image4Inverts(0, b[4 * n - 4..4 * n]);
      EncodeInvertsDecode(b, n - 1, words);
    }
  }

  /** The digest holds the words of the fold over the padded message, which for fewer than 56 bytes is one block. */
  lemma DigestIsOfBlocks(f: Compress, msg: seq<uint8>)
    ensures DecodeWords(Digest(f, msg), 4) == Fold(f, Pad(msg), |Pad(msg)| / 64)
    ensures |msg| < 56 ==> DecodeWords(Digest(f, msg), 4) == f(INITIAL, Pad(msg))
  {
    var p := Pad(msg);
    PadWhole(msg);
    var words := Fold(f, p, |p| / 64);
    DecodeInvertsEncode(words, 4, Digest(f, msg));
    assert words[..4] == words;
    if |msg| < 56 {
      assert Fold(f, p, 0) == INITIAL && BlockAt(p, 0) == p;
    }
  }

  method Encode(output: array<uint8>, input: seq<uint32>, len: nat)
    requires len % 4 == 0 && len <= 4 * |input| && len <= output.Length
    modifies output
    ensures output[..len] == EncodeWords(input, len / 4)
    ensures forall k :: len <= k < output.Length ==> output[k] == old(output[k])
  {
    var i, j := 0, 0;
    while j < len
      invariant j == 4 * i && j <= len
      invariant output[..j] == EncodeWords(input, i)
      invariant forall k :: len <= k < output.Length ==> output[k] == old(output[k])
    {
      output[j] := input[i] % 0x100;
      output[j + 1] := input[i] / 0x100 % 0x100;
      output[j + 2] := input[i] / 0x1_0000 % 0x100;
      output[j + 3] := input[i] / 0x100_0000 % 0x100;
      assert output[..j] == EncodeWords(input, i);
      assert output[j..j + 4] == Image4(input[i]);
      SliceConcat(output[..], 0, j, j + 4, EncodeWords(input, i), Image4(input[i]));
      i, j := i + 1, j + 4;
    }
  }

  method Decode(output: array<uint32>, input: seq<uint8>, len: nat)
    requires len % 4 == 0 && len <= |input| && len / 4 <= output.Length
    modifies output
    ensures output[..len / 4] == DecodeWords(input, len / 4)
  {
    var i, j := 0, 0;
    while j < len
      invariant j == 4 * i && j <= len
      invariant output[..i] == DecodeWords(input, i)
    {
      output[i] := Value4(input[j..j + 4]);
      assert output[..i + 1] == output[..i] + [output[i]];
      i, j := i + 1, j + 4;
    }
  }

  // The streaming digest.

  class Md5Context {
    const transform: Compress
    var state: State
    var count0: uint32
    var count1: uint32
    const buffer: array<uint8>

    /** The context has absorbed exactly `msg`. */
    ghost predicate Holds(msg: seq<uint8>)
      reads this, buffer
    {
      && buffer.Length == 64
      && state == Fold(transform, msg, |msg| / 64)
      && buffer[..|msg| % 64] == msg[|msg| / 64 * 64..]
      && count0 + TWO_TO_THE_32 * count1 == BitCount(|msg|)
    }

    constructor Init(transform: Compress)
      ensures this.transform == transform && Holds([]) && fresh(buffer)
    {
      this.transform := transform;
      count0, count1 := 0, 0;
      state := INITIAL;
      buffer := new uint8[64](i => 0);
    }

    method Absorb(input: seq<uint8>, from: nat, index: nat, n: nat)
      requires from + n <= |input| && buffer.Length == 64 && index + n <= 64
      modifies buffer
      ensures buffer[..index] == old(buffer[..index])
      ensures buffer[index..index + n] == input[from..from + n]
    {
      forall k | index <= k < index + n {
        buffer[k] := input[from + (k - index)];
      }
      assert forall k :: 0 <= k < index ==> buffer[k] == old(buffer[k]);
      assert forall k :: index <= k < index + n ==> buffer[k] == input[from..from + n][k - index];
    }

    method AddCount(inputLen: uint32, ghost total: nat)
      requires count0 + TWO_TO_THE_32 * count1 == BitCount(total)
      modifies this`count0, this`count1
      ensures count0 + TWO_TO_THE_32 * count1 == BitCount(total + inputLen)
    {
      var low := inputLen * 8 % TWO_TO_THE_32;
      count0 := (count0 + low) % TWO_TO_THE_32;
      if count0 < low {
        count1 := (count1 + 1) % TWO_TO_THE_32;
      }
      count1 := (count1 + inputLen / 0x2000_0000) % TWO_TO_THE_32;
      assert (count0, count1) == Counted(old(count0), old(count1), inputLen);
      CountAdds(old(count0), old(count1), total, inputLen);
    }

    /** The block loop, its test computed in 32 bits: compresses whole blocks straight from the input. */
    method FoldBlocks(input: seq<uint8>, from: nat, ghost all: seq<uint8>, ghost n: nat) returns (i: nat, ghost m: nat)
      requires from <= |input| && |input| + 64 * n - from == |all| && from <= 64 * n
      requires forall k :: from <= k < |input| ==> input[k] == all[64 * n - from + k]
      requires |input| + (64 - from % 64) % 64 < TWO_TO_THE_32
      requires state == Fold(transform, all, n)
      modifies this`state
      ensures from <= i <= |input| < i + 64 && i - from == 64 * (m - n)
      ensures 64 * m <= |all| && state == Fold(transform, all, m)
    {
      var inputLen := |input|;
      ghost var shift := 64 * n - from;
      i, m := from, n;
      while (i + 63) % TWO_TO_THE_32 < inputLen
        invariant from <= i <= inputLen && 64 * m == shift + i && i + 63 < TWO_TO_THE_32
        invariant state == Fold(transform, all, m)
        decreases inputLen - i
      {
        assert i + 64 <= inputLen;
        SameBlock(input, i, all, m, shift);
        state := transform(state, input[i..i + 64]);
        i := (i + 64) % TWO_TO_THE_32;
        m := m + 1;
      }
    }

    /** Completes the buffered block if the input reaches, and compresses every whole block after it. */
    method AbsorbBlocks(input: seq<uint8>, start: nat, ghost msg: seq<uint8>) returns (i: nat, index: nat)
      requires buffer.Length == 64 && start == |msg| % 64 && start + |input| < TWO_TO_THE_32
      requires state == Fold(transform, msg, |msg| / 64)
      requires buffer[..start] == msg[|msg| / 64 * 64..]
      modifies this`state, buffer
      ensures state == Fold(transform, msg + input, |msg + input| / 64)
      ensures i <= |input| && index + |input| - i == |msg + input| % 64
      ensures buffer[..index] + input[i..] == (msg + input)[|msg + input| / 64 * 64..]
    {
      ghost var all, q := msg + input, |msg| / 64;
      FoldPrefix(transform, msg, all, q);
      index := start;
      var partLen := 64 - index;
      if |input| >= partLen {
        Absorb(input, 0, index, partLen);
        FilledBlock(msg, input, buffer[..]);
        state := transform(state, buffer[..]);
        ghost var m;
        i, m := FoldBlocks(input, partLen, all, q + 1);
        index := 0;
        TailAfterBlocks(msg, input, i, m);
      } else {
        i := 0;
        ShortTail(msg, input);
      }
    }

    /**
     Appends `input`. The index and the carry are computed in 32 bits, and so is the test of the block
     loop; the one demand on the caller is that this test does not wrap (see BlockLoopEnds).
     */
    method Update(input: seq<uint8>, ghost msg: seq<uint8>)
      requires Holds(msg)
      requires |msg| % 64 + |input| < TWO_TO_THE_32
      modifies this, buffer
      ensures Holds(msg + input)
    {
      CountIndex(count0, count1, |msg|);
      var index := count0 / 8 % 64;
      AddCount(|input|, |msg|);
      var i;
      i, index := AbsorbBlocks(input, index, msg);
      Absorb(input, i, index, |input| - i);
      assert buffer[..index + |input| - i] == buffer[..index] + buffer[index..index + |input| - i];
    }

    method CountBits(ghost total: nat) returns (image: seq<uint8>)
      requires count0 + TWO_TO_THE_32 * count1 == BitCount(total)
      ensures image == Image8(BitCount(total))
    {
      var bits := new uint8[8];
      Encode(bits, [count0, count1], 8);
      CountWords(count0, count1);
      image := bits[..8];
    }

    /** Pads, and appends the bit count taken before the padding. */
    method AppendPadding(ghost msg: seq<uint8>)
      requires Holds(msg)
      modifies this, buffer
      ensures Holds(Pad(msg))
    {
      var image := CountBits(|msg|);
      CountIndex(count0, count1, |msg|);
      var index := count0 / 8 % 64;
      var padLen := if index < 56 then 56 - index else 120 - index;
      Update(PADDING[..padLen], msg);
      Update(image, msg + PADDING[..padLen]);
    }

    /** Completes the padding, writes the digest and wipes the context. */
    method Final(digest: array<uint8>, ghost msg: seq<uint8>)
      requires Holds(msg) && digest.Length >= 16 && digest != buffer
      modifies this, buffer, digest
      ensures digest[..16] == Digest(transform, msg)
      ensures state == [0, 0, 0, 0] && count0 == 0 && count1 == 0
      ensures forall k :: 0 <= k < 64 == buffer.Length ==> buffer[k] == 0
    {
      AppendPadding(msg);
      PadWhole(msg);
      Encode(digest, state, 16);
      state, count0, count1 := [0, 0, 0, 0], 0, 0;
      forall k | 0 <= k < 64 {
        buffer[k] := 0;
      }
    }
  }

  /** The first `n` chunks, joined. */
  function Join(chunks: seq<seq<uint8>>, n: nat): seq<uint8>
    requires n <= |chunks|
  {
    if n == 0 then [] else Join(chunks, n - 1) + chunks[n - 1]
  }

  /** Call after call, from an empty context. */
  method AbsorbChunks(transform: Compress, chunks: seq<seq<uint8>>) returns (context: Md5Context)
    requires forall c :: c in chunks ==> |c| <= TWO_TO_THE_32 - 64
    ensures fresh(context) && fresh(context.buffer) && context.transform == transform
    ensures context.Holds(Join(chunks, |chunks|))
  {
    context := new Md5Context.Init(transform);
    for i := 0 to |chunks|
      invariant fresh(context.buffer) && context.transform == transform && context.Holds(Join(chunks, i))
    {
      assert chunks[i] in chunks;
      context.Update(chunks[i], Join(chunks, i));
    }
  }

  /** Any way of cutting the message into calls gives the digest of the whole message. */
  method DigestOfChunks(transform: Compress, chunks: seq<seq<uint8>>) returns (digest: seq<uint8>)
    requires forall c :: c in chunks ==> |c| <= TWO_TO_THE_32 - 64
    ensures digest == Digest(transform, Join(chunks, |chunks|))
  {
    var out := new uint8[16];
    var context := AbsorbChunks(transform, chunks);
    context.Final(out, Join(chunks, |chunks|));
    digest := out[..];
  }

  /** The three calls for a message in one piece. */
  method DigestOf(transform: Compress, message: seq<uint8>) returns (digest: seq<uint8>)
    requires |message| < TWO_TO_THE_32
    ensures digest == Digest(transform, message) && |digest| == 16
  {
    var out := new uint8[16];
    var context := new Md5Context.Init(transform);
    ghost var all := [] + message;
    context.Update(message, []);
    context.Final(out, all);
    assert all == message;
    digest := out[..16];
  }

  // The block loop on its own.

  /** The values the 32-bit loop variable takes, were the loop never to stop. */
  function LoopIndex(index: nat, k: nat): (i: nat)
    requires index < 64
  {
    (64 * (k + 1) - index) % TWO_TO_THE_32
  }

  /**
   With `index` bytes buffered and a block to complete, the loop comes to its end exactly when the
   buffered and the new bytes together are fewer than 2^32; otherwise its test holds for ever.
   */
  lemma BlockLoopEnds(index: nat, inputLen: uint32)
    requires index < 64 && inputLen >= 64 - index
    ensures LoopIndex(index, 0) == 64 - index
    ensures forall k: nat :: LoopIndex(index, k + 1) == (LoopIndex(index, k) + 64) % TWO_TO_THE_32
    ensures (exists k: nat :: !((LoopIndex(index, k) + 63) % TWO_TO_THE_32 < inputLen)) <==>
            index + inputLen < TWO_TO_THE_32
  {
    forall k: nat ensures LoopIndex(index, k + 1) == (LoopIndex(index, k) + 64) % TWO_TO_THE_32 {
      LoopTurns(index, k);
    }
    if index + inputLen < TWO_TO_THE_32 {
      var k := LoopStops(index, inputLen);
    } else {
      forall k: nat ensures (LoopIndex(index, k) + 63) % TWO_TO_THE_32 < inputLen {
        LoopGoesOn(index, inputLen, k);
      }
    }
  }

  lemma LoopTurns(index: nat, k: nat)
    requires index < 64
    ensures LoopIndex(index, k + 1) == (LoopIndex(index, k) + 64) % TWO_TO_THE_32
  {
    var a := 64 * (k + 1) - index;
    assert a == LoopIndex(index, k) + TWO_TO_THE_32 * (a / TWO_TO_THE_32);
  }

  lemma LoopStops(index: nat, inputLen: uint32) returns (k: nat)
    requires index < 64 && inputLen >= 64 - index && index + inputLen < TWO_TO_THE_32
    ensures !((LoopIndex(index, k) + 63) % TWO_TO_THE_32 < inputLen)
  {
    var n: nat := index + inputLen;
    k := n / 64 - 1;
    assert 64 * (k + 1) <= n < 64 * (k + 1) + 64;
    assert LoopIndex(index, k) == 64 * (k + 1) - index;
  }

  lemma LoopGoesOn(index: nat, inputLen: uint32, k: nat)
    requires index < 64 && index + inputLen >= TWO_TO_THE_32
    ensures (LoopIndex(index, k) + 63) % TWO_TO_THE_32 < inputLen
  {
    var j, rounds := (k + 1) % 0x400_0000, (k + 1) / 0x400_0000;
    assert 64 * (k + 1) == 64 * j + TWO_TO_THE_32 * rounds;
    if j == 0 {
      assert 64 * (k + 1) - index == (TWO_TO_THE_32 - index) + TWO_TO_THE_32 * (rounds - 1);
      assert LoopIndex(index, k) == TWO_TO_THE_32 - index;
    } else {
      assert LoopIndex(index, k) == 64 * j - index;
    }
  }

  lemma CountWords(count0: uint32, count1: uint32)
    ensures EncodeWords([count0, count1], 2) == Image8(count0 + TWO_TO_THE_32 * count1)
  {
    assert EncodeWords([count0, count1], 1) == Image4(count0);
    Halves(count0 + TWO_TO_THE_32 * count1, count0, count1);
  }

  lemma Halves(n: nat, low: uint32, high: uint32)
    requires n == low + TWO_TO_THE_32 * high
    ensures n % TWO_TO_THE_32 == low && n / TWO_TO_THE_32 == high
  {
  }

  lemma SameBlock(input: seq<uint8>, i: nat, all: seq<uint8>, m: nat, shift: nat)
    requires i + 64 <= |input| && 64 * m == shift + i && |all| == shift + |input|
    requires forall k :: i <= k < |input| ==> input[k] == all[shift + k]
    ensures input[i..i + 64] == BlockAt(all, m)
  {
    forall k | i <= k < i + 64 ensures input[k] == all[shift + k] {
    }
    assert input[i..i + 64] == all[shift + i..shift + i + 64];
  }

  /** The buffered tail and the first bytes of the input make the next block. */
  lemma FilledBlock(msg: seq<uint8>, input: seq<uint8>, buffer: seq<uint8>)
    requires |buffer| == 64 && |msg| % 64 + |input| >= 64
    requires buffer[..|msg| % 64] == msg[|msg| / 64 * 64..]
    requires buffer[|msg| % 64..] == input[..64 - |msg| % 64]
    ensures buffer == BlockAt(msg + input, |msg| / 64)
  {
    var q, r := |msg| / 64, |msg| % 64;
    assert buffer == buffer[..r] + buffer[r..];
    assert BlockAt(msg + input, q) == msg[64 * q..] + input[..64 - r];
  }

  lemma TailAfterBlocks(msg: seq<uint8>, input: seq<uint8>, i: nat, m: nat)
    requires i <= |input| < i + 64 && |msg| + i == 64 * m
    ensures |msg + input| / 64 == m && |msg + input| % 64 == |input| - i
    ensures (msg + input)[|msg + input| / 64 * 64..] == input[i..]
  {
  }

  lemma ShortTail(msg: seq<uint8>, input: seq<uint8>)
    requires |msg| % 64 + |input| < 64
    ensures |msg + input| / 64 == |msg| / 64 && |msg + input| % 64 == |msg| % 64 + |input|
    ensures (msg + input)[|msg + input| / 64 * 64..] == msg[|msg| / 64 * 64..] + input
  {
  }
}
