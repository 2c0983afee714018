/** The fixed-width unsigned integers of the original, and their little-endian byte images. */
module Machine {
  const TWO_TO_THE_32 := 0x1_0000_0000
  const TWO_TO_THE_64 := 0x1_0000_0000_0000_0000

  type uint8 = n: int | 0 <= n < 0x100
  type uint16 = n: int | 0 <= n < 0x1_0000
  type uint32 = n: int | 0 <= n < 0x1_0000_0000

  type uint64 = n: int | 0 <= n < 0x1_0000_0000_0000_0000

  type Bytes = seq<uint8>

  /** A text in ASCII. */
  function Ascii(s: string): (b: Bytes)
    requires forall i :: 0 <= i < |s| ==> s[i] as int < 0x80
    ensures |b| == |s| && forall i :: 0 <= i < |s| ==> b[i] == s[i] as int
  {
    seq(|s|, i requires 0 <= i < |s| => s[i] as int)
  }

  datatype Option<+T> = None | Some(value: T)

  lemma SliceConcat<T>(s: seq<T>, a: nat, b: nat, c: nat, left: seq<T>, right: seq<T>)
    requires a <= b <= c <= |s|
    requires s[a..b] == left && s[b..c] == right
    ensures s[a..c] == left + right
  {
    assert s[a..c] == s[a..b] + s[b..c];
  }

  lemma ConcatAssociates<T>(a: seq<T>, b: seq<T>, c: seq<T>)
    ensures a + b + c == a + (b + c)
  {
  }

  /** Quotient and remainder are the only ones there are. */
  lemma ModUnique(a: int, m: nat, q: int, r: nat)
    requires r < m && a == m * q + r
    ensures a % m == r && a / m == q
  {
    var d, x := a / m, a % m;
    assert m * (d - q) == r - x;
    if d > q {
      Multiple(m, d - q);
    } else if d < q {
      Multiple(m, q - d);
    }
  }

  lemma Multiple(m: nat, k: nat)
    requires k > 0
    ensures m * k >= m
  {
  }

  /** The little-endian image of a 16-bit word, and the word with a given image. */
  function Image2(w: uint16): (b: seq<uint8>)
    ensures |b| == 2
  {
    [w % 0x100, w / 0x100]
  }

  function Value2(b: seq<uint8>): uint16
    requires |b| == 2
  {
    b[0] + 0x100 * b[1] as int
  }

  /** The same for 32 bits. */
  function Image4(w: uint32): (b: seq<uint8>)
    ensures |b| == 4
  {
    [w % 0x100, w / 0x100 % 0x100, w / 0x1_0000 % 0x100, w / 0x100_0000]
  }

  function Value4(b: seq<uint8>): uint32
    requires |b| == 4
  {
    b[0] + 0x100 * b[1] as int + 0x1_0000 * b[2] as int + 0x100_0000 * b[3] as int
  }

  /** And for 64 bits, the low word first. */
  function Image8(w: uint64): (b: seq<uint8>)
    ensures |b| == 8
  {
    Image4(w % TWO_TO_THE_32) + Image4(w / TWO_TO_THE_32)
  }

  lemma Image4Inverts(w: uint32, b: seq<uint8>)
    ensures Value4(Image4(w)) == w
    ensures |b| == 4 ==> Image4(Value4(b)) == b
  {
    assert w / 0x100 / 0x100 == w / 0x1_0000 && w / 0x1_0000 / 0x100 == w / 0x100_0000;
    if |b| == 4 {
      var v: nat := Value4(b);
      assert v / 0x100 == b[1] as int + 0x100 * b[2] as int + 0x1_0000 * b[3] as int;
      assert v / 0x1_0000 == v / 0x100 / 0x100 == b[2] as int + 0x100 * b[3] as int;
      assert v / 0x100_0000 == v / 0x1_0000 / 0x100 == b[3];
    }
  }

  // Numbers of any width.

  /** The unsigned number in the `n` bytes at `i`, low byte first. */
  function Le(msg: seq<uint8>, i: nat, n: nat): nat
    requires i + n <= |msg|
    decreases n
  {
    if n == 0 then 0 else msg[i] + 0x100 * Le(msg, i + 1, n - 1)
  }

  lemma Image4IsLe(b: seq<uint8>, i: nat, w: uint32)
    requires i + 4 <= |b| && b[i..i + 4] == Image4(w)
    ensures Le(b, i, 4) == w
  {
    Image4Halves(w);
    assert b[i..i + 2] == b[i..i + 4][..2];
    assert b[i + 2..i + 4] == b[i..i + 4][2..];
  }

  lemma Image4Halves(w: uint32)
    ensures Image4(w) == Image2(w % 0x1_0000) + Image2(w / 0x1_0000)
  {
    var high, low := w / 0x1_0000, w % 0x1_0000;
    var x, a := low / 0x100, low % 0x100;
    ModUnique(w, 0x100, 0x100 * high + x, a);
    ModUnique(w / 0x100, 0x100, high, x);
    assert high / 0x100 == w / 0x100_0000;
  }

  lemma Image8IsLe(b: seq<uint8>, i: nat, w: uint64)
    requires i + 8 <= |b| && b[i..i + 8] == Image8(w)
    ensures Le(b, i, 8) == w
  {
    assert b[i..i + 4] == b[i..i + 8][..4];
    assert b[i + 4..i + 8] == b[i..i + 8][4..];
    Image4IsLe(b, i, w % TWO_TO_THE_32);
    Image4IsLe(b, i + 4, w / TWO_TO_THE_32);
  }
}
