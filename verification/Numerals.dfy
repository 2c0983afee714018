/**
 Decimal numerals in d-mon/dstr.cpp: ddtoa and dqtoaf print them, dgetdworddec_fixlen and
 dgetqworddec_fixlen read them. A read past the end of a text finds NUL.
 */
module Numerals {
  import opened Machine

  const ZERO := 0x30
  const SPACE := 0x20

  predicate IsDigit(c: uint8) {
    0x30 <= c <= 0x39
  }

  function DigitOf(c: uint8): nat {
    if IsDigit(c) then c - ZERO else 0
  }

  function At(text: seq<uint8>, i: nat): uint8 {
    if i < |text| then text[i] else 0
  }

  /** The number of digits from `pos` on, as far as `limit`. */
  function Digits(text: seq<uint8>, pos: nat, limit: nat): (n: nat)
    ensures n <= limit
    decreases limit
  {
    if limit == 0 || !IsDigit(At(text, pos)) then 0 else 1 + Digits(text, pos + 1, limit - 1)
  }

  /** The number that the `n` digits from `pos` on denote. */
  function Value(text: seq<uint8>, pos: nat, n: nat): nat {
    if n == 0 then 0 else 10 * Value(text, pos, n - 1) + DigitOf(At(text, pos + n - 1))
  }

  /** The canonical numeral of a number. */
  function Numeral(v: nat): (s: seq<uint8>)
    ensures |s| > 0
  {
    if v < 10 then [ZERO + v] else Numeral(v / 10) + [ZERO + v % 10]
  }

  /** `s` stands in the text at `pos`. */
  ghost predicate Stands(text: seq<uint8>, pos: nat, s: seq<uint8>) {
    pos + |s| <= |text| && forall i :: 0 <= i < |s| ==> At(text, pos + i) == s[i]
  }

  lemma {:induction false} NumeralValue(text: seq<uint8>, pos: nat, v: nat)
    requires Stands(text, pos, Numeral(v))
    ensures Value(text, pos, |Numeral(v)|) == v
  {
    if v >= 10 {
      var s, t := Numeral(v), Numeral(v / 10);
      assert forall i :: 0 <= i < |t| ==> t[i] == s[i];
      NumeralValue(text, pos, v / 10);
      assert s[|t|] == ZERO + v % 10;
    } else {
      assert Numeral(v)[0] == ZERO + v;
      assert Value(text, pos, 0) == 0;
    }
  }

  lemma {:induction false} NumeralIsDigits(v: nat)
    ensures forall i :: 0 <= i < |Numeral(v)| ==> IsDigit(Numeral(v)[i])
  {
    if v >= 10 {
      NumeralIsDigits(v / 10);
    }
  }

  lemma {:induction false} DigitsAre(text: seq<uint8>, pos: nat, n: nat, limit: nat)
    requires n <= limit && forall i :: pos <= i < pos + n ==> IsDigit(At(text, i))
    requires n == limit || !IsDigit(At(text, pos + n))
    ensures Digits(text, pos, limit) == n
    decreases n
  {
    if n > 0 {
      DigitsAre(text, pos + 1, n - 1, limit - 1);
    }
  }

  lemma NumeralDigits(text: seq<uint8>, pos: nat, v: nat, limit: nat)
    requires Stands(text, pos, Numeral(v)) && |Numeral(v)| <= limit
    requires |Numeral(v)| == limit || !IsDigit(At(text, pos + |Numeral(v)|))
    ensures Digits(text, pos, limit) == |Numeral(v)|
  {
    var s := Numeral(v);
    NumeralIsDigits(v);
    forall i | pos <= i < pos + |s| ensures IsDigit(At(text, i)) {
      assert At(text, pos + (i - pos)) == s[i - pos];
    }
    DigitsAre(text, pos, |s|, limit);
  }

  /** Every string of digits without a leading zero is the numeral of its value. */
  lemma {:induction false} NumeralIsCanonical(s: seq<uint8>, n: nat)
    requires 0 < n <= |s| && (forall i :: 0 <= i < |s| ==> IsDigit(s[i])) && (n > 1 ==> s[0] != ZERO)
    ensures s[..n] == Numeral(Value(s, 0, n))
    ensures s[0] != ZERO ==> Value(s, 0, n) > 0
  {
    assert Value(s, 0, 0) == 0;
    if n > 1 {
      NumeralIsCanonical(s, n - 1);
      assert s[..n] == s[..n - 1] + [s[n - 1]];
    } else {
      assert s[..1] == [s[0]];
    }
  }

  function PowerOfTen(n: nat): nat {
    if n == 0 then 1 else 10 * PowerOfTen(n - 1)
  }

  lemma {:induction false} NumeralLength(v: nat, n: nat)
    requires 0 < n && v < PowerOfTen(n)
    ensures |Numeral(v)| <= n
  {
    if v >= 10 {
      assert n > 1;
      NumeralLength(v / 10, n - 1);
    }
  }

  /** Numbers of 32 bits have up to 10 digits, numbers of 64 bits up to 20. */
  lemma WordLengths(v: nat)
    ensures v < TWO_TO_THE_32 ==> |Numeral(v)| <= 10
    ensures v < 0x1_0000_0000_0000_0000 ==> |Numeral(v)| <= 20
  {
    assert PowerOfTen(10) == 100_0000_0000;
    assert PowerOfTen(20) == 1_0000_0000_0000_0000_0000;
    if v < TWO_TO_THE_32 {
      NumeralLength(v, 10);
    } else if v < 0x1_0000_0000_0000_0000 {
      NumeralLength(v, 20);
    }
  }

  // Reading with the overflow guard.

  const GUARD32 := 0x1999_9999
  const GUARD64 := 0x1999_9999_9999_9999

  /** 2^32 for the one guard and 2^64 for the other. */
  function Modulus(guard: nat): (m: nat)
    ensures m > 0
  {
    10 * guard + 6
  }

  /** The arithmetic of the width, on numbers that wrap at most once. */
  function Wrapped(guard: nat, x: nat): nat {
    if x < Modulus(guard) then x else x - Modulus(guard)
  }

  lemma WrappedIsRemainder(guard: nat, x: nat)
    requires x < 2 * Modulus(guard)
    ensures Wrapped(guard, x) == x % Modulus(guard)
  {
    var m := Modulus(guard);
    if x < m {
      ModUnique(x, m, 0, x);
    } else {
      ModUnique(x, m, 1, x - m);
    }
  }

  /** The result after `n` digits in the width's arithmetic; none when the guard has stopped it. */
  function Guarded(guard: nat, text: seq<uint8>, pos: nat, n: nat): Option<nat> {
    if n == 0 then Some(0)
    else
      match Guarded(guard, text, pos, n - 1)
      case None => None
      case Some(r) => if r > guard then None else Some(Wrapped(guard, 10 * r + DigitOf(At(text, pos + n - 1))))
  }

  datatype Number = Number(value: nat, len: nat)

  function Decimal(guard: nat, text: seq<uint8>, pos: nat, limit: nat): Option<Number> {
    var n := Digits(text, pos, limit);
    if n == 0 then None
    else
      match Guarded(guard, text, pos, n)
      case None => None
      case Some(v) => Some(Number(v, n))
  }

  lemma {:induction false} StoppedStaysStopped(guard: nat, text: seq<uint8>, pos: nat, m: nat, n: nat)
    requires m <= n && Guarded(guard, text, pos, m) == None
    ensures Guarded(guard, text, pos, n) == None
    decreases n
  {
    if m < n {
      StoppedStaysStopped(guard, text, pos, m, n - 1);
    }
  }

  lemma {:induction false} ValueGrows(text: seq<uint8>, pos: nat, m: nat, n: nat)
    requires m <= n
    ensures Value(text, pos, m) <= Value(text, pos, n)
    decreases n
  {
    if m < n {
      ValueGrows(text, pos, m, n - 1);
    }
  }

  /** Below the modulus the reading is exact. */
  lemma {:induction false} SmallIsExact(guard: nat, text: seq<uint8>, pos: nat, n: nat)
    requires Value(text, pos, n) < Modulus(guard)
    ensures Guarded(guard, text, pos, n) == Some(Value(text, pos, n))
  {
    if n > 0 {
      SmallIsExact(guard, text, pos, n - 1);
    }
  }

  lemma ModStep(v: nat, d: nat, m: nat)
    requires m > 0
    ensures (10 * (v % m) + d) % m == (10 * v + d) % m
  {
    var r, q := v % m, v / m;
    var a, b := 10 * r + d, 10 * v + d;
    assert b == m * (10 * q) + a;
    assert b == m * (10 * q + a / m) + a % m;
    ModUnique(b, m, 10 * q + a / m, a % m);
  }

  /** What is accepted is right modulo the modulus. */
  lemma {:induction false} AcceptedIsCongruent(guard: nat, text: seq<uint8>, pos: nat, n: nat)
    requires Guarded(guard, text, pos, n).Some?
    ensures Guarded(guard, text, pos, n).value == Value(text, pos, n) % Modulus(guard)
  {
    var m := Modulus(guard);
    if n > 0 {
      AcceptedIsCongruent(guard, text, pos, n - 1);
      var d := DigitOf(At(text, pos + n - 1));
      WrappedIsRemainder(guard, 10 * Guarded(guard, text, pos, n - 1).value + d);
      ModStep(Value(text, pos, n - 1), d, m);
    } else {
      ModUnique(0, m, 0, 0);
    }
  }

  /** Some beginning of the digits denotes one of the four numbers from the modulus on. */
  ghost predicate Wraps(guard: nat, text: seq<uint8>, pos: nat, n: nat) {
    exists k :: 0 <= k <= n && Modulus(guard) <= Value(text, pos, k) <= Modulus(guard) + 3
  }

  lemma {:induction false} UnwrappedIsSmall(guard: nat, text: seq<uint8>, pos: nat, n: nat)
    requires Guarded(guard, text, pos, n).Some? && !Wraps(guard, text, pos, n)
    ensures Value(text, pos, n) < Modulus(guard)
  {
    if n > 0 {
      assert !Wraps(guard, text, pos, n - 1);
      UnwrappedIsSmall(guard, text, pos, n - 1);
      SmallIsExact(guard, text, pos, n - 1);
    }
  }

  /**
   An accepted numeral is read exactly if and only if no beginning of it denotes one of the four numbers
   from 2^32 (or 2^64) on, the ones that the guard lets wrap.
   */
  lemma ExactIff(guard: nat, text: seq<uint8>, pos: nat, n: nat)
    requires Guarded(guard, text, pos, n).Some?
    ensures Guarded(guard, text, pos, n).value == Value(text, pos, n) <==> !Wraps(guard, text, pos, n)
  {
    if Wraps(guard, text, pos, n) {
      var k :| 0 <= k <= n && Modulus(guard) <= Value(text, pos, k) <= Modulus(guard) + 3;
      ValueGrows(text, pos, k, n);
      AcceptedIsCongruent(guard, text, pos, n);
    } else {
      UnwrappedIsSmall(guard, text, pos, n);
      SmallIsExact(guard, text, pos, n);
    }
  }

  lemma SixAfterGuard(guard: nat, text: seq<uint8>, n: nat)
    requires Value(text, 0, n) == guard && At(text, n) == ZERO + 6
    ensures Guarded(guard, text, 0, n + 1) == Some(0)
  {
    SmallIsExact(guard, text, 0, n);
  }

  /** The numeral of the modulus itself, 4294967296 for 32 bits, is accepted and read as 0. */
  lemma ModulusReadsAsZero(guard: nat)
    requires guard > 0
    ensures var s := Numeral(Modulus(guard)); Decimal(guard, s, 0, |s|) == Some(Number(0, |s|))
  {
    var s, t := Numeral(Modulus(guard)), Numeral(guard);
    NumeralDigits(s, 0, Modulus(guard), |s|);
    NumeralValue(s, 0, guard);
    SixAfterGuard(guard, s, |t|);
  }

  /** Every 32-bit number reads back from its numeral; so does every 64-bit one. */
  lemma NumeralReads(guard: nat, text: seq<uint8>, pos: nat, v: nat, limit: nat)
    requires v < Modulus(guard)
    requires Stands(text, pos, Numeral(v)) && |Numeral(v)| <= limit
    requires |Numeral(v)| == limit || !IsDigit(At(text, pos + |Numeral(v)|))
    ensures Decimal(guard, text, pos, limit) == Some(Number(v, |Numeral(v)|))
  {
    NumeralDigits(text, pos, v, limit);
    NumeralValue(text, pos, v);
    SmallIsExact(guard, text, pos, |Numeral(v)|);
  }

  /** dgetdworddec_fixlen and dgetqworddec_fixlen, which differ in the guard alone. */
  method GetDecimal(guard: nat, text: seq<uint8>, pos: nat, strLen: nat) returns (r: Option<Number>)
    ensures r == Decimal(guard, text, pos, strLen)
  {
    if strLen == 0 || !IsDigit(At(text, pos)) {
      return None;
    }
    var result, l := 0, 0;
    while l < strLen
      invariant l <= strLen && Digits(text, pos, strLen) == l + Digits(text, pos + l, strLen - l)
      invariant Guarded(guard, text, pos, l) == Some(result)
    {
      var symbol := At(text, pos + l);
      if !IsDigit(symbol) {
        break;
      }
      assert Digits(text, pos, strLen) == l + 1 + Digits(text, pos + l + 1, strLen - l - 1);
      if result > guard {
        StoppedStaysStopped(guard, text, pos, l + 1, Digits(text, pos, strLen));
        return None;
      }
      WrappedIsRemainder(guard, 10 * result + DigitOf(symbol));
      result := (10 * result + DigitOf(symbol)) % Modulus(guard);
      l := l + 1;
    }
    r := Some(Number(result, l));
  }

  // Printing.

  /** Fills the buffer from its end with the digits of the number. */
  method FillDigits(value: nat, buf: array<uint8>) returns (p: nat)
    requires |Numeral(value)| < buf.Length
    modifies buf
    ensures p < buf.Length && buf[p..] == Numeral(value)
  {
    assert buf[buf.Length..] == [];
    assert Numeral(value) + [] == Numeral(value);
    var v := value;
    p := buf.Length - 1;
    PutDigit(buf, p, v % 10);
    v := v / 10;
    while v > 0
      invariant p < buf.Length
      invariant Numeral(value) == Higher(v) + buf[p..]
    {
      p := p - 1;
      PutDigit(buf, p, v % 10);
      v := v / 10;
    }
  }

  method PutDigit(buf: array<uint8>, p: nat, d: nat)
    requires p < buf.Length && d < 10
    modifies buf
    ensures buf[p..] == [ZERO + d] + old(buf[p + 1..])
  {
    buf[p] := ZERO + d;
    assert buf[p + 1..] == old(buf[p + 1..]);
  }

  /** The digits still to come, when `v` is what is left of the value. */
  function Higher(v: nat): seq<uint8> {
    if v == 0 then [] else Numeral(v)
  }

  function Filled(symbol: uint8, n: nat): (s: seq<uint8>)
    ensures |s| == n && forall i :: 0 <= i < n ==> s[i] == symbol
  {
    if n == 0 then [] else Filled(symbol, n - 1) + [symbol]
  }

  /** The numeral, padded on the left to `count` when there is a symbol. */
  function Padded(value: nat, count: nat, symbol: uint8): seq<uint8> {
    var s := Numeral(value);
    (if symbol != 0 && count > |s| then Filled(symbol, count - |s|) else []) + s
  }

  /** The numeral stands at the right, and what is before it is the symbol. */
  lemma PaddedOnTheLeft(value: nat, count: nat, symbol: uint8)
    ensures var r := Padded(value, count, symbol); var n := |r| - |Numeral(value)|;
            && |r| == (if symbol != 0 && count > |Numeral(value)| then count else |Numeral(value)|)
            && r[n..] == Numeral(value) && forall i :: 0 <= i < n ==> r[i] == symbol
  {
  }

  lemma {:induction false} LeadingZeros(text: seq<uint8>, pos: nat, z: nat, n: nat)
    requires forall i :: pos <= i < pos + z ==> At(text, i) == ZERO
    ensures Value(text, pos, z + n) == Value(text, pos + z, n)
    decreases z + n
  {
    if n > 0 {
      LeadingZeros(text, pos, z, n - 1);
    } else if z > 0 {
      LeadingZeros(text, pos, z - 1, 0);
    }
  }

  lemma PaddedDigits(v: nat, count: nat)
    ensures var s := Padded(v, count, ZERO); forall i :: 0 <= i < |s| ==> IsDigit(s[i])
  {
    var s, t := Padded(v, count, ZERO), Numeral(v);
    PaddedOnTheLeft(v, count, ZERO);
    NumeralIsDigits(v);
    forall i | |s| - |t| <= i < |s| ensures s[i] == t[i - (|s| - |t|)] {
    }
  }

  lemma PaddedValue(text: seq<uint8>, pos: nat, v: nat, count: nat)
    requires Stands(text, pos, Padded(v, count, ZERO))
    ensures Value(text, pos, |Padded(v, count, ZERO)|) == v
  {
    var s, t := Padded(v, count, ZERO), Numeral(v);
    var z := |s| - |t|;
    PaddedOnTheLeft(v, count, ZERO);
    forall i | pos <= i < pos + z ensures At(text, i) == ZERO {
      assert At(text, pos + (i - pos)) == s[i - pos];
    }
    forall i | 0 <= i < |t| ensures At(text, pos + z + i) == t[i] {
      assert At(text, pos + (z + i)) == s[z + i] == s[z..][i];
    }
    NumeralValue(text, pos + z, v);
    LeadingZeros(text, pos, z, |t|);
  }

  /** A number that is printed with leading zeros reads back, zeros and all. */
  lemma ZeroPaddedReads(guard: nat, text: seq<uint8>, pos: nat, v: nat, count: nat, limit: nat)
    requires v < Modulus(guard)
    requires var s := Padded(v, count, ZERO);
             Stands(text, pos, s) && |s| <= limit && (|s| == limit || !IsDigit(At(text, pos + |s|)))
    ensures Decimal(guard, text, pos, limit) == Some(Number(v, |Padded(v, count, ZERO)|))
  {
    var s := Padded(v, count, ZERO);
    PaddedOnTheLeft(v, count, ZERO);
    PaddedDigits(v, count);
    forall i | pos <= i < pos + |s| ensures IsDigit(At(text, i)) {
      assert At(text, pos + (i - pos)) == s[i - pos];
    }
    DigitsAre(text, pos, |s|, limit);
    PaddedValue(text, pos, v, count);
    SmallIsExact(guard, text, pos, |s|);
  }

  method Fill(str: array<uint8>, at: nat, symbol: uint8, n: nat)
    requires at + n <= str.Length
    modifies str
    ensures str[..at + n] == old(str[..at]) + Filled(symbol, n)
    ensures forall k :: at + n <= k < str.Length ==> str[k] == old(str[k])
  {
    var i := 0;
    while i < n
      invariant i <= n && str[..at + i] == old(str[..at]) + Filled(symbol, i)
      invariant forall k :: at + i <= k < str.Length ==> str[k] == old(str[k])
    {
      str[at + i] := symbol;
      i := i + 1;
    }
  }

  method Copy(str: array<uint8>, at: nat, source: array<uint8>, p: nat, n: nat)
    requires p + n <= source.Length && at + n <= str.Length && str != source
    modifies str
    ensures str[..at + n] == old(str[..at]) + source[p..p + n]
    ensures forall k :: at + n <= k < str.Length ==> str[k] == old(str[k])
  {
    var i := 0;
    while i < n
      invariant i <= n && str[..at + i] == old(str[..at]) + source[p..p + i]
      invariant forall k :: at + i <= k < str.Length ==> str[k] == old(str[k])
    {
      str[at + i] := source[p + i];
      i := i + 1;
    }
  }

  method PrintPadded(value: nat, size: nat, str: array<uint8>, at: nat, count: nat, symbol: uint8) returns (n: nat)
    requires |Numeral(value)| < size && at + |Padded(value, count, symbol)| <= str.Length
    modifies str
    ensures n == |Padded(value, count, symbol)|
    ensures str[..at + n] == old(str[..at]) + Padded(value, count, symbol)
    ensures forall k :: at + n <= k < str.Length ==> str[k] == old(str[k])
  {
    var buf := new uint8[size];
    var p := FillDigits(value, buf);
    var c := buf.Length - p;
    n := c;
    if symbol != 0 && count > c {
      n := count;
      Fill(str, at, symbol, count - c);
    }
    assert buf[p..p + c] == buf[p..];
    Copy(str, at + n - c, buf, p, c);
  }

  /**
   What ddtoa and dqtoa do, which differ in the width of the value and the size of the buffer; ddtoaf and
   dqtoaf are the case without symbol and spaces. The result is one byte wide.
   */
  method Print(value: nat, size: nat, str: array<uint8>, at: nat, count: uint8, symbol: uint8, spaces: uint8)
    returns (ret: uint8, ghost n: nat)
    requires |Numeral(value)| < size && at + |Padded(value, count, symbol)| + spaces < str.Length
    modifies str
    ensures n == |Padded(value, count, symbol)| + spaces && ret == n % 0x100
    ensures str[..at + n] == old(str[..at]) + Padded(value, count, symbol) + Filled(SPACE, spaces) && str[at + n] == 0
    ensures forall k :: at + n < k < str.Length ==> str[k] == old(str[k])
  {
    var c := PrintPadded(value, size, str, at, count, symbol);
    Fill(str, at + c, SPACE, spaces);
    str[at + c + spaces] := 0;
    ret := (c + spaces) % 0x100;
    n := c + spaces;
  }

  /** ddtoa: its 12 bytes hold the digits of every dword. */
  method PrintDword(value: uint32, str: array<uint8>, at: nat, count: uint8, symbol: uint8, spaces: uint8)
    returns (ret: uint8, ghost n: nat)
    requires at + |Padded(value, count, symbol)| + spaces < str.Length
    modifies str
    ensures n == |Padded(value, count, symbol)| + spaces && ret == n % 0x100
    ensures str[..at + n] == old(str[..at]) + Padded(value, count, symbol) + Filled(SPACE, spaces) && str[at + n] == 0
    ensures forall k :: at + n < k < str.Length ==> str[k] == old(str[k])
  {
    WordLengths(value);
    ret, n := Print(value, 12, str, at, count, symbol, spaces);
  }

  /** dqtoa: its 22 bytes hold the digits of every qword. */
  method PrintQword(value: uint64, str: array<uint8>, at: nat, count: uint8, symbol: uint8, spaces: uint8)
    returns (ret: uint8, ghost n: nat)
    requires at + |Padded(value, count, symbol)| + spaces < str.Length
    modifies str
    ensures n == |Padded(value, count, symbol)| + spaces && ret == n % 0x100
    ensures str[..at + n] == old(str[..at]) + Padded(value, count, symbol) + Filled(SPACE, spaces) && str[at + n] == 0
    ensures forall k :: at + n < k < str.Length ==> str[k] == old(str[k])
  {
    WordLengths(value);
    ret, n := Print(value, 22, str, at, count, symbol, spaces);
  }

  // Printing and reading.

  lemma PrintedReads(guard: nat, text: seq<uint8>, v: nat)
    requires v < Modulus(guard) && |Numeral(v)| <= |text| && text[..|Numeral(v)|] == Numeral(v)
    ensures Decimal(guard, text, 0, |Numeral(v)|) == Some(Number(v, |Numeral(v)|))
  {
    assert forall i :: 0 <= i < |Numeral(v)| ==> text[i] == text[..|Numeral(v)|][i];
    NumeralReads(guard, text, 0, v, |Numeral(v)|);
  }

  /** Every dword that is printed is read as itself, wholly consumed. */
  method DwordRoundTrip(value: uint32) returns (r: Option<Number>)
    ensures r == Some(Number(value, |Numeral(value)|))
  {
    WordLengths(value);
    var str := new uint8[11];
    var l, n := PrintDword(value, str, 0, 10, 0, 0);
    assert str[..0 + n] == Numeral(value);
    PrintedReads(GUARD32, str[..], value);
    r := GetDecimal(GUARD32, str[..], 0, l);
  }

  /** And every qword. */
  method QwordRoundTrip(value: uint64) returns (r: Option<Number>)
    ensures r == Some(Number(value, |Numeral(value)|))
  {
    WordLengths(value);
    var str := new uint8[21];
    var l, n := PrintQword(value, str, 0, 10, 0, 0);
    assert str[..0 + n] == Numeral(value);
    PrintedReads(GUARD64, str[..], value);
    r := GetDecimal(GUARD64, str[..], 0, l);
  }
}
