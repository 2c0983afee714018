/** The strict UTF-16 to UTF-8 and UTF-8 to UTF-16 converters of d-mon/dsymbconv.cpp. */
module UtfConverters {
  import opened Machine
  import opened Codepoints
  import opened Conversion

  // Reading one character.

  function Next16(s: seq<uint16>, i: nat): Head {
    if i >= |s| then End
    else if High(s[i]) then
      if i + 1 == |s| then Stop(SourceExhausted)
      else if Low(s[i + 1]) then Char((s[i] as int - 0xD800) * 0x400 + (s[i + 1] as int - 0xDC00) + 0x1_0000, 2)
      else Stop(SourceIllegal)
    else if Low(s[i]) then Stop(SourceIllegal)
    else Char(s[i], 1)
  }

  function TrailingBytes(lead: uint8): (n: nat)
    ensures n <= 5
  {
    if lead < 0xC0 then 0 else if lead < 0xE0 then 1 else if lead < 0xF0 then 2
    else if lead < 0xF8 then 3 else if lead < 0xFC then 4 else 5
  }

  const OFFSETS: seq<uint32> := [0, 0x3080, 0xE_2080, 0x3C8_2080, 0xFA08_2080, 0x8208_2080]

  /** The legality switch, its cases falling through from the last byte to the first. */
  predicate IsLegalUtf8(s: seq<uint8>, i: nat, length: nat)
    requires 0 < length && i + length <= |s|
  {
    && length <= 4
    && (length == 4 ==> 0x80 <= s[i + 3] <= 0xBF)
    && (length >= 3 ==> 0x80 <= s[i + 2] <= 0xBF)
    && (length >= 2 ==>
      && s[i + 1] <= 0xBF
      && match s[i] {
           case 0xE0 => s[i + 1] >= 0xA0
           case 0xED => s[i + 1] <= 0x9F
           case 0xF0 => s[i + 1] >= 0x90
           case 0xF4 => s[i + 1] <= 0x8F
           case _ => s[i + 1] >= 0x80
         })
    && !(0x80 <= s[i] < 0xC2)
    && s[i] <= 0xF4
  }

  /** The sum of `n` bytes as digits of weight 64. */
  function Shifted(s: seq<uint8>, i: nat, n: nat): nat
    requires i + n <= |s|
  {
    if n == 0 then 0 else Shifted(s, i, n - 1) * 0x40 + s[i + n - 1]
  }

  lemma ShiftedBytes(s: seq<uint8>, i: nat, n: nat)
    requires i + n <= |s|
    ensures n == 1 ==> Shifted(s, i, n) == s[i]
    ensures n == 2 ==> Shifted(s, i, n) == s[i] as int * 0x40 + s[i + 1]
    ensures n == 3 ==> Shifted(s, i, n) == (s[i] as int * 0x40 + s[i + 1]) * 0x40 + s[i + 2]
    ensures n == 4 ==> Shifted(s, i, n) == ((s[i] as int * 0x40 + s[i + 1]) * 0x40 + s[i + 2]) * 0x40 + s[i + 3]
  {
    if n > 0 {
      ShiftedBytes(s, i, n - 1);
    }
  }

  /** The number that the payload bits of the `n` bytes at `i` spell. */
  function Payload(s: seq<uint8>, i: nat, n: nat): int
    requires 1 <= n <= 4 && i + n <= |s|
  {
    if n == 1 then s[i]
    else if n == 2 then (s[i] as int - 0xC0) * 0x40 + (s[i + 1] as int - 0x80)
    else if n == 3 then ((s[i] as int - 0xE0) * 0x40 + (s[i + 1] as int - 0x80)) * 0x40 + (s[i + 2] as int - 0x80)
    else
      (((s[i] as int - 0xF0) * 0x40 + (s[i + 1] as int - 0x80)) * 0x40 + (s[i + 2] as int - 0x80)) * 0x40
      + (s[i + 3] as int - 0x80)
  }

  /** A legal sequence decodes, without wrapping below zero, to what its payload bits spell, a scalar value. */
  lemma LegalDecodes(s: seq<uint8>, i: nat, n: nat)
    requires 0 < n && i + n <= |s| && n == TrailingBytes(s[i]) + 1 && IsLegalUtf8(s, i, n)
    ensures Shifted(s, i, n) >= OFFSETS[n - 1]
    ensures var c := Shifted(s, i, n) - OFFSETS[n - 1]; c == Payload(s, i, n) && (c < 0xD800 || 0xE000 <= c < 0x11_0000)
  {
    ShiftedBytes(s, i, n);
  }

  function Next8(s: seq<uint8>, i: nat): Head {
    if i >= |s| then End
    else
      var n := TrailingBytes(s[i]) + 1;
      if i + n > |s| then Stop(SourceExhausted)
      else if !IsLegalUtf8(s, i, n) then Stop(SourceIllegal)
      else
        LegalDecodes(s, i, n);
        Char(Shifted(s, i, n) - OFFSETS[n - 1], n)
  }

  lemma Next16Laws()
    ensures Local(Next16) && Stable(Next16)
  {
  }

  lemma {:induction false} ShiftedSame(s: seq<uint8>, i: nat, t: seq<uint8>, j: nat, n: nat)
    requires i + n <= |s| && j + n <= |t| && forall k :: i <= k < i + n ==> s[k] == t[k - i + j]
    ensures Shifted(s, i, n) == Shifted(t, j, n)
  {
    if n > 0 {
      ShiftedSame(s, i, t, j, n - 1);
    }
  }

  lemma Next16Proper()
    ensures Proper(Next16)
  {
  }

  lemma Next8Proper()
    ensures Proper(Next8)
  {
  }

  lemma Next8Laws()
    ensures Local(Next8) && Stable(Next8)
  {
    forall s, k: nat, i: nat | k + i <= |s| ensures Next8(s[k..], i) == Next8(s, k + i) {
      if k + i < |s| {
        var n := TrailingBytes(s[k + i]) + 1;
        if k + i + n <= |s| {
          ShiftedSame(s[k..], i, s, k + i, n);
        }
      }
    }
    forall a, b, i: nat | i <= |a| && (Next8(a, i).Char? || Next8(a, i) == Stop(SourceIllegal))
      ensures Next8(a + b, i) == Next8(a, i)
    {
      var n := TrailingBytes(a[i]) + 1;
      ShiftedSame(a + b, i, a, i, n);
    }
  }

  lemma Next8SelfContained()
    ensures SelfContained(Next8)
  {
    forall s, n: nat, i: nat | n <= |s| && i <= n && Next8(s, i).Char? && i + Next8(s, i).width <= n
      ensures Next8(s[..n], i) == Next8(s, i)
    {
      ShiftedSame(s[..n], i, s, i, Next8(s, i).width);
    }
  }

  lemma Next16Inverts()
    ensures Inverts(Next16, Utf16Of)
  {
  }

  /** The digits of weight 64 that section 3 of RFC 3629 spreads over the bytes. */
  lemma Digits(c: nat)
    ensures c == c / 0x40 * 0x40 + c % 0x40
    ensures c == (c / 0x1000 * 0x40 + c / 0x40 % 0x40) * 0x40 + c % 0x40
    ensures c == ((c / 0x4_0000 * 0x40 + c / 0x1000 % 0x40) * 0x40 + c / 0x40 % 0x40) * 0x40 + c % 0x40
  {
    assert c / 0x40 / 0x40 == c / 0x1000;
    assert c / 0x1000 / 0x40 == c / 0x4_0000;
  }

  lemma Next8OfImage(s: seq<uint8>, i: nat, c: Scalar)
    requires i + |Utf8Of(c)| <= |s| && s[i..i + |Utf8Of(c)|] == Utf8Of(c)
    ensures Next8(s, i) == Char(c, |Utf8Of(c)|)
  {
    ImageIsLegal(s, i, c);
    ImageShifts(s, i, c);
  }

  lemma ImageIsLegal(s: seq<uint8>, i: nat, c: Scalar)
    requires i + |Utf8Of(c)| <= |s| && s[i..i + |Utf8Of(c)|] == Utf8Of(c)
    ensures TrailingBytes(s[i]) + 1 == |Utf8Of(c)| && IsLegalUtf8(s, i, |Utf8Of(c)|)
  {
    assert forall k :: 0 <= k < |Utf8Of(c)| ==> s[i + k] == Utf8Of(c)[k];
    assert s[i + 0] == s[i];
  }

  lemma ImageShifts(s: seq<uint8>, i: nat, c: Scalar)
    requires i + |Utf8Of(c)| <= |s| && s[i..i + |Utf8Of(c)|] == Utf8Of(c)
    ensures Shifted(s, i, |Utf8Of(c)|) == c + OFFSETS[|Utf8Of(c)| - 1]
  {
    var n := |Utf8Of(c)|;
    assert forall k :: 0 <= k < n ==> s[i + k] == Utf8Of(c)[k];
    assert s[i + 0] == s[i];
    ShiftedBytes(s, i, n);
    Digits(c);
  }

  lemma Next8Inverts()
    ensures Inverts(Next8, Utf8Of)
  {
    forall a, c, b ensures Next8(a + Utf8Of(c) + b, |a|) == Char(c, |Utf8Of(c)|) {
      assert (a + Utf8Of(c) + b)[|a|..|a| + |Utf8Of(c)|] == Utf8Of(c);
      Next8OfImage(a + Utf8Of(c) + b, |a|, c);
    }
  }

  // The converters. `source` is the range from the source cursor to the source end; the target range
  // is given by two indices. The cursors come back moved, as the outcome says.

  /** The strict conversion of UTF-16 units to at most `room` bytes of UTF-8. */
  ghost function ToUtf8(source: seq<uint16>, room: nat): (o: Outcome<uint8>)
    ensures o.taken <= |source| && |o.out| <= room
  {
    Next16Proper();
    Convert(Next16, Utf8Of, source, room)
  }

  /** The strict conversion of UTF-8 bytes to at most `room` units of UTF-16. */
  ghost function ToUtf16(source: seq<uint8>, room: nat): (o: Outcome<uint16>)
    ensures o.taken <= |source| && |o.out| <= room
  {
    Next8Proper();
    Convert(Next8, Utf16Of, source, room)
  }

  const FIRST_BYTE_MARK: seq<uint8> := [0x00, 0x00, 0xC0, 0xE0, 0xF0, 0xF8, 0xFC]

  function BytesToWrite(ch: Scalar): (n: nat)
    ensures n == |Utf8Of(ch)|
  {
    if ch < 0x80 then 1 else if ch < 0x800 then 2 else if ch < 0x1_0000 then 3 else 4
  }

  function UnitsToWrite(ch: Scalar): (n: nat)
    ensures n == |Utf16Of(ch)|
  {
    if ch <= 0xFFFF then 1 else 2
  }

  /** What is left of `c` when its `n` lowest digits of weight 64 are gone. */
  function High6(c: nat, n: nat): nat {
    match n
    case 0 => c
    case 1 => c / 0x40
    case 2 => c / 0x1000
    case 3 => c / 0x4_0000
    case _ => 0
  }

  method StoreUtf8(target: array<uint8>, start: nat, c: Scalar)
    requires start + |Utf8Of(c)| <= target.Length
    modifies target
    ensures target[start..start + |Utf8Of(c)|] == Utf8Of(c)
    ensures forall i :: 0 <= i < start || start + |Utf8Of(c)| <= i < target.Length ==> target[i] == old(target[i])
  {
    var bytesToWrite := BytesToWrite(c);
    var ch: nat, t := c, start + bytesToWrite;
    // The falling-through cases 4, 3 and 2 of the original are one loop here, case 1 its last store.
    while t > start + 1
      invariant start < t <= start + bytesToWrite
      invariant ch == High6(c, start + bytesToWrite - t)
      invariant forall k :: t <= k < start + bytesToWrite ==> target[k] == Utf8Of(c)[k - start]
      invariant forall i :: 0 <= i < start || start + bytesToWrite <= i < target.Length ==> target[i] == old(target[i])
    {
      t := t - 1;
      target[t] := 0x80 + ch % 0x40;
      ch := ch / 0x40;
    }
    t := t - 1;
    target[t] := ch + FIRST_BYTE_MARK[bytesToWrite];
    assert target[start] == Utf8Of(c)[0];
    assert forall k :: start <= k < start + bytesToWrite ==> target[k] == Utf8Of(c)[k - start];
    assert target[start..start + bytesToWrite] == Utf8Of(c);
  }

  /** Appends the bytes of `c` to those already in the target from `begin` on. */
  method WriteUtf8(target: array<uint8>, begin: nat, start: nat, c: Scalar)
    requires begin <= start && start + |Utf8Of(c)| <= target.Length
    modifies target
    ensures target[begin..start + |Utf8Of(c)|] == old(target[begin..start]) + Utf8Of(c)
    ensures forall i :: 0 <= i < start || start + |Utf8Of(c)| <= i < target.Length ==> target[i] == old(target[i])
  {
    StoreUtf8(target, start, c);
    assert target[begin..start] == old(target[begin..start]);
    SliceConcat(target[..], begin, start, start + |Utf8Of(c)|, old(target[begin..start]), Utf8Of(c));
  }

  /** Reads one character, or the reason why there is none; a surrogate pair counts as one. */
  method ReadUtf16(source: seq<uint16>, start: nat) returns (head: Head)
    requires start < |source|
    ensures head == Next16(source, start)
  {
    var s := start;
    var ch: nat := source[s];
    s := s + 1;
    if 0xD800 <= ch <= 0xDBFF {
      if s < |source| {
        var ch2: nat := source[s];
        if 0xDC00 <= ch2 <= 0xDFFF {
          ch := (ch - 0xD800) * 0x400 + (ch2 - 0xDC00) + 0x1_0000;
          s := s + 1;
        } else {
          return Stop(SourceIllegal);
        }
      } else {
        return Stop(SourceExhausted);
      }
    } else if 0xDC00 <= ch <= 0xDFFF {
      return Stop(SourceIllegal);
    }
    return Char(ch, s - start);
  }

  method ConvertUtf16ToUtf8(source: seq<uint16>, target: array<uint8>, targetStart: nat, targetEnd: nat)
    returns (result: Result, s: nat, t: nat)
    requires targetStart <= targetEnd <= target.Length
    modifies target
    ensures targetStart <= t <= targetEnd
    ensures Outcome(result, s, target[targetStart..t]) == ToUtf8(source, targetEnd - targetStart)
    ensures forall i :: 0 <= i < targetStart || targetEnd <= i < target.Length ==> target[i] == old(target[i])
  {
    Next16Proper();
    result, s, t := ConversionOk, 0, targetStart;
    ghost var room, out := targetEnd - targetStart, [];
    ghost var goal := ToUtf8(source, room);
    while s < |source|
      invariant s <= |source| && targetStart <= t <= targetEnd
      invariant result == ConversionOk
      invariant target[targetStart..t] == out && Stands(Next16, Utf8Of, source, s, out, room, goal)
      invariant forall i :: 0 <= i < targetStart || targetEnd <= i < target.Length ==> target[i] == old(target[i])
    {
      var head := ReadUtf16(source, s);
      Proceeds(Next16, Utf8Of, source, s, out, room, goal);
      if head.Stop? {
        result := head.why;
        break;
      }
      var ch := head.c;
      var bytesToWrite := BytesToWrite(ch);
      if t + bytesToWrite > targetEnd {
        result := TargetExhausted;
        break;
      }
      WriteUtf8(target, targetStart, t, ch);
      s, t, out := s + head.width, t + bytesToWrite, out + Utf8Of(ch);
    }
  }

  /** Reads one character: length from the lead byte, legality, then the shifting sum less its offset. */
  method ReadUtf8(source: seq<uint8>, start: nat) returns (head: Head)
    requires start < |source|
    ensures head == Next8(source, start)
  {
    var s := start;
    var extraBytesToRead := TrailingBytes(source[s]);
    if s + extraBytesToRead >= |source| {
      return Stop(SourceExhausted);
    }
    if !IsLegalUtf8(source, s, extraBytesToRead + 1) {
      return Stop(SourceIllegal);
    }
    var ch: nat, k := 0, 0;
    while k < extraBytesToRead
      invariant k <= extraBytesToRead && s == start + k
      invariant ch == Shifted(source, start, k) * 0x40
    {
      ch := (ch + source[s]) * 0x40;
      s, k := s + 1, k + 1;
    }
    ch := ch + source[s];
    s := s + 1;
    LegalDecodes(source, start, k + 1);
    return Char(ch - OFFSETS[extraBytesToRead], s - start);
  }

  method WriteUtf16(target: array<uint16>, begin: nat, start: nat, c: Scalar)
    requires begin <= start && start + |Utf16Of(c)| <= target.Length
    modifies target
    ensures target[begin..start + |Utf16Of(c)|] == old(target[begin..start]) + Utf16Of(c)
    ensures forall i :: 0 <= i < start || start + |Utf16Of(c)| <= i < target.Length ==> target[i] == old(target[i])
  {
    if c <= 0xFFFF {
      target[start] := c;
    } else {
      target[start] := (c - 0x1_0000) / 0x400 + 0xD800;
      target[start + 1] := (c - 0x1_0000) % 0x400 + 0xDC00;
    }
    assert target[begin..start] == old(target[begin..start]);
    SliceConcat(target[..], begin, start, start + |Utf16Of(c)|, old(target[begin..start]), Utf16Of(c));
  }

  method ConvertUtf8ToUtf16(source: seq<uint8>, target: array<uint16>, targetStart: nat, targetEnd: nat)
    returns (result: Result, s: nat, t: nat)
    requires targetStart <= targetEnd <= target.Length
    modifies target
    ensures targetStart <= t <= targetEnd
    ensures Outcome(result, s, target[targetStart..t]) == ToUtf16(source, targetEnd - targetStart)
    ensures forall i :: 0 <= i < targetStart || targetEnd <= i < target.Length ==> target[i] == old(target[i])
  {
    Next8Proper();
    result, s, t := ConversionOk, 0, targetStart;
    ghost var room, out := targetEnd - targetStart, [];
    ghost var goal := ToUtf16(source, room);
    while s < |source|
      invariant s <= |source| && targetStart <= t <= targetEnd
      invariant result == ConversionOk
      invariant target[targetStart..t] == out && Stands(Next8, Utf16Of, source, s, out, room, goal)
      invariant forall i :: 0 <= i < targetStart || targetEnd <= i < target.Length ==> target[i] == old(target[i])
    {
      var head := ReadUtf8(source, s);
      Proceeds(Next8, Utf16Of, source, s, out, room, goal);
      if head.Stop? {
        result := head.why;
        break;
      }
      var ch := head.c;
      // A legal sequence never decodes to a surrogate or above 0x10FFFF (LegalDecodes), so the two
      // refusals of the strict mode cannot happen here; the two room tests differ only in the width.
      var unitsToWrite := UnitsToWrite(ch);
      if t + unitsToWrite > targetEnd {
        result := TargetExhausted;
        break;
      }
      WriteUtf16(target, targetStart, t, ch);
      s, t, out := s + head.width, t + unitsToWrite, out + Utf16Of(ch);
    }
  }
}
