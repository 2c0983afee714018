/** What the two strict converters promise together. */
module UtfLaws {
  import opened Machine
  import opened Codepoints
  import opened Conversion
  import opened UtfConverters

  // UTF-16 sources.

  lemma {:induction false} UnitsOfText(cs: seq<Scalar>)
    ensures WellFormedUtf16(Text(Utf16Of, cs))
    ensures |Text(Utf8Of, cs)| <= 3 * |Text(Utf16Of, cs)|
    ensures |Text(Utf16Of, cs)| <= |Text(Utf8Of, cs)|
  {
    if cs != [] {
      UnitsOfText(cs[1..]);
      var s := Text(Utf16Of, cs);
      assert s[|Utf16Of(cs[0])|..] == Text(Utf16Of, cs[1..]);
    }
  }

  /** Well-formed UTF-16 is the image of some characters. */
  lemma {:induction false} CharactersOfUnits(s: seq<uint16>) returns (cs: seq<Scalar>)
    requires WellFormedUtf16(s)
    ensures s == Text(Utf16Of, cs)
    decreases |s|
  {
    if s == [] {
      cs := [];
    } else {
      var c, w := Next16(s, 0).c, Next16(s, 0).width;
      var rest := CharactersOfUnits(s[w..]);
      cs := [c] + rest;
      assert s[..w] == Utf16Of(c);
      assert s == s[..w] + s[w..];
    }
  }

  lemma ConvertCharacters<S(!new), T>(next: Reader<S>, image: Scalar -> seq<S>, emit: Scalar -> seq<T>,
                                      cs: seq<Scalar>, room: nat) returns (k: nat)
    requires Proper(next) && Inverts(next, image)
    ensures k <= |cs|
    ensures Convert(next, emit, Text(image, cs), room)
         == Outcome(if k == |cs| then ConversionOk else TargetExhausted,
                    |Text(image, cs[..k])|, Text(emit, cs[..k]))
    ensures k == |cs| <==> |Text(emit, cs)| <= room
  {
    assert cs[..0] == [];
    k := ConvertText(next, image, emit, cs, 0, room);
    if k < |cs| {
      TextSplit(emit, cs, k + 1);
    } else {
      assert cs[..k] == cs;
    }
  }

  /**
   The bytes written are the section 3 encoding of the characters, up to the last that fits; a target
   of three bytes a unit always suffices.
   */
  lemma Utf8OfCharacters(cs: seq<Scalar>, room: nat)
    ensures var o := ToUtf8(Text(Utf16Of, cs), room);
            if |Text(Utf8Of, cs)| <= room
            then o == Outcome(ConversionOk, |Text(Utf16Of, cs)|, Text(Utf8Of, cs))
            else (o.result == TargetExhausted
                  && exists k :: 0 <= k < |cs| && o.taken == |Text(Utf16Of, cs[..k])| && o.out == Text(Utf8Of, cs[..k]))
    ensures room >= 3 * |Text(Utf16Of, cs)| ==> ToUtf8(Text(Utf16Of, cs), room).result == ConversionOk
  {
    Next16Proper();
    Next16Inverts();
    UnitsOfText(cs);
    var k := ConvertCharacters(Next16, Utf16Of, Utf8Of, cs, room);
    assert k == |cs| ==> cs[..k] == cs;
  }

  lemma Utf16OfCharacters(cs: seq<Scalar>, room: nat)
    ensures var o := ToUtf16(Text(Utf8Of, cs), room);
            if |Text(Utf16Of, cs)| <= room
            then o == Outcome(ConversionOk, |Text(Utf8Of, cs)|, Text(Utf16Of, cs))
            else (o.result == TargetExhausted
                  && exists k :: 0 <= k < |cs| && o.taken == |Text(Utf8Of, cs[..k])| && o.out == Text(Utf16Of, cs[..k]))
  {
    Next8Proper();
    Next8Inverts();
    var k := ConvertCharacters(Next8, Utf8Of, Utf16Of, cs, room);
    assert k == |cs| ==> cs[..k] == cs;
  }

  /** UTF-16 is accepted exactly when it is well formed. */
  lemma AcceptsUtf16(s: seq<uint16>, room: nat)
    requires room >= 3 * |s|
    ensures ToUtf8(s, room).result == ConversionOk <==> WellFormedUtf16(s)
  {
    Next16Proper();
    NeverFull16(s, 0, [], room);
    ReadThrough(Next16, Utf8Of, s, 0, [], room);
    ReadableUnits(s, 0);
    assert s[0..] == s;
  }

  lemma {:induction false} ReadableUnits(s: seq<uint16>, pos: nat)
    requires Proper(Next16) && pos <= |s|
    ensures Readable(Next16, s, pos) <==> WellFormedUtf16(s[pos..])
    decreases |s| - pos
  {
    if pos < |s| {
      var t := s[pos..];
      assert t[1..] == s[pos + 1..];
      assert |t| >= 2 ==> t[2..] == s[pos + 2..];
      if Next16(s, pos).Char? {
        ReadableUnits(s, pos + Next16(s, pos).width);
      }
    }
  }

  /** Out to UTF-8 and back gives the same units, whenever the targets have room. */
  lemma Utf16RoundTrip(s: seq<uint16>, room8: nat, room16: nat)
    requires WellFormedUtf16(s) && room8 >= 3 * |s| && room16 >= |s|
    ensures var o := ToUtf8(s, room8);
            && o.result == ConversionOk && o.taken == |s|
            && ToUtf16(o.out, room16) == Outcome(ConversionOk, |o.out|, s)
  {
    var cs := CharactersOfUnits(s);
    Utf8OfCharacters(cs, room8);
    Utf16OfCharacters(cs, room16);
  }

  /** Whatever is read, and wherever the run stops, no lone surrogate is written. */
  lemma NoLoneSurrogate(s: seq<uint8>, room: nat)
    ensures WellFormedUtf16(ToUtf16(s, room).out)
  {
    Next8Proper();
    var cs := Consumed(Next8, Utf16Of, s, 0, [], room);
    UnitsOfText(cs);
  }

  // UTF-8 sources.

  /** What the legality test asks of the byte after a lead ED or F4 only from above. */
  predicate Marked(s: seq<uint8>, pos: nat) {
    forall i {:trigger s[i]} :: pos <= i && i + 1 < |s| && (s[i] == 0xED || s[i] == 0xF4) ==> s[i + 1] >= 0x80
  }

  lemma CharacterValue(s: seq<uint8>, pos: nat)
    requires pos <= |s| && Next8(s, pos).Char?
    ensures var w := Next8(s, pos).width;
            && 0 < w <= 4 && pos + w <= |s| && IsLegalUtf8(s, pos, w)
            && w == TrailingBytes(s[pos]) + 1 && |Utf16Of(Next8(s, pos).c)| <= w == |Utf8Of(Next8(s, pos).c)|
            && Next8(s, pos).c == Shifted(s, pos, w) - OFFSETS[w - 1]
  {
    ShiftedBytes(s, pos, Next8(s, pos).width);
  }

  lemma {:induction false} NeverFull8(s: seq<uint8>, pos: nat, out: seq<uint16>, room: nat)
    requires Proper(Next8) && pos <= |s| && |out| + |s| - pos <= room
    ensures From(Next8, Utf16Of, s, pos, out, room).result != TargetExhausted
    decreases |s| - pos
  {
    var head := Next8(s, pos);
    if head.Char? {
      CharacterValue(s, pos);
      NeverFull8(s, pos + head.width, out + Utf16Of(head.c), room);
    }
  }

  lemma DigitsOf(a: nat, b: nat, c: nat, d: nat)
    requires b < 0x40 && c < 0x40 && d < 0x40
    ensures var v := ((a * 0x40 + b) * 0x40 + c) * 0x40 + d;
            v / 0x4_0000 == a && v / 0x1000 % 0x40 == b && v / 0x40 % 0x40 == c && v % 0x40 == d
  {
    var v := ((a * 0x40 + b) * 0x40 + c) * 0x40 + d;
    assert v / 0x40 == (a * 0x40 + b) * 0x40 + c;
    assert v / 0x1000 == v / 0x40 / 0x40 == a * 0x40 + b;
    assert v / 0x4_0000 == v / 0x1000 / 0x40;
  }

  lemma PayloadIsImage(t: seq<uint8>, c: Scalar)
    requires 1 <= |t| <= 4 && Utf8Char(t) && Payload(t, 0, |t|) == c
    ensures t == Utf8Of(c)
  {
    if |t| == 2 {
      DigitsOf(0, 0, t[0] - 0xC0, t[1] - 0x80);
    } else if |t| == 3 {
      DigitsOf(0, t[0] - 0xE0, t[1] - 0x80, t[2] - 0x80);
    } else if |t| == 4 {
      DigitsOf(t[0] - 0xF0, t[1] - 0x80, t[2] - 0x80, t[3] - 0x80);
    }
  }

  /** A section 4 character is the image of its value. */
  lemma CharacterIsImage(s: seq<uint8>, pos: nat)
    requires pos <= |s| && Next8(s, pos).Char?
    requires var w := Next8(s, pos).width; pos + w <= |s| && Utf8Char(s[pos..pos + w])
    ensures s[pos..pos + Next8(s, pos).width] == Utf8Of(Next8(s, pos).c)
  {
    CharacterValue(s, pos);
    var w := Next8(s, pos).width;
    var t := s[pos..pos + w];
    assert forall k :: 0 <= k < w ==> t[k] == s[pos + k];
    ShiftedBytes(s, pos, w);
    PayloadIsImage(t, Next8(s, pos).c);
  }

  /** One character read is a section 4 character, and its own image, unless an ED or F4 goes unmarked. */
  lemma CharacterRead(s: seq<uint8>, pos: nat)
    requires pos <= |s| && Next8(s, pos).Char?
    ensures var w := Next8(s, pos).width;
            && 0 < w <= 4 && pos + w <= |s|
            && (Utf8Char(s[pos..pos + w]) <==> (s[pos] == 0xED || s[pos] == 0xF4 ==> s[pos + 1] >= 0x80))
            && (Utf8Char(s[pos..pos + w]) <==> s[pos..pos + w] == Utf8Of(Next8(s, pos).c))
            && (forall i :: pos < i < pos + w ==> s[i] != 0xED && s[i] != 0xF4)
            && (s[pos] == 0xED || s[pos] == 0xF4 ==> w > 1)
  {
    CharacterValue(s, pos);
    var w := Next8(s, pos).width;
    var t := s[pos..pos + w];
    assert forall k :: 0 <= k < w ==> t[k] == s[pos + k];
    if Utf8Char(t) {
      CharacterIsImage(s, pos);
    }
  }

  /** A section 4 character is read, whatever follows. */
  lemma CharacterIsRead(s: seq<uint8>, pos: nat, w: nat)
    requires pos + w <= |s| && Utf8Char(s[pos..pos + w])
    ensures Next8(s, pos).Char? && Next8(s, pos).width == w
  {
    var t := s[pos..pos + w];
    assert forall k :: 0 <= k < w ==> t[k] == s[pos + k];
  }

  lemma WellFormedHead(s: seq<uint8>, pos: nat)
    requires pos < |s|
    ensures WellFormedUtf8(s[pos..]) <==>
            && Next8(s, pos).Char?
            && pos + Next8(s, pos).width <= |s|
            && Utf8Char(s[pos..pos + Next8(s, pos).width])
            && WellFormedUtf8(s[pos + Next8(s, pos).width..])
  {
    var t := s[pos..];
    forall n | 1 <= n <= 4 && n <= |t|
      ensures t[..n] == s[pos..pos + n] && t[n..] == s[pos + n..]
      ensures Utf8Char(t[..n]) ==> Next8(s, pos).Char? && Next8(s, pos).width == n
    {
      if Utf8Char(t[..n]) {
        CharacterIsRead(s, pos, n);
      }
    }
    if Next8(s, pos).Char? {
      CharacterValue(s, pos);
    }
  }

  lemma MarkedStep(s: seq<uint8>, pos: nat)
    requires pos < |s| && Next8(s, pos).Char?
    ensures var w := Next8(s, pos).width;
            && 0 < w && pos + w <= |s|
            && (Marked(s, pos) <==> Utf8Char(s[pos..pos + w]) && Marked(s, pos + w))
            && (Utf8Char(s[pos..pos + w]) <==> s[pos..pos + w] == Utf8Of(Next8(s, pos).c))
  {
    CharacterRead(s, pos);
  }

  lemma {:induction false} SoundFrom(s: seq<uint8>, pos: nat)
    requires Proper(Next8) && pos <= |s|
    ensures WellFormedUtf8(s[pos..]) <==> Readable(Next8, s, pos) && Marked(s, pos)
    decreases |s| - pos
  {
    if pos < |s| {
      WellFormedHead(s, pos);
      if Next8(s, pos).Char? {
        MarkedStep(s, pos);
        SoundFrom(s, pos + Next8(s, pos).width);
      }
    }
  }

  /**
   The converter accepts well-formed UTF-8 and, of the rest, exactly what leaves the byte after an ED
   or F4 below 0x80.
   */
  lemma Utf8Soundness(s: seq<uint8>, room: nat)
    requires room >= |s|
    ensures WellFormedUtf8(s) <==> ToUtf16(s, room).result == ConversionOk && Marked(s, 0)
  {
    Next8Proper();
    NeverFull8(s, 0, [], room);
    ReadThrough(Next8, Utf16Of, s, 0, [], room);
    SoundFrom(s, 0);
    assert s[0..] == s;
  }

  lemma {:induction false} MarkedIsCanonical(s: seq<uint8>, pos: nat)
    requires Proper(Next8) && pos <= |s| && Readable(Next8, s, pos)
    ensures Canonical(Next8, Utf8Of, s, pos) <==> Marked(s, pos)
    decreases |s| - pos
  {
    if pos < |s| {
      MarkedStep(s, pos);
      MarkedIsCanonical(s, pos + Next8(s, pos).width);
    }
  }

  lemma OwnBytes(s: seq<uint8>)
    requires Proper(Next8) && Readable(Next8, s, 0)
    ensures Text(Utf8Of, Characters(Next8, s, 0)) == s <==> Marked(s, 0)
  {
    forall i: nat | i <= |s| && Next8(s, i).Char? ensures |Utf8Of(Next8(s, i).c)| == Next8(s, i).width {
      CharacterValue(s, i);
    }
    ImagesOfCharacters(Next8, Utf8Of, s, 0);
    MarkedIsCanonical(s, 0);
    assert s[0..] == s;
  }

  /** What is accepted is written as the units of the characters read. */
  lemma AcceptedOutput(s: seq<uint8>, room: nat)
    requires Proper(Next8) && room >= |s| && ToUtf16(s, room).result == ConversionOk
    ensures Readable(Next8, s, 0) && ToUtf16(s, room).out == Text(Utf16Of, Characters(Next8, s, 0))
  {
    NeverFull8(s, 0, [], room);
    ReadThrough(Next8, Utf16Of, s, 0, [], room);
    assert [] + Characters(Next8, s, 0) == Characters(Next8, s, 0);
  }

  /** Accepted UTF-8 comes back byte for byte exactly when every byte after an ED or F4 is marked. */
  lemma Utf8RoundTrip(s: seq<uint8>, room16: nat, room8: nat)
    requires room16 >= |s| && ToUtf16(s, room16).result == ConversionOk
    requires room8 >= 3 * |ToUtf16(s, room16).out|
    ensures ToUtf8(ToUtf16(s, room16).out, room8).result == ConversionOk
    ensures ToUtf8(ToUtf16(s, room16).out, room8).out == s <==> Marked(s, 0)
  {
    Next8Proper();
    AcceptedOutput(s, room16);
    OwnBytes(s);
    UnitsOfText(Characters(Next8, s, 0));
    Utf8OfCharacters(Characters(Next8, s, 0), room8);
  }

  /** The unmarked byte does harm: two byte strings for one character, one of them ill formed. */
  lemma UnmarkedByteAccepted()
    ensures ToUtf16([0xED, 0x00, 0x80], 1) == Outcome(ConversionOk, 3, [0xB000])
    ensures ToUtf16([0xEB, 0x80, 0x80], 1) == Outcome(ConversionOk, 3, [0xB000])
    ensures !WellFormedUtf8([0xED, 0x00, 0x80]) && WellFormedUtf8([0xEB, 0x80, 0x80])
  {
    Next8Proper();
    forall s | s == [0xED, 0x00, 0x80] || s == [0xEB, 0x80, 0x80]
      ensures ToUtf16(s, 1) == Outcome(ConversionOk, 3, [0xB000])
    {
      ShiftedBytes(s, 0, 3);
      assert Next8(s, 0) == Char(0xB000, 3);
      assert [] + Utf16Of(0xB000) == [0xB000];
    }
    Utf8Soundness([0xED, 0x00, 0x80], 3);
    assert [0xED, 0x00, 0x80][0] == 0xED;
    assert [0xEB, 0x80, 0x80][..3] == [0xEB, 0x80, 0x80];
  }

  // Where and why a run stops, for both converters.

  /**
   UTF-16 is given up as cut off exactly over a single high surrogate, as illegal exactly over a surrogate
   without its other half, and for want of room exactly over a character whose bytes do not fit.
   */
  lemma Utf16Stops(s: seq<uint16>, room: nat)
    ensures var o := ToUtf8(s, room); var rest := s[o.taken..];
            && (o.result == SourceExhausted <==> |rest| == 1 && High(rest[0]))
            && (o.result == SourceIllegal <==> rest != [] && (Low(rest[0]) || (|rest| > 1 && High(rest[0]) && !Low(rest[1]))))
            && (o.result == TargetExhausted ==> exists c :: Utf16Of(c) <= rest && |o.out| + |Utf8Of(c)| > room)
  {
    Next16Proper();
    WhyItStopped(Next16, Utf8Of, s, 0, [], room);
    var o := ToUtf8(s, room);
    if o.result == TargetExhausted {
      assert Utf16Of(Next16(s, o.taken).c) <= s[o.taken..];
    }
  }

  /** The length a lead byte announces: the bits 110, 1110, 11110, 111110 and 111111 begin two to six bytes, all others one. */
  function Announced(lead: uint8): nat {
    if lead / 0x20 == 6 then 2
    else if lead / 0x10 == 14 then 3
    else if lead / 8 == 30 then 4
    else if lead / 4 == 62 then 5
    else if lead / 4 == 63 then 6
    else 1
  }

  /** A section 4 character, or one that would be but for a byte after ED or F4 that is below 0x80. */
  predicate Accepted(t: seq<uint8>) {
    || Utf8Char(t)
    || (|t| == 3 && t[0] == 0xED && t[1] < 0x80 && Tail(t[2]))
    || (|t| == 4 && t[0] == 0xF4 && t[1] < 0x80 && Tail(t[2]) && Tail(t[3]))
  }

  /**
   UTF-8 is given up as cut off exactly over fewer bytes than the lead announces, as illegal exactly over as
   many that are no accepted character, and for want of room over a character whose units do not fit.
   */
  lemma Utf8Stops(s: seq<uint8>, room: nat)
    ensures var o := ToUtf16(s, room); var rest := s[o.taken..];
            && (o.result == SourceExhausted <==> rest != [] && |rest| < Announced(rest[0]))
            && (o.result == SourceIllegal <==> rest != [] && |rest| >= Announced(rest[0]) && !Accepted(rest[..Announced(rest[0])]))
            && (o.result == TargetExhausted ==> Next8(s, o.taken).Char? && |o.out| + |Utf16Of(Next8(s, o.taken).c)| > room)
  {
    Next8Proper();
    WhyItStopped(Next8, Utf16Of, s, 0, [], room);
    var o := ToUtf16(s, room);
    var rest := s[o.taken..];
    if rest != [] {
      var n := Announced(rest[0]);
      assert n == TrailingBytes(rest[0]) + 1;
      if |rest| >= n {
        assert rest[..n] == s[o.taken..o.taken + n];
      }
    }
  }

  // Resumption, for both converters.

  /** UTF-16 converted into one target after another is the one-shot conversion, and it gets done. */
  lemma Utf16Resumable(s: seq<uint16>, rooms: seq<nat>, large: nat)
    requires |rooms| > |s| && large >= 3 * |s| && forall i :: 0 <= i < |rooms| ==> rooms[i] >= 4
    ensures (Next16Proper(); Runs(Next16, Utf8Of, s, rooms)) == ToUtf8(s, large)
  {
    Next16Proper();
    Next16Laws();
    RunsFinish(Next16, Utf8Of, s, rooms, 4);
    NeverFull16(s, 0, [], large);
    RunsAreOneShot(Next16, Utf8Of, s, rooms, large + |Runs(Next16, Utf8Of, s, rooms).out|);
    MoreRoom(Next16, Utf8Of, s, 0, [], large, large + |Runs(Next16, Utf8Of, s, rooms).out|);
  }

  lemma {:induction false} NeverFull16(s: seq<uint16>, pos: nat, out: seq<uint8>, room: nat)
    requires Proper(Next16) && pos <= |s| && |out| + 3 * (|s| - pos) <= room
    ensures From(Next16, Utf8Of, s, pos, out, room).result != TargetExhausted
    decreases |s| - pos
  {
    var head := Next16(s, pos);
    if head.Char? {
      NeverFull16(s, pos + head.width, out + Utf8Of(head.c), room);
    }
  }

  lemma Utf8Resumable(s: seq<uint8>, rooms: seq<nat>, large: nat)
    requires |rooms| > |s| && large >= |s| && forall i :: 0 <= i < |rooms| ==> rooms[i] >= 2
    ensures (Next8Proper(); Runs(Next8, Utf16Of, s, rooms)) == ToUtf16(s, large)
  {
    Next8Proper();
    Next8Laws();
    RunsFinish(Next8, Utf16Of, s, rooms, 2);
    NeverFull8(s, 0, [], large);
    RunsAreOneShot(Next8, Utf16Of, s, rooms, large + |Runs(Next8, Utf16Of, s, rooms).out|);
    MoreRoom(Next8, Utf16Of, s, 0, [], large, large + |Runs(Next8, Utf16Of, s, rooms).out|);
  }

  /** UTF-16 fed in two pieces, the unread end of the first before the second, converts like the whole. */
  lemma Utf16InPieces(a: seq<uint16>, b: seq<uint16>, room: nat)
    ensures var o := ToUtf8(a, room);
            ToUtf8(a + b, room) ==
            if o.result in {ConversionOk, SourceExhausted}
            then Then(o, ToUtf8(a[o.taken..] + b, room - |o.out|))
            else o
  {
    Next16Proper();
    Next16Laws();
    ResumeSource(Next16, Utf8Of, a, b, room);
  }

  lemma Utf8InPieces(a: seq<uint8>, b: seq<uint8>, room: nat)
    ensures var o := ToUtf16(a, room);
            ToUtf16(a + b, room) ==
            if o.result in {ConversionOk, SourceExhausted}
            then Then(o, ToUtf16(a[o.taken..] + b, room - |o.out|))
            else o
  {
    Next8Proper();
    Next8Laws();
    ResumeSource(Next8, Utf16Of, a, b, room);
  }

  /**
   Whatever stopped a run, the cursor it leaves is between two characters: the part consumed converts
   completely, to exactly what the target holds.
   */
  lemma ConsumedPrefix(u: seq<uint16>, b: seq<uint8>, room: nat)
    ensures var o := ToUtf8(u, room); ToUtf8(u[..o.taken], room) == Outcome(ConversionOk, o.taken, o.out)
    ensures var o := ToUtf16(b, room); ToUtf16(b[..o.taken], room) == Outcome(ConversionOk, o.taken, o.out)
  {
    Next16Proper();
    Next16Laws();
    Next8Proper();
    Next8Laws();
    Next8SelfContained();
    Prefix(Next16, Utf8Of, u, 0, [], room);
    Prefix(Next8, Utf16Of, b, 0, [], room);
  }

  /** After a full target both converters go on from their cursors as if the target had been larger. */
  lemma ResumeAfterFullTarget(u: seq<uint16>, b: seq<uint8>, room: nat, more: nat)
    ensures var o := ToUtf8(u, room);
            o.result == TargetExhausted ==> ToUtf8(u, |o.out| + more) == Then(o, ToUtf8(u[o.taken..], more))
    ensures var o := ToUtf16(b, room);
            o.result == TargetExhausted ==> ToUtf16(b, |o.out| + more) == Then(o, ToUtf16(b[o.taken..], more))
  {
    Next16Proper();
    Next16Laws();
    Next8Proper();
    Next8Laws();
    if ToUtf8(u, room).result == TargetExhausted {
      ResumeTarget(Next16, Utf8Of, u, room, more);
    }
    if ToUtf16(b, room).result == TargetExhausted {
      ResumeTarget(Next8, Utf16Of, b, room, more);
    }
  }

  // The buffer interfaces: byte counts in and out, 0 for any failure.

  method ConvertUcs2ToUtf8(dest: array<uint8>, max: nat, sour: seq<uint16>, len: nat) returns (c: nat)
    requires max <= dest.Length && len / 2 <= |sour|
    modifies dest
    ensures var o := ToUtf8(sour[..len / 2], max);
            if o.result == ConversionOk then c == |o.out| && dest[..c] == o.out else c == 0
    ensures WellFormedUtf16(sour[..len / 2]) && max >= 3 * (len / 2) ==>
              ToUtf16(dest[..c], len / 2) == Outcome(ConversionOk, c, sour[..len / 2])
  {
    var r, s, t := ConvertUtf16ToUtf8(sour[..len / 2], dest, 0, max);
    c := if r == ConversionOk then t else 0;
    if WellFormedUtf16(sour[..len / 2]) && max >= 3 * (len / 2) {
      Utf16RoundTrip(sour[..len / 2], max, len / 2);
    }
  }

  method ConvertUtf8ToUcs2(dest: array<uint16>, max: nat, sour: seq<uint8>, len: nat) returns (c: nat)
    requires max / 2 <= dest.Length && len <= |sour|
    modifies dest
    ensures var o := ToUtf16(sour[..len], max / 2);
            if o.result == ConversionOk then c == 2 * |o.out| && dest[..c / 2] == o.out else c == 0
  {
    var r, s, t := ConvertUtf8ToUtf16(sour[..len], dest, 0, max / 2);
    if r != ConversionOk {
      return 0;
    }
    assert t <= max;  // so the final test against max refuses nothing
    c := t * 2;
  }
}
