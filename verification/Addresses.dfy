/**
 Network addresses as text, d-mon/dstr.cpp: diptostrex, dporttostrex and dipporttostrex print them,
 dstrtoip_fixlen, dstrtoport_fixlen and dstrtoipport_fixlen read them.
 */
module Addresses {
  import opened Machine
  import opened Numerals

  const DOT := 0x2e
  const COLON := 0x3a
  const TAB := 0x09

  /** The text of the address from octet `i` down to octet 0. */
  function From(b: seq<uint8>, i: nat): seq<uint8>
    requires i < |b|
    decreases i, |b|
  {
    if i == 0 then Numeral(b[0]) else Numeral(b[i]) + [DOT] + From(b, i - 1)
  }

  /** The octet of highest value comes first. */
  function Dotted(ip: uint32): seq<uint8> {
    From(Image4(ip), 3)
  }

  function AddressText(ip: uint32, port: uint16): seq<uint8> {
    Dotted(ip) + ([COLON] + Numeral(port))
  }

  lemma OctetLength(v: nat)
    ensures v < 0x100 ==> |Numeral(v)| <= 3
    ensures v < 0x1_0000 ==> |Numeral(v)| <= 5
  {
    assert PowerOfTen(3) == 1000 && PowerOfTen(5) == 100000;
    if v < 0x100 {
      NumeralLength(v, 3);
    } else if v < 0x1_0000 {
      NumeralLength(v, 5);
    }
  }

  // Printing.

  /** The numeral in a buffer of its own. */
  method NumeralText(v: uint16, size: nat) returns (temp: array<uint8>, n: nat)
    requires |Numeral(v)| < size
    ensures fresh(temp) && n == |Numeral(v)| && temp.Length == size && temp[0..0 + n] == Numeral(v)
  {
    OctetLength(v);
    temp := new uint8[size];
    ghost var len;
    n, len := PrintDword(v, temp, 0, 10, 0, 0);
    assert temp[0..0 + len] == Numeral(v);
  }

  /** Writes the numeral at `at` if it and one byte more fit; otherwise writes nothing and gives 0. */
  method PutNumeral(str: array<uint8>, at: nat, room: nat, v: uint16, size: nat) returns (l: nat)
    requires at + room <= str.Length && |Numeral(v)| < size
    modifies str
    ensures l == if |Numeral(v)| + 1 <= room then |Numeral(v)| else 0
    ensures str[..at + l] == old(str[..at]) + if l == 0 then [] else Numeral(v)
    ensures forall k :: at + l <= k < str.Length ==> str[k] == old(str[k])
  {
    var temp, n := NumeralText(v, size);
    if n + 1 > room {
      return 0;
    }
    Copy(str, at, temp, 0, n);
    l := n;
  }

  /** One octet and its dot. */
  method PutOctet(str: array<uint8>, at: nat, room: nat, v: uint8) returns (l: nat)
    requires at + room <= str.Length
    modifies str
    ensures l == if |Numeral(v)| + 1 <= room then |Numeral(v)| + 1 else 0
    ensures str[..at + l] == old(str[..at]) + if l == 0 then [] else Numeral(v) + [DOT]
    ensures forall k :: at + l <= k < str.Length ==> str[k] == old(str[k])
  {
    OctetLength(v);
    l := PutNumeral(str, at, room, v, 4);
    if l != 0 {
      str[at + l] := DOT;
      l := l + 1;
    }
  }

  /** diptostrex from octet `i` on; the source has the four octets in a row. */
  method PutOctets(str: array<uint8>, at: nat, room: nat, b: seq<uint8>, i: nat) returns (l: nat)
    requires at + room <= str.Length && i < |b|
    modifies str
    ensures l == if |From(b, i)| + 1 <= room then |From(b, i)| else 0
    ensures l != 0 ==> str[..at + l] == old(str[..at]) + From(b, i) && str[at + l] == 0
    ensures str[..at] == old(str[..at])
    ensures forall k :: at + room <= k < str.Length ==> str[k] == old(str[k])
    decreases i
  {
    if i == 0 {
      OctetLength(b[0]);
      l := PutNumeral(str, at, room, b[0], 4);
      if l != 0 {
        str[at + l] := 0;
      }
      return;
    }
    ghost var was := str[..at];
    var first := PutOctet(str, at, room, b[i]);
    if first == 0 {
      return 0;
    }
    assert str[..at + first] == was + (Numeral(b[i]) + [DOT]);
    assert str[..at] == was;
    var rest := PutOctets(str, at + first, room - first, b, i - 1);
    assert str[..at] == str[..at + first][..at];
    if rest == 0 {
      return 0;
    }
    l := first + rest;
    assert str[..at + l] == was + (Numeral(b[i]) + [DOT]) + From(b, i - 1);
    ConcatAssociates(was, Numeral(b[i]) + [DOT], From(b, i - 1));
  }

  /** diptostrex: the text and a NUL, if both fit. A NUL is written even where there is no room. */
  method IpToText(str: array<uint8>, maxLen: nat, ip: uint32) returns (r: Option<nat>)
    requires maxLen <= str.Length && 0 < str.Length
    modifies str
    ensures r == if |Dotted(ip)| + 1 <= maxLen then Some(|Dotted(ip)|) else None
    ensures r.Some? ==> str[..r.value] == Dotted(ip) && str[r.value] == 0
    ensures forall k :: 0 < k < str.Length && maxLen <= k ==> str[k] == old(str[k])
  {
    str[0] := 0;
    var l := PutOctets(str, 0, maxLen, Image4(ip), 3);
    r := if l == 0 then None else Some(l);
  }

  /** dporttostrex */
  method PortToText(str: array<uint8>, at: nat, maxLen: nat, port: uint16) returns (r: Option<nat>)
    requires at + maxLen <= str.Length
    modifies str
    ensures r == if |Numeral(port)| + 2 <= maxLen then Some(|Numeral(port)| + 1) else None
    ensures r.Some? ==> str[..at + r.value] == old(str[..at]) + ([COLON] + Numeral(port)) && str[at + r.value] == 0
    ensures forall k :: at + maxLen <= k < str.Length ==> str[k] == old(str[k])
  {
    OctetLength(port);
    var temp, l := NumeralText(port, 6);
    if l + 2 > maxLen {
      return None;
    }
    ghost var was := str[..at];
    str[at] := COLON;
    assert str[..at + 1] == was + [COLON];
    Copy(str, at + 1, temp, 0, l);
    str[at + 1 + l] := 0;
    ConcatAssociates(was, [COLON], Numeral(port));
    r := Some(l + 1);
  }

  /** dipporttostrex: succeeds exactly when the text and its NUL fit. */
  method IpPortToText(str: array<uint8>, maxLen: nat, ip: uint32, port: uint16) returns (r: Option<nat>)
    requires maxLen <= str.Length && 0 < str.Length
    modifies str
    ensures var text := AddressText(ip, port);
            && r == (if |text| + 1 <= maxLen then Some(|text|) else None)
            && (r.Some? ==> str[..|text|] == text && str[|text|] == 0)
    ensures forall k :: 0 < k < str.Length && maxLen <= k ==> str[k] == old(str[k])
  {
    var dl := IpToText(str, maxLen, ip);
    if dl.None? {
      return None;
    }
    var dl2 := PortToText(str, dl.value, maxLen - dl.value, port);
    r := if dl2.None? then None else Some(dl.value + dl2.value);
  }

  // Reading.

  /** A signed char above the space. */
  predicate Visible(c: uint8) {
    0x20 < c < 0x80
  }

  /** The first visible character from `pos` on, or the terminating NUL. */
  function SkipLeading(text: seq<uint8>, pos: nat): (p: nat)
    ensures p >= pos
    decreases |text| - pos
  {
    if At(text, pos) == 0 || Visible(At(text, pos)) then pos else SkipLeading(text, pos + 1)
  }

  function Invisible(text: seq<uint8>, pos: nat, limit: nat): (n: nat)
    ensures n <= limit
    decreases limit
  {
    if limit == 0 || Visible(At(text, pos)) then 0 else 1 + Invisible(text, pos + 1, limit - 1)
  }

  /** What a reader returns: a value, where it stopped, and the length it says it has consumed. */
  datatype Reading = Rejected | Accepted(value: nat, next: nat, len: nat)

  /** dgetbytedecex_fixlen, whose length leaves out what it skips before the digits. */
  function OctetAt(text: seq<uint8>, pos: nat, limit: nat, end: uint8): (r: Reading)
    ensures r.Accepted? ==> 0 < r.len <= limit && r.value < 0x100 && pos + r.len <= r.next
  {
    var p := SkipLeading(text, pos);
    match Decimal(GUARD32, text, p, limit)
    case None => Rejected
    case Some(d) =>
      var n := Invisible(text, p + d.len, limit - d.len);
      if d.value > 255 || (end != 0 && At(text, p + d.len + n) != end) then Rejected
      else Accepted(d.value, p + d.len + n, d.len + n)
  }

  /** An octet and its dot. */
  function DottedAt(text: seq<uint8>, pos: nat, limit: nat): (r: Reading)
    ensures r.Accepted? ==> 0 < r.len <= limit && r.value < 0x100 && pos + r.len <= r.next
  {
    match OctetAt(text, pos, limit, DOT)
    case Rejected => Rejected
    case Accepted(v, next, len) => if len == limit then Rejected else Accepted(v, next + 1, len + 1)
  }

  /** The last octet, or one of the others and its dot. */
  function PartAt(text: seq<uint8>, pos: nat, limit: nat, i: nat): (r: Reading)
    ensures r.Accepted? ==> 0 < r.len <= limit && r.value < 0x100 && pos + r.len <= r.next
  {
    if i == 0 then OctetAt(text, pos, limit, 0) else DottedAt(text, pos, limit)
  }

  /** The octets from `i` down to octet 0, after octets of the value `high` that have consumed `dl`. */
  function OctetsAt(text: seq<uint8>, pos: nat, limit: nat, i: nat, high: nat, dl: nat): (r: Reading)
    ensures r.Accepted? ==> dl <= r.len <= dl + limit && pos <= r.next
    decreases i, |text|
  {
    match PartAt(text, pos, limit, i)
    case Rejected => Rejected
    case Accepted(v, next, len) =>
      if i == 0 then Accepted(0x100 * high + v, next, dl + len)
      else OctetsAt(text, next, limit - len, i - 1, 0x100 * high + v, dl + len)
  }

  /** dstrtoip_fixlen */
  function IpAt(text: seq<uint8>, pos: nat, limit: nat): (r: Reading)
    ensures r.Accepted? ==> r.len <= limit
  {
    OctetsAt(text, pos, limit, 3, 0, 0)
  }

  /** The blanks and tabs from `pos` on, as far as `limit`. */
  function Spaces(text: seq<uint8>, pos: nat, limit: nat): (n: nat)
    ensures n <= limit
    decreases limit
  {
    if limit == 0 || (At(text, pos) != SPACE && At(text, pos) != TAB) then 0 else 1 + Spaces(text, pos + 1, limit - 1)
  }

  /** dstrtoport_fixlen; the blanks do not use up its limit. */
  function PortAt(text: seq<uint8>, pos: nat, limit: nat): Reading {
    if limit == 0 || At(text, pos) != COLON then Rejected
    else
      var n := Spaces(text, pos + 1, limit - 1);
      match Decimal(GUARD32, text, pos + 1 + n, limit - 1)
      case None => Rejected
      case Some(d) => if d.value > 65535 then Rejected else Accepted(d.value, pos + 1 + n + d.len, 1 + n + d.len)
  }

  datatype AddressReading = NoAddress | Address(ip: nat, port: nat, next: nat, len: nat)

  /** dstrtoipport_fixlen */
  function AddressAt(text: seq<uint8>, pos: nat, limit: nat): AddressReading {
    match IpAt(text, pos, limit)
    case Rejected => NoAddress
    case Accepted(ip, next, len) => WithPort(ip, len, PortAt(text, next, limit - len))
  }

  function WithPort(ip: nat, len: nat, r: Reading): AddressReading {
    match r
    case Rejected => NoAddress
    case Accepted(port, next, more) => Address(ip, port, next, len + more)
  }

  // What is printed is read.

  lemma StandsSplit(text: seq<uint8>, pos: nat, a: seq<uint8>, b: seq<uint8>)
    requires Stands(text, pos, a + b)
    ensures Stands(text, pos, a) && Stands(text, pos + |a|, b)
  {
    forall i | 0 <= i < |a| ensures At(text, pos + i) == a[i] {
      assert (a + b)[i] == a[i];
    }
    forall i | 0 <= i < |b| ensures At(text, pos + |a| + i) == b[i] {
      assert (a + b)[|a| + i] == b[i];
    }
  }

  lemma OctetReads(text: seq<uint8>, pos: nat, limit: nat, v: uint8, end: uint8)
    requires Stands(text, pos, Numeral(v)) && |Numeral(v)| <= limit
    requires var c := At(text, pos + |Numeral(v)|);
             if end == 0 then limit == |Numeral(v)| || (Visible(c) && !IsDigit(c)) else c == end && Visible(c) && !IsDigit(c)
    ensures OctetAt(text, pos, limit, end) == Accepted(v, pos + |Numeral(v)|, |Numeral(v)|)
  {
    NumeralIsDigits(v);
    assert At(text, pos + 0) == Numeral(v)[0];
    NumeralReads(GUARD32, text, pos, v, limit);
  }

  lemma DottedReads(text: seq<uint8>, pos: nat, limit: nat, v: uint8)
    requires Stands(text, pos, Numeral(v) + [DOT]) && |Numeral(v)| + 1 <= limit
    ensures DottedAt(text, pos, limit) == Accepted(v, pos + |Numeral(v)| + 1, |Numeral(v)| + 1)
  {
    StandsSplit(text, pos, Numeral(v), [DOT]);
    assert At(text, pos + |Numeral(v)| + 0) == [DOT][0];
    OctetReads(text, pos, limit, v, DOT);
  }

  function Weigh(b: seq<uint8>, i: nat, high: nat): nat
    requires i < |b|
    decreases i, |b|
  {
    if i == 0 then 0x100 * high + b[0] else Weigh(b, i - 1, 0x100 * high + b[i])
  }

  /** The octets of `b` from `i` down are read one by one, up to `end`, with nothing skipped. */
  predicate Reads(text: seq<uint8>, pos: nat, limit: nat, b: seq<uint8>, i: nat, end: nat)
    requires i < |b|
    decreases i, |b|
  {
    var r := PartAt(text, pos, limit, i);
    && r.Accepted? && r.value == b[i] && r.next == pos + r.len
    && if i == 0 then r.next == end else Reads(text, r.next, limit - r.len, b, i - 1, end)
  }

  /** The octets from `i` down stand at `pos`, and what is left of the limit, or a colon, ends them. */
  ghost predicate Ready(text: seq<uint8>, pos: nat, limit: nat, b: seq<uint8>, i: nat, end: nat) {
    && i < |b| && Stands(text, pos, From(b, i)) && pos + |From(b, i)| == end <= pos + limit
    && (end == pos + limit || At(text, end) == COLON)
  }

  lemma FirstReads(text: seq<uint8>, pos: nat, limit: nat, b: seq<uint8>, i: nat, end: nat) returns (n: nat)
    requires i > 0 && Ready(text, pos, limit, b, i, end)
    ensures n <= limit && Ready(text, pos + n, limit - n, b, i - 1, end)
    ensures PartAt(text, pos, limit, i) == Accepted(b[i], pos + n, n)
  {
    var first := Numeral(b[i]) + [DOT];
    StandsSplit(text, pos, first, From(b, i - 1));
    DottedReads(text, pos, limit, b[i]);
    n := |first|;
  }

  lemma {:induction false} OctetsRead(text: seq<uint8>, pos: nat, limit: nat, b: seq<uint8>, i: nat, end: nat)
    requires Ready(text, pos, limit, b, i, end)
    ensures Reads(text, pos, limit, b, i, end)
    decreases i
  {
    if i == 0 {
      OctetReads(text, pos, limit, b[0], 0);
    } else {
      var n := FirstReads(text, pos, limit, b, i, end);
      OctetsRead(text, pos + n, limit - n, b, i - 1, end);
      ReadsMore(text, pos, limit, b, i, end, n);
    }
  }

  lemma ReadsMore(text: seq<uint8>, pos: nat, limit: nat, b: seq<uint8>, i: nat, end: nat, n: nat)
    requires 0 < i < |b| && n <= limit && PartAt(text, pos, limit, i) == Accepted(b[i], pos + n, n)
    requires Reads(text, pos + n, limit - n, b, i - 1, end)
    ensures Reads(text, pos, limit, b, i, end)
  {
  }

  lemma {:induction false} ReadsGive(text: seq<uint8>, pos: nat, limit: nat, b: seq<uint8>, i: nat, high: nat, dl: nat, end: nat)
    requires i < |b| && Reads(text, pos, limit, b, i, end)
    ensures pos <= end && OctetsAt(text, pos, limit, i, high, dl) == Accepted(Weigh(b, i, high), end, dl + end - pos)
    decreases i
  {
    if i > 0 {
      var r, next := PartAt(text, pos, limit, i), 0x100 * high + b[i];
      ReadsGive(text, r.next, limit - r.len, b, i - 1, next, dl + r.len, end);
    }
  }

  lemma WeighIsValue(b: seq<uint8>)
    requires |b| == 4
    ensures Weigh(b, 3, 0) == Value4(b)
  {
    var h3: nat := b[3];
    var h2: nat := 0x100 * h3 + b[2];
    var h1: nat := 0x100 * h2 + b[1];
    assert Weigh(b, 3, 0) == Weigh(b, 2, h3) == Weigh(b, 1, h2) == Weigh(b, 0, h1);
  }

  lemma IpReads(text: seq<uint8>, pos: nat, limit: nat, ip: uint32)
    requires Stands(text, pos, Dotted(ip)) && |Dotted(ip)| <= limit
    requires limit == |Dotted(ip)| || At(text, pos + |Dotted(ip)|) == COLON
    ensures IpAt(text, pos, limit) == Accepted(ip, pos + |Dotted(ip)|, |Dotted(ip)|)
  {
    var b := Image4(ip);
    OctetsRead(text, pos, limit, b, 3, pos + |Dotted(ip)|);
    ReadsGive(text, pos, limit, b, 3, 0, 0, pos + |Dotted(ip)|);
    Image4Inverts(ip, []);
    WeighIsValue(b);
  }

  lemma PortReads(text: seq<uint8>, pos: nat, limit: nat, port: uint16)
    requires Stands(text, pos, [COLON] + Numeral(port)) && |Numeral(port)| + 1 <= limit
    requires limit == |Numeral(port)| + 1 || !IsDigit(At(text, pos + 1 + |Numeral(port)|))
    ensures PortAt(text, pos, limit) == Accepted(port, pos + 1 + |Numeral(port)|, 1 + |Numeral(port)|)
  {
    StandsSplit(text, pos, [COLON], Numeral(port));
    assert At(text, pos + 0) == [COLON][0];
    NumeralIsDigits(port);
    assert At(text, pos + 1 + 0) == Numeral(port)[0];
    NumeralReads(GUARD32, text, pos + 1, port, limit - 1);
  }

  lemma PartsStand(text: seq<uint8>, pos: nat, ip: uint32, port: uint16) returns (a: nat, m: nat)
    requires Stands(text, pos, AddressText(ip, port))
    ensures a == |Dotted(ip)| && m == |Numeral(port)| && |AddressText(ip, port)| == a + 1 + m
    ensures Stands(text, pos, Dotted(ip)) && Stands(text, pos + a, [COLON] + Numeral(port))
    ensures At(text, pos + a) == COLON
  {
    a, m := |Dotted(ip)|, |Numeral(port)|;
    StandsSplit(text, pos, Dotted(ip), [COLON] + Numeral(port));
    assert At(text, pos + a + 0) == ([COLON] + Numeral(port))[0];
  }

  /**
   For every address and port, the text that is printed reads back as the same address and port, wholly
   consumed, whatever follows it that is not a digit within the length allowed.
   */
  lemma AddressRoundTrip(text: seq<uint8>, pos: nat, limit: nat, ip: uint32, port: uint16)
    requires Stands(text, pos, AddressText(ip, port)) && |AddressText(ip, port)| <= limit
    requires limit == |AddressText(ip, port)| || !IsDigit(At(text, pos + |AddressText(ip, port)|))
    ensures var n := |AddressText(ip, port)|; AddressAt(text, pos, limit) == Address(ip, port, pos + n, n)
  {
    var a, m := PartsStand(text, pos, ip, port);
    IpReads(text, pos, limit, ip);
    PortReads(text, pos + a, limit - a, port);
  }

  // What the reader accepts beyond that.

  /** An octet is accepted as what is written if and only if no beginning of its digits wraps. */
  lemma OctetExactIff(text: seq<uint8>, pos: nat, limit: nat, end: uint8)
    requires OctetAt(text, pos, limit, end).Accepted?
    ensures var p := SkipLeading(text, pos); var n := Digits(text, p, limit);
            OctetAt(text, pos, limit, end).value == Value(text, p, n) <==> !Wraps(GUARD32, text, p, n)
  {
    var p := SkipLeading(text, pos);
    ExactIff(GUARD32, text, p, Digits(text, p, limit));
  }

  /** The length an octet reports is how far the reader moved if and only if nothing was skipped before it. */
  lemma OctetConsumedIff(text: seq<uint8>, pos: nat, limit: nat, end: uint8)
    requires OctetAt(text, pos, limit, end).Accepted?
    ensures var r := OctetAt(text, pos, limit, end); r.next == pos + r.len <==> IsDigit(At(text, pos))
  {
  }

  /** The octets from `i` down are accepted one by one, up to `end`, report `len` in all, and make `ip` of `high`. */
  predicate AllRead(text: seq<uint8>, pos: nat, limit: nat, i: nat, high: nat, end: nat, len: nat, ip: nat)
    decreases i, |text|
  {
    var o := PartAt(text, pos, limit, i);
    && o.Accepted? && o.len <= len
    && if i == 0 then end == o.next && len == o.len && ip == 0x100 * high + o.value
       else AllRead(text, o.next, limit - o.len, i - 1, 0x100 * high + o.value, end, len - o.len, ip)
  }

  lemma {:induction false} AcceptedIsAllRead(text: seq<uint8>, pos: nat, limit: nat, i: nat, high: nat, dl: nat)
    requires OctetsAt(text, pos, limit, i, high, dl).Accepted?
    ensures var r := OctetsAt(text, pos, limit, i, high, dl); AllRead(text, pos, limit, i, high, r.next, r.len - dl, r.value)
    decreases i
  {
    if i > 0 {
      var o := PartAt(text, pos, limit, i);
      AcceptedIsAllRead(text, o.next, limit - o.len, i - 1, 0x100 * high + o.value, dl + o.len);
    }
  }

  // The form of what the reader accepts.

  /** A control character, a space, or no ASCII. */
  predicate Unseen(c: uint8) {
    c <= 0x20 || c >= 0x80
  }

  ghost predicate Skippable(text: seq<uint8>, a: nat, b: nat) {
    a <= b && forall k :: a <= k < b ==> At(text, k) != 0 && Unseen(At(text, k))
  }

  ghost predicate AllInvisible(text: seq<uint8>, a: nat, b: nat) {
    forall k :: a <= k < b ==> Unseen(At(text, k))
  }

  /** A longest run of `n` digits, `n` no more than `limit`. */
  ghost predicate DigitRun(text: seq<uint8>, p: nat, n: nat, limit: nat) {
    && 0 < n <= limit && (forall k :: p <= k < p + n ==> IsDigit(At(text, k)))
    && (n == limit || !IsDigit(At(text, p + n)))
  }

  /** What may be skipped, digits from `p` on, and `m` bytes that cannot be seen. */
  ghost predicate OctetForm(text: seq<uint8>, pos: nat, limit: nat, p: nat, n: nat, m: nat) {
    && Skippable(text, pos, p) && DigitRun(text, p, n, limit) && n + m <= limit
    && AllInvisible(text, p + n, p + n + m) && (n + m == limit || !Unseen(At(text, p + n + m)))
  }

  lemma {:induction false} SkipsTo(text: seq<uint8>, pos: nat, p: nat)
    requires Skippable(text, pos, p) && (At(text, p) == 0 || Visible(At(text, p)))
    ensures SkipLeading(text, pos) == p
    decreases p - pos
  {
    if pos < p {
      SkipsTo(text, pos + 1, p);
    }
  }

  lemma {:induction false} SkipLeadingSkips(text: seq<uint8>, pos: nat)
    ensures Skippable(text, pos, SkipLeading(text, pos))
    decreases |text| - pos
  {
    if At(text, pos) != 0 && !Visible(At(text, pos)) {
      SkipLeadingSkips(text, pos + 1);
    }
  }

  lemma {:induction false} InvisibleIs(text: seq<uint8>, pos: nat, m: nat, limit: nat)
    requires m <= limit && AllInvisible(text, pos, pos + m) && (m == limit || Visible(At(text, pos + m)))
    ensures Invisible(text, pos, limit) == m
    decreases m
  {
    if m > 0 {
      InvisibleIs(text, pos + 1, m - 1, limit - 1);
    }
  }

  lemma {:induction false} InvisibleRun(text: seq<uint8>, pos: nat, limit: nat)
    ensures var m := Invisible(text, pos, limit); AllInvisible(text, pos, pos + m) && (m == limit || Visible(At(text, pos + m)))
    decreases limit
  {
    if limit > 0 && !Visible(At(text, pos)) {
      InvisibleRun(text, pos + 1, limit - 1);
    }
  }

  lemma {:induction false} DigitsRun(text: seq<uint8>, pos: nat, limit: nat)
    ensures var n := Digits(text, pos, limit); n > 0 ==> DigitRun(text, pos, n, limit)
    decreases limit
  {
    if limit > 0 && IsDigit(At(text, pos)) {
      DigitsRun(text, pos + 1, limit - 1);
    }
  }

  /** An accepted octet has that form, the end it was asked for, and the value of its digits modulo 2^32. */
  lemma OctetHasForm(text: seq<uint8>, pos: nat, limit: nat, end: uint8) returns (p: nat, n: nat, m: nat)
    requires OctetAt(text, pos, limit, end).Accepted?
    ensures OctetForm(text, pos, limit, p, n, m)
    ensures var r := OctetAt(text, pos, limit, end);
            && r.next == p + n + m && r.len == n + m && (end == 0 || At(text, r.next) == end)
            && r.value == Value(text, p, n) % TWO_TO_THE_32 <= 255
  {
    p := SkipLeading(text, pos);
    n := Digits(text, p, limit);
    m := Invisible(text, p + n, limit - n);
    SkipLeadingSkips(text, pos);
    DigitsRun(text, p, limit);
    InvisibleRun(text, p + n, limit - n);
    AcceptedIsCongruent(GUARD32, text, p, n);
  }

  /** Everything of that form with a value of up to 255 and the end asked for is accepted as it is. */
  lemma OctetOfForm(text: seq<uint8>, pos: nat, limit: nat, end: uint8, p: nat, n: nat, m: nat)
    requires OctetForm(text, pos, limit, p, n, m) && Value(text, p, n) <= 255
    ensures OctetAt(text, pos, limit, end) ==
            if end == 0 || At(text, p + n + m) == end then Accepted(Value(text, p, n), p + n + m, n + m) else Rejected
  {
    SkipsTo(text, pos, p);
    DigitsAre(text, p, n, limit);
    InvisibleIs(text, p + n, m, limit - n);
    SmallIsExact(GUARD32, text, p, n);
  }

  /** A colon, `n` blanks or tabs and a longest run of digits. */
  ghost predicate PortForm(text: seq<uint8>, pos: nat, limit: nat, n: nat, m: nat) {
    && At(text, pos) == 0x3a && n < limit
    && (forall k :: pos + 1 <= k < pos + 1 + n ==> At(text, k) == 0x20 || At(text, k) == 0x09)
    && DigitRun(text, pos + 1 + n, m, limit - 1)
  }

  lemma {:induction false} SpacesRun(text: seq<uint8>, pos: nat, limit: nat)
    ensures forall k :: pos <= k < pos + Spaces(text, pos, limit) ==> At(text, k) == SPACE || At(text, k) == TAB
    decreases limit
  {
    if limit > 0 && (At(text, pos) == SPACE || At(text, pos) == TAB) {
      SpacesRun(text, pos + 1, limit - 1);
    }
  }

  lemma {:induction false} SpacesAre(text: seq<uint8>, pos: nat, n: nat, limit: nat)
    requires n <= limit && (forall k :: pos <= k < pos + n ==> At(text, k) == SPACE || At(text, k) == TAB) && IsDigit(At(text, pos + n))
    ensures Spaces(text, pos, limit) == n
    decreases n
  {
    if n > 0 {
      SpacesAre(text, pos + 1, n - 1, limit - 1);
    }
  }

  /** An accepted port has that form and the value of its digits modulo 2^32, which is a port. */
  lemma PortHasForm(text: seq<uint8>, pos: nat, limit: nat) returns (n: nat, m: nat)
    requires PortAt(text, pos, limit).Accepted?
    ensures PortForm(text, pos, limit, n, m)
    ensures var r := PortAt(text, pos, limit);
            r.next == pos + 1 + n + m && r.len == 1 + n + m && r.value == Value(text, pos + 1 + n, m) % TWO_TO_THE_32 <= 65535
  {
    n := Spaces(text, pos + 1, limit - 1);
    m := Digits(text, pos + 1 + n, limit - 1);
    SpacesRun(text, pos + 1, limit - 1);
    DigitsRun(text, pos + 1 + n, limit - 1);
    AcceptedIsCongruent(GUARD32, text, pos + 1 + n, m);
  }

  /** Everything of that form with a value of up to 65535 is accepted as it is. */
  lemma PortOfForm(text: seq<uint8>, pos: nat, limit: nat, n: nat, m: nat)
    requires PortForm(text, pos, limit, n, m) && Value(text, pos + 1 + n, m) <= 65535
    ensures PortAt(text, pos, limit) == Accepted(Value(text, pos + 1 + n, m), pos + 1 + n + m, 1 + n + m)
  {
    SpacesAre(text, pos + 1, n, limit - 1);
    DigitsAre(text, pos + 1 + n, m, limit - 1);
    SmallIsExact(GUARD32, text, pos + 1 + n, m);
  }

  /** The place of an octet's digits, their number, where the next visible character is, and the value. */
  datatype Octet = Octet(start: nat, digits: nat, end: nat, value: nat)

  /** Digits of that value, from `start` on, and nothing to be seen from there to the end. */
  ghost predicate Spells(text: seq<uint8>, o: Octet) {
    && 0 < o.digits && o.start + o.digits <= o.end
    && (forall k :: o.start <= k < o.start + o.digits ==> IsDigit(At(text, k)))
    && AllInvisible(text, o.start + o.digits, o.end)
    && o.value == Value(text, o.start, o.digits) % TWO_TO_THE_32 <= 255
  }

  /** The octets from index `k` on follow each other from `pos` on, a dot after each but the last, which ends at `end`. */
  ghost predicate Row(text: seq<uint8>, pos: nat, os: seq<Octet>, k: nat, end: nat)
    requires k < |os|
    decreases |os| - k
  {
    && Skippable(text, pos, os[k].start) && Spells(text, os[k])
    && if k == |os| - 1 then os[k].end == end else At(text, os[k].end) == 0x2e && Row(text, os[k].end + 1, os, k + 1, end)
  }

  lemma {:induction false} RowCons(text: seq<uint8>, pos: nat, o: Octet, os: seq<Octet>, k: nat, end: nat)
    requires k < |os| && Row(text, pos, os, k, end)
    ensures Row(text, pos, [o] + os, k + 1, end)
    decreases |os| - k
  {
    if k < |os| - 1 {
      RowCons(text, os[k].end + 1, o, os, k + 1, end);
    }
  }

  /** The value of the octets from index `k` on after octets of value `high`. */
  function Joined(os: seq<Octet>, k: nat, high: nat): nat
    requires k <= |os|
    decreases |os| - k
  {
    if k == |os| then high else Joined(os, k + 1, 0x100 * high + os[k].value)
  }

  lemma {:induction false} JoinedCons(o: Octet, os: seq<Octet>, k: nat, high: nat)
    requires k <= |os|
    ensures Joined([o] + os, k + 1, high) == Joined(os, k, high)
    decreases |os| - k
  {
    if k < |os| {
      JoinedCons(o, os, k + 1, 0x100 * high + os[k].value);
    }
  }

  lemma PartHasForm(text: seq<uint8>, pos: nat, limit: nat, i: nat) returns (o: Octet)
    requires PartAt(text, pos, limit, i).Accepted?
    ensures var r := PartAt(text, pos, limit, i);
            && Skippable(text, pos, o.start) && Spells(text, o) && o.value == r.value
            && (if i == 0 then o.end == r.next else At(text, o.end) == DOT && o.end + 1 == r.next)
  {
    var p, n, m := OctetHasForm(text, pos, limit, if i == 0 then 0 else DOT);
    o := Octet(p, n, p + n + m, Value(text, p, n) % TWO_TO_THE_32);
  }

  lemma RowBegins(text: seq<uint8>, pos: nat, o: Octet, os: seq<Octet>, end: nat, high: nat)
    requires Skippable(text, pos, o.start) && Spells(text, o) && At(text, o.end) == DOT
    requires os != [] && Row(text, o.end + 1, os, 0, end)
    ensures Row(text, pos, [o] + os, 0, end) && Joined([o] + os, 0, high) == Joined(os, 0, 0x100 * high + o.value)
  {
    RowCons(text, o.end + 1, o, os, 0, end);
    JoinedCons(o, os, 0, 0x100 * high + o.value);
  }

  lemma {:induction false} OctetsHaveForm(text: seq<uint8>, pos: nat, limit: nat, i: nat, high: nat, end: nat, len: nat, ip: nat)
    returns (os: seq<Octet>)
    requires AllRead(text, pos, limit, i, high, end, len, ip)
    ensures |os| == i + 1 && Row(text, pos, os, 0, end) && ip == Joined(os, 0, high)
    decreases i
  {
    var o := PartHasForm(text, pos, limit, i);
    if i == 0 {
      os := [o];
      assert Joined(os, 0, high) == Joined(os, 1, 0x100 * high + o.value);
    } else {
      var r := PartAt(text, pos, limit, i);
      var rest := OctetsHaveForm(text, r.next, limit - r.len, i - 1, 0x100 * high + r.value, end, len - r.len, ip);
      RowBegins(text, pos, o, rest, end, high);
      os := [o] + rest;
    }
  }

  /**
   What is accepted as an address has the form of one: four octets in a row, with dots, what may be skipped
   before them and nothing to be seen after them, then the colon and the port.
   */
  lemma AcceptedIsAddress(text: seq<uint8>, pos: nat, limit: nat) returns (os: seq<Octet>, end: nat, n: nat, m: nat)
    requires AddressAt(text, pos, limit).Address?
    ensures var r := AddressAt(text, pos, limit);
            && |os| == 4 && Row(text, pos, os, 0, end)
            && r.ip == ((os[0].value * 0x100 + os[1].value) * 0x100 + os[2].value) * 0x100 + os[3].value < TWO_TO_THE_32
            && n < limit && PortForm(text, end, limit - IpAt(text, pos, limit).len, n, m)
            && r.port == Value(text, end + 1 + n, m) % TWO_TO_THE_32 <= 65535 && r.next == end + 1 + n + m
  {
    var a := IpAt(text, pos, limit);
    os := IpHasForm(text, pos, limit);
    end := a.next;
    n, m := PortHasForm(text, end, limit - a.len);
  }

  lemma IpHasForm(text: seq<uint8>, pos: nat, limit: nat) returns (os: seq<Octet>)
    requires IpAt(text, pos, limit).Accepted?
    ensures var a := IpAt(text, pos, limit);
            && |os| == 4 && Row(text, pos, os, 0, a.next)
            && a.value == ((os[0].value * 0x100 + os[1].value) * 0x100 + os[2].value) * 0x100 + os[3].value < TWO_TO_THE_32
  {
    var a := IpAt(text, pos, limit);
    AcceptedIsAllRead(text, pos, limit, 3, 0, 0);
    os := OctetsHaveForm(text, pos, limit, 3, 0, a.next, a.len, a.value);
    RowValues(text, pos, os, a.next);
  }

  lemma RowValues(text: seq<uint8>, pos: nat, os: seq<Octet>, end: nat)
    requires |os| == 4 && Row(text, pos, os, 0, end)
    ensures Joined(os, 0, 0) == ((os[0].value * 0x100 + os[1].value) * 0x100 + os[2].value) * 0x100 + os[3].value < TWO_TO_THE_32
  {
    var a, b, c, d := os[0].value, os[1].value, os[2].value, os[3].value;
    assert Row(text, os[0].end + 1, os, 1, end);
    assert Row(text, os[1].end + 1, os, 2, end);
    assert Row(text, os[2].end + 1, os, 3, end);
    assert Spells(text, os[0]) && Spells(text, os[1]) && Spells(text, os[2]) && Spells(text, os[3]);
    var ab: nat := 0x100 * a + b;
    var abc: nat := 0x100 * ab + c;
    assert Joined(os, 3, abc) == Joined(os, 4, 0x100 * abc + d) == 0x100 * abc + d;
    assert Joined(os, 0, 0) == Joined(os, 1, a) == Joined(os, 2, ab) == Joined(os, 3, abc);
  }

  // How far the reader looks.

  /** The bytes skipped before the octets from `i` down, which no length counts. */
  function Skipped(text: seq<uint8>, pos: nat, limit: nat, i: nat): nat
    decreases i, |text|
  {
    var o, first := PartAt(text, pos, limit, i), SkipLeading(text, pos) - pos;
    if i == 0 || o.Rejected? then first else first + Skipped(text, o.next, limit - o.len, i - 1)
  }

  /** Each of the octets from `i` down begins with a digit where its reader stands. */
  predicate NothingSkipped(text: seq<uint8>, pos: nat, limit: nat, i: nat)
    decreases i, |text|
  {
    var o := PartAt(text, pos, limit, i);
    IsDigit(At(text, pos)) && (i == 0 || o.Rejected? || NothingSkipped(text, o.next, limit - o.len, i - 1))
  }

  /** The blanks and digits after the colon, as far as the port's reader looks. */
  function PortReach(text: seq<uint8>, pos: nat, limit: nat): nat
    requires limit > 0
  {
    var n := Spaces(text, pos + 1, limit - 1);
    n + Digits(text, pos + 1 + n, limit - 1)
  }

  lemma {:induction false} OctetsMove(text: seq<uint8>, pos: nat, limit: nat, i: nat, high: nat, end: nat, len: nat, ip: nat)
    requires AllRead(text, pos, limit, i, high, end, len, ip)
    ensures end == pos + len + Skipped(text, pos, limit, i)
    decreases i
  {
    if i > 0 {
      var o := PartAt(text, pos, limit, i);
      OctetsMove(text, o.next, limit - o.len, i - 1, 0x100 * high + o.value, end, len - o.len, ip);
    }
  }

  lemma {:induction false} SkippedNothing(text: seq<uint8>, pos: nat, limit: nat, i: nat, high: nat, end: nat, len: nat, ip: nat)
    requires AllRead(text, pos, limit, i, high, end, len, ip)
    ensures Skipped(text, pos, limit, i) == 0 <==> NothingSkipped(text, pos, limit, i)
    decreases i
  {
    if i > 0 {
      var o := PartAt(text, pos, limit, i);
      SkippedNothing(text, o.next, limit - o.len, i - 1, 0x100 * high + o.value, end, len - o.len, ip);
    }
  }

  /** The four octets move the reader as far as their length says and what they skipped. */
  lemma IpMoves(text: seq<uint8>, pos: nat, limit: nat)
    requires IpAt(text, pos, limit).Accepted?
    ensures var r := IpAt(text, pos, limit); r.next == pos + r.len + Skipped(text, pos, limit, 3)
    ensures Skipped(text, pos, limit, 3) == 0 <==> NothingSkipped(text, pos, limit, 3)
  {
    var r := IpAt(text, pos, limit);
    AcceptedIsAllRead(text, pos, limit, 3, 0, 0);
    OctetsMove(text, pos, limit, 3, 0, r.next, r.len, r.value);
    SkippedNothing(text, pos, limit, 3, 0, r.next, r.len, r.value);
  }

  /** The length of an accepted address is how far the reader moved if and only if nothing was skipped before an octet. */
  lemma AddressConsumedIff(text: seq<uint8>, pos: nat, limit: nat)
    requires AddressAt(text, pos, limit).Address?
    ensures var r := AddressAt(text, pos, limit); r.next == pos + r.len <==> NothingSkipped(text, pos, limit, 3)
  {
    var a := IpAt(text, pos, limit);
    IpMoves(text, pos, limit);
  }

  /**
   An accepted address is read within its limit if and only if what was skipped, and the blanks and digits after
   the colon, are fewer than the octets left of the limit; its length is within the limit if and only if those
   after the colon are.
   */
  lemma AddressWithinIff(text: seq<uint8>, pos: nat, limit: nat)
    requires AddressAt(text, pos, limit).Address?
    ensures var r, a := AddressAt(text, pos, limit), IpAt(text, pos, limit);
            && a.Accepted? && a.len < limit
            && var left := limit - a.len; var reach := PortReach(text, a.next, left);
               && (r.next <= pos + limit <==> Skipped(text, pos, limit, 3) + reach < left)
               && (r.len <= limit <==> reach < left)
  {
    var a := IpAt(text, pos, limit);
    IpMoves(text, pos, limit);
  }

  lemma LeadingBlank(text: seq<uint8>, pos: nat, limit: nat)
    requires At(text, pos) == SPACE
    ensures AddressAt(text, pos, limit) == AddressAt(text, pos + 1, limit)
  {
    assert SkipLeading(text, pos) == SkipLeading(text, pos + 1);
    assert OctetAt(text, pos, limit, DOT) == OctetAt(text, pos + 1, limit, DOT);
    assert IpAt(text, pos, limit) == IpAt(text, pos + 1, limit);
  }

  /** A blank before any address takes the reader one byte past its limit, and the length does not tell. */
  lemma BlankReadsPast(text: seq<uint8>, pos: nat, ip: uint32, port: uint16)
    requires At(text, pos) == SPACE && Stands(text, pos + 1, AddressText(ip, port))
    ensures var n := |AddressText(ip, port)|; AddressAt(text, pos, n) == Address(ip, port, pos + n + 1, n)
  {
    LeadingBlank(text, pos, |AddressText(ip, port)|);
    AddressRoundTrip(text, pos + 1, |AddressText(ip, port)|, ip, port);
  }

  /** Blanks after the colon take it past its limit too, and there the length says so. */
  lemma PortReadsPast()
    ensures PortAt([COLON, SPACE, SPACE, 0x35], 0, 3) == Accepted(5, 4, 4)
  {
    var text := [COLON, SPACE, SPACE, 0x35];
    assert Spaces(text, 3, 0) == 0;
    assert Spaces(text, 1, 2) == 2;
    assert Numeral(5) == [0x35];
    NumeralReads(GUARD32, text, 3, 5, 2);
  }

  // The readers.

  method ParseOctet(text: seq<uint8>, pos: nat, strLen: nat, end: uint8) returns (r: Reading)
    ensures r == OctetAt(text, pos, strLen, end)
  {
    var p := pos;
    while At(text, p) != 0 && !Visible(At(text, p))
      invariant p >= pos && SkipLeading(text, p) == SkipLeading(text, pos)
      decreases |text| - p
    {
      p := p + 1;
    }
    if !IsDigit(At(text, p)) {
      return Rejected;
    }
    var d := GetDecimal(GUARD32, text, p, strLen);
    if d.None? || d.value.value > 255 {
      return Rejected;
    }
    var v, q, n := d.value.value, p + d.value.len, 0;
    var limit := strLen - d.value.len;
    while n < limit && !Visible(At(text, q + n))
      invariant n <= limit && Invisible(text, q, limit) == n + Invisible(text, q + n, limit - n)
    {
      n := n + 1;
    }
    if end != 0 && At(text, q + n) != end {
      return Rejected;
    }
    r := Accepted(v, q + n, d.value.len + n);
  }

  /** One turn of the macro and, but for the last, the step over the dot. */
  method ParsePart(text: seq<uint8>, pos: nat, strLen: nat, i: nat) returns (r: Reading)
    ensures r == PartAt(text, pos, strLen, i)
  {
    r := ParseOctet(text, pos, strLen, if i == 0 then 0 else DOT);
    if i > 0 && r.Accepted? {
      r := if r.len == strLen then Rejected else Accepted(r.value, r.next + 1, r.len + 1);
    }
  }

  /** The source has the four turns in a row. */
  method ParseIp(text: seq<uint8>, pos: nat, strLen: nat) returns (r: Reading)
    ensures r == IpAt(text, pos, strLen)
  {
    r := ParseOctets(text, pos, strLen, 3, 0, 0);
  }

  method ParseOctets(text: seq<uint8>, pos: nat, strLen: nat, i: nat, high: nat, dl: nat) returns (r: Reading)
    ensures r == OctetsAt(text, pos, strLen, i, high, dl)
    decreases i
  {
    r := ParsePart(text, pos, strLen, i);
    if r.Accepted? {
      var ip, len := 0x100 * high + r.value, dl + r.len;
      if i == 0 {
        r := Accepted(ip, r.next, len);
      } else {
        r := ParseOctets(text, r.next, strLen - r.len, i - 1, ip, len);
      }
    }
  }

  method ParsePort(text: seq<uint8>, pos: nat, strLen: nat) returns (r: Reading)
    ensures r == PortAt(text, pos, strLen)
  {
    if strLen == 0 || At(text, pos) != COLON {
      return Rejected;
    }
    var limit, n := strLen - 1, 0;
    while n < limit && (At(text, pos + 1 + n) == SPACE || At(text, pos + 1 + n) == TAB)
      invariant n <= limit && Spaces(text, pos + 1, limit) == n + Spaces(text, pos + 1 + n, limit - n)
    {
      n := n + 1;
    }
    var d := GetDecimal(GUARD32, text, pos + 1 + n, limit);
    if d.None? || d.value.value > 65535 {
      return Rejected;
    }
    r := Accepted(d.value.value, pos + 1 + n + d.value.len, 1 + n + d.value.len);
  }

  method ParseAddress(text: seq<uint8>, pos: nat, strLen: nat) returns (r: AddressReading)
    ensures r == AddressAt(text, pos, strLen)
  {
    var a := ParseIp(text, pos, strLen);
    if a.Rejected? {
      return NoAddress;
    }
    var b := ParsePort(text, a.next, strLen - a.len);
    r := if b.Rejected? then NoAddress else Address(a.value, b.value, b.next, a.len + b.len);
  }
}
