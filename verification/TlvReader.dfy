/**
 The two readers of tag-length-value messages: the table of d-mon/dttablepoint.h, which keeps the last
 record of every tag, and the search of d-mon/dpointer.h, which stops at the first. Both are templates
 over the widths of the tag and the length; the table has lengths of up to four bytes.
 */
module TlvReader {
  import opened Machine

  datatype Format = Format(tagBytes: nat, lenBytes: nat) {
    function Head(): nat {
      tagBytes + lenBytes
    }
  }

  const WORDS := Format(2, 2)

  datatype Rec = Rec(tag: nat, start: nat, len: nat)

  /** A pointer into the message, if set, and a length. */
  datatype Param = Param(msg: Option<nat>, len: nat)

  const CLEAR := Param(None, 0)

  /** The cast of a length to 32 bits, in the test of both readers. */
  function Cast(len: nat): uint32 {
    len % TWO_TO_THE_32
  }

  function Power256(n: nat): nat {
    if n == 0 then 1 else 0x100 * Power256(n - 1)
  }

  lemma {:induction false} LeBelow(msg: seq<uint8>, i: nat, n: nat)
    requires i + n <= |msg|
    ensures Le(msg, i, n) < Power256(n)
    decreases n
  {
    if n > 0 {
      LeBelow(msg, i + 1, n - 1);
    }
  }

  /** A length of up to four bytes is its own cast. */
  lemma CastIsExact(msg: seq<uint8>, i: nat, n: nat)
    requires i + n <= |msg| && n <= 4
    ensures Cast(Le(msg, i, n)) == Le(msg, i, n)
  {
    LeBelow(msg, i, n);
    assert Power256(4) == TWO_TO_THE_32;
    if n < 4 {
      assert Power256(1) == 0x100 && Power256(2) == 0x1_0000 && Power256(3) == 0x100_0000;
    }
  }

  /** The test tells whether `left` bytes hold `len` if and only if no length of 2^32 or more passes it. */
  lemma CastTest(left: nat, len: nat)
    requires left < TWO_TO_THE_32
    ensures (left < Cast(len) <==> left < len) <==> !(len >= TWO_TO_THE_32 && Cast(len) <= left)
  {
  }

  /** With lengths of eight bytes one does: 2^32 + 1 bytes are found in a message with one byte left. */
  lemma LongLengthPasses()
    ensures var msg := [7, 0, 0, 0, 0, 0, 0, 0, 1, 0, 0, 0, 1, 0, 0, 0, 0];
            && Le(msg, 0, 8) == 7 && Le(msg, 8, 8) == TWO_TO_THE_32 + 1
            && RecordAt(Format(8, 8), msg, 0) == None
            && SearchFrom(Format(8, 8), msg, 0, 7) == Found(Param(Some(16), TWO_TO_THE_32 + 1))
  {
    var msg := [7, 0, 0, 0, 0, 0, 0, 0, 1, 0, 0, 0, 1, 0, 0, 0, 0];
    assert Le(msg, 4, 4) == Le(msg, 6, 2) == 0;
    assert Le(msg, 13, 3) == 0;
    assert Le(msg, 12, 4) == 1;
    assert Le(msg, 10, 6) == 0x1_0000;
    assert Le(msg, 2, 6) == Le(msg, 4, 4) * 0x1_0000;
  }

  /** The complete record at `pos`, if there is one. */
  function RecordAt(f: Format, msg: seq<uint8>, pos: nat): (r: Option<Rec>)
    requires pos <= |msg|
    ensures r.Some? ==> r.value.start == pos + f.Head() && r.value.start + r.value.len <= |msg|
  {
    if |msg| - pos < f.Head() then None
    else
      var len := Le(msg, pos + f.tagBytes, f.lenBytes);
      if |msg| - pos - f.Head() < len then None
      else Some(Rec(Le(msg, pos, f.tagBytes), pos + f.Head(), len))
  }

  /** The records from `pos` on, up to the first incomplete one. */
  function Records(f: Format, msg: seq<uint8>, pos: nat): seq<Rec>
    requires pos <= |msg| && f.Head() > 0
    decreases |msg| - pos
  {
    var r := RecordAt(f, msg, pos);
    if r.None? then [] else [r.value] + Records(f, msg, r.value.start + r.value.len)
  }

  /** Where the records from `pos` on end. */
  function EndOf(f: Format, msg: seq<uint8>, pos: nat): (e: nat)
    requires pos <= |msg| && f.Head() > 0
    ensures pos <= e <= |msg|
    decreases |msg| - pos
  {
    var r := RecordAt(f, msg, pos);
    if r.None? then pos else EndOf(f, msg, r.value.start + r.value.len)
  }

  /** The last of the first `n` records with the tag. */
  function Last(rs: seq<Rec>, n: nat, tag: nat): Option<Rec>
    requires n <= |rs|
  {
    if n == 0 then None else if rs[n - 1].tag == tag then Some(rs[n - 1]) else Last(rs, n - 1, tag)
  }

  /** The first with the tag of the records from index `i` on. */
  function First(rs: seq<Rec>, i: nat, tag: nat): Option<Rec>
    requires i <= |rs|
    decreases |rs| - i
  {
    if i == |rs| then None else if rs[i].tag == tag then Some(rs[i]) else First(rs, i + 1, tag)
  }

  /** What the table holds for `tag` after the first `n` records, having held `before`. */
  function Entry(rs: seq<Rec>, n: nat, tag: nat, before: Param): Param
    requires n <= |rs|
  {
    match Last(rs, n, tag)
    case None => before
    case Some(r) => Param(Some(r.start), r.len)
  }

  /** What the table holds for `tag` after the whole message. */
  function Parsed(f: Format, msg: seq<uint8>, tag: nat, before: Param): Param
    requires f.Head() > 0
  {
    var rs := Records(f, msg, 0);
    Entry(rs, |rs|, tag, before)
  }

  /** The record at the cursor is the next of the list. */
  lemma NextOfRecords(f: Format, msg: seq<uint8>, rs: seq<Rec>, n: nat, pos: nat)
    requires pos <= |msg| && f.Head() > 0 && n <= |rs| && rs[n..] == Records(f, msg, pos)
    ensures RecordAt(f, msg, pos).None? ==> n == |rs|
    ensures RecordAt(f, msg, pos).Some? ==>
              var r := RecordAt(f, msg, pos).value;
              n < |rs| && rs[n] == r && rs[n + 1..] == Records(f, msg, r.start + r.len)
  {
    var r := RecordAt(f, msg, pos);
    if r.Some? {
      assert rs[n] == rs[n..][0] == r.value;
      assert rs[n + 1..] == rs[n..][1..] == Records(f, msg, r.value.start + r.value.len);
    }
  }

  /** What both loops do at the head of a record: tag, length, and the test that the value is there. */
  method ReadHead(f: Format, msg: seq<uint8>, start: nat) returns (r: Option<Rec>)
    requires f.lenBytes <= 4 && start + f.Head() <= |msg|
    ensures r == RecordAt(f, msg, start)
  {
    var pos := start;
    var pn := Le(msg, pos, f.tagBytes);
    pos := pos + f.tagBytes;
    var pl := Le(msg, pos, f.lenBytes);
    CastIsExact(msg, pos, f.lenBytes);
    pos := pos + f.lenBytes;
    r := if |msg| - pos < Cast(pl) then None else Some(Rec(pn, pos, pl));
  }

  method Parse(f: Format, table: array<Param>, message: Option<seq<uint8>>) returns (ok: bool)
    requires f.Head() > 0 && f.lenBytes <= 4
    modifies table
    ensures ok <==> message.Some?
    ensures message.None? ==> table[..] == old(table[..])
    ensures message.Some? ==> forall tag :: 0 <= tag < table.Length ==>
              table[tag] == Parsed(f, message.value, tag, old(table[tag]))
  {
    if message.None? {
      return false;
    }
    var msg, pos := message.value, 0;
    ghost var rs, n := Records(f, msg, 0), 0;
    assert rs[0..] == rs;
    while |msg| - pos >= f.Head()
      invariant pos <= |msg| && n <= |rs| && rs[n..] == Records(f, msg, pos)
      invariant forall tag :: 0 <= tag < table.Length ==> table[tag] == Entry(rs, n, tag, old(table[tag]))
      decreases |msg| - pos
    {
      NextOfRecords(f, msg, rs, n, pos);
      var r := ReadHead(f, msg, pos);
      if r.None? {
        break;
      }
      if r.value.tag < table.Length {
        table[r.value.tag] := Param(Some(r.value.start), r.value.len);
      }
      pos, n := r.value.start + r.value.len, n + 1;
    }
    NextOfRecords(f, msg, rs, n, pos);
    return true;
  }

  /** The 32-bit difference. */
  function LeftAfter(left: nat, len: nat): (r: nat)
    ensures len <= left < TWO_TO_THE_32 ==> r == left - len
  {
    (left - len) % TWO_TO_THE_32
  }

  /** Once the test is passed, what is left is counted as if the length were its cast. */
  lemma LeftIsOfCast(left: nat, len: nat)
    requires Cast(len) <= left < TWO_TO_THE_32
    ensures LeftAfter(left, len) == left - Cast(len)
  {
    ModUnique(left - len, TWO_TO_THE_32, -(len / TWO_TO_THE_32), left - Cast(len));
  }

  /** What GetParam comes to: a field set, nothing found, or a step out of the message. */
  datatype Search = Found(field: Param) | Missing | OutOfBounds

  /** A length whose cast passes the test is believed; what is left after it is computed in 32 bits. */
  function SearchFrom(f: Format, msg: seq<uint8>, pos: nat, name: nat): Search
    requires pos <= |msg| && f.Head() > 0
    decreases |msg| - pos
  {
    if |msg| - pos < f.Head() then Missing
    else
      var start, len := pos + f.Head(), Le(msg, pos + f.tagBytes, f.lenBytes);
      var left := |msg| - start;
      if left < Cast(len) then Missing
      else if Le(msg, pos, f.tagBytes) == name then Found(Param(Some(start), len))
      else if len <= left then SearchFrom(f, msg, start + len, name)
      else if LeftAfter(left, len) < f.Head() then Missing
      else OutOfBounds
  }

  /** Stops at the first head with the tag; the fields are set only then. What it may not do is leave the message. */
  method GetParam(f: Format, name: nat, msg: seq<uint8>) returns (found: bool, field: Param)
    requires f.Head() > 0 && |msg| < TWO_TO_THE_32 && SearchFrom(f, msg, 0, name) != OutOfBounds
    ensures if found then SearchFrom(f, msg, 0, name) == Found(field) else SearchFrom(f, msg, 0, name) == Missing
  {
    var pos: nat, left: nat := 0, |msg|;
    ghost var out := false;
    while left > 0
      invariant !out ==> pos + left == |msg| && SearchFrom(f, msg, 0, name) == SearchFrom(f, msg, pos, name)
      invariant out ==> left < f.Head() && SearchFrom(f, msg, 0, name) == Missing
      decreases if out then 0 else left + 1
    {
      if left < f.Head() {
        break;
      }
      var pn := Le(msg, pos, f.tagBytes);
      pos := pos + f.tagBytes;
      var pl := Le(msg, pos, f.lenBytes);
      pos, left := pos + f.lenBytes, left - f.Head();
      if left < Cast(pl) {
        return false, CLEAR;
      }
      if pn == name {
        return true, Param(Some(pos), pl);
      }
      out := pl > left;
      pos, left := pos + pl, LeftAfter(left, pl);
    }
    return false, CLEAR;
  }

  lemma {:induction false} FirstCons(r: Rec, rs: seq<Rec>, i: nat, tag: nat)
    requires i <= |rs|
    ensures First([r] + rs, i + 1, tag) == First(rs, i, tag)
    decreases |rs| - i
  {
    if i < |rs| {
      FirstCons(r, rs, i + 1, tag);
    }
  }

  /** With lengths of up to four bytes it stays inside and finds the first record with the tag. */
  lemma {:induction false} SearchIsFirst(f: Format, msg: seq<uint8>, pos: nat, name: nat)
    requires pos <= |msg| && f.Head() > 0 && f.lenBytes <= 4
    ensures SearchFrom(f, msg, pos, name) == match First(Records(f, msg, pos), 0, name)
            case None => Missing
            case Some(r) => Found(Param(Some(r.start), r.len))
    decreases |msg| - pos
  {
    var r := RecordAt(f, msg, pos);
    if |msg| - pos >= f.Head() {
      CastIsExact(msg, pos + f.tagBytes, f.lenBytes);
    }
    if r.Some? {
      var next := r.value.start + r.value.len;
      FirstCons(r.value, Records(f, msg, next), 0, name);
      SearchIsFirst(f, msg, next, name);
    }
  }

  // What the record list is.

  /** In message order, in bounds, and apart by at least a header. */
  ghost predicate Apart(f: Format, msg: seq<uint8>, from: nat, rs: seq<Rec>) {
    && (forall i :: 0 <= i < |rs| ==> from + f.Head() <= rs[i].start && rs[i].start + rs[i].len <= |msg|)
    && (forall i, j :: 0 <= i < j < |rs| ==> rs[i].start + rs[i].len + f.Head() <= rs[j].start)
  }

  lemma {:induction false} RecordsApart(f: Format, msg: seq<uint8>, pos: nat)
    requires pos <= |msg| && f.Head() > 0
    ensures Apart(f, msg, pos, Records(f, msg, pos))
    decreases |msg| - pos
  {
    var r := RecordAt(f, msg, pos);
    if r.Some? {
      RecordsApart(f, msg, r.value.start + r.value.len);
      var rs := Records(f, msg, pos);
      assert forall i :: 0 < i < |rs| ==> rs[i] == rs[1..][i - 1];
    }
  }

  /** `Last` and `First` are the record of greatest and of least index with the tag. */
  lemma {:induction false} LastIsGreatest(rs: seq<Rec>, n: nat, tag: nat)
    requires n <= |rs|
    ensures match Last(rs, n, tag)
            case None => forall i :: 0 <= i < n ==> rs[i].tag != tag
            case Some(r) => exists i :: 0 <= i < n && rs[i] == r && r.tag == tag && forall j :: i < j < n ==> rs[j].tag != tag
  {
    if n > 0 {
      LastIsGreatest(rs, n - 1, tag);
    }
  }

  lemma {:induction false} FirstIsLeast(rs: seq<Rec>, k: nat, tag: nat)
    requires k <= |rs|
    ensures match First(rs, k, tag)
            case None => forall i :: k <= i < |rs| ==> rs[i].tag != tag
            case Some(r) => exists i :: k <= i < |rs| && rs[i] == r && r.tag == tag && forall j :: k <= j < i ==> rs[j].tag != tag
    decreases |rs| - k
  {
    if k < |rs| {
      FirstIsLeast(rs, k + 1, tag);
    }
  }

  lemma LeastAndGreatest(rs: seq<Rec>, tag: nat) returns (i: nat, k: nat)
    requires exists j :: 0 <= j < |rs| && rs[j].tag == tag
    ensures i < |rs| && First(rs, 0, tag) == Some(rs[i]) && forall j :: 0 <= j < i ==> rs[j].tag != tag
    ensures k < |rs| && Last(rs, |rs|, tag) == Some(rs[k]) && forall j :: k < j < |rs| ==> rs[j].tag != tag
    ensures rs[i].tag == rs[k].tag == tag
  {
    FirstIsLeast(rs, 0, tag);
    LastIsGreatest(rs, |rs|, tag);
    i :| 0 <= i < |rs| && rs[i] == First(rs, 0, tag).value && forall j :: 0 <= j < i ==> rs[j].tag != tag;
    k :| 0 <= k < |rs| && rs[k] == Last(rs, |rs|, tag).value && forall j :: k < j < |rs| ==> rs[j].tag != tag;
  }

  /** The two readers agree on a tag exactly when no more than one record has it. */
  lemma ReadersAgree(f: Format, msg: seq<uint8>, tag: nat)
    requires f.Head() > 0
    ensures var rs := Records(f, msg, 0);
            First(rs, 0, tag) == Last(rs, |rs|, tag) <==>
            forall i, j :: 0 <= i < j < |rs| ==> rs[i].tag != tag || rs[j].tag != tag
  {
    var rs := Records(f, msg, 0);
    RecordsApart(f, msg, 0);
    if j :| 0 <= j < |rs| && rs[j].tag == tag {
      var i, k := LeastAndGreatest(rs, tag);
      assert i <= j <= k;
      assert rs[i].start == rs[k].start ==> i == k;
    } else {
      FirstIsLeast(rs, 0, tag);
      LastIsGreatest(rs, |rs|, tag);
    }
  }

  // Messages one after another.

  function Moved(r: Rec, d: nat): Rec {
    Rec(r.tag, r.start + d, r.len)
  }

  function Shift(rs: seq<Rec>, d: nat): (s: seq<Rec>)
    ensures |s| == |rs| && forall i :: 0 <= i < |rs| ==> s[i] == Moved(rs[i], d)
  {
    seq(|rs|, i requires 0 <= i < |rs| => Moved(rs[i], d))
  }

  lemma ShiftCons(r: Rec, rs: seq<Rec>, d: nat)
    ensures Shift([r] + rs, d) == [Moved(r, d)] + Shift(rs, d)
  {
  }

  lemma {:induction false} LeSame(a: seq<uint8>, i: nat, b: seq<uint8>, j: nat, n: nat)
    requires i + n <= |a| && j + n <= |b| && forall k :: i <= k < i + n ==> a[k] == b[k - i + j]
    ensures Le(a, i, n) == Le(b, j, n)
    decreases n
  {
    if n > 0 {
      LeSame(a, i + 1, b, j + 1, n - 1);
    }
  }

  /** Bytes before a record, and bytes after a complete one, do not matter. */
  lemma RecordWithin(f: Format, a: seq<uint8>, b: seq<uint8>, pos: nat)
    requires pos <= |b|
    ensures RecordAt(f, a + b, |a| + pos) == match RecordAt(f, b, pos)
            case None => None
            case Some(r) => Some(Moved(r, |a|))
  {
    if |b| - pos >= f.Head() {
      LeSame(a + b, |a| + pos, b, pos, f.tagBytes);
      LeSame(a + b, |a| + pos + f.tagBytes, b, pos + f.tagBytes, f.lenBytes);
    }
  }

  lemma RecordBefore(f: Format, a: seq<uint8>, b: seq<uint8>, pos: nat)
    requires pos <= |a| && RecordAt(f, a, pos).Some?
    ensures RecordAt(f, a + b, pos) == RecordAt(f, a, pos)
  {
    LeSame(a + b, pos, a, pos, f.tagBytes);
    LeSame(a + b, pos + f.tagBytes, a, pos + f.tagBytes, f.lenBytes);
  }

  lemma {:induction false} RecordsWithin(f: Format, a: seq<uint8>, b: seq<uint8>, pos: nat)
    requires pos <= |b| && f.Head() > 0
    ensures Records(f, a + b, |a| + pos) == Shift(Records(f, b, pos), |a|)
    decreases |b| - pos
  {
    RecordWithin(f, a, b, pos);
    var r := RecordAt(f, b, pos);
    if r.Some? {
      RecordsWithin(f, a, b, r.value.start + r.value.len);
      ShiftCons(r.value, Records(f, b, r.value.start + r.value.len), |a|);
    }
  }

  lemma {:induction false} RecordsOfConcat(f: Format, a: seq<uint8>, b: seq<uint8>, pos: nat)
    requires pos <= |a| && f.Head() > 0 && EndOf(f, a, pos) == |a|
    ensures Records(f, a + b, pos) == Records(f, a, pos) + Shift(Records(f, b, 0), |a|)
    decreases |a| - pos
  {
    var r := RecordAt(f, a, pos);
    if r.Some? {
      var next := r.value.start + r.value.len;
      RecordBefore(f, a, b, pos);
      RecordsOfConcat(f, a, b, next);
      ConcatAssociates([r.value], Records(f, a, next), Shift(Records(f, b, 0), |a|));
    } else {
      RecordsWithin(f, a, b, 0);
      assert [] + Shift(Records(f, b, 0), |a|) == Shift(Records(f, b, 0), |a|);
    }
  }

  lemma {:induction false} LastOfConcat(ra: seq<Rec>, rb: seq<Rec>, d: nat, n: nat, tag: nat)
    requires n <= |rb|
    ensures Last(ra + Shift(rb, d), |ra| + n, tag) == match Last(rb, n, tag)
            case None => Last(ra + Shift(rb, d), |ra|, tag)
            case Some(r) => Some(Moved(r, d))
  {
    if n > 0 {
      LastOfConcat(ra, rb, d, n - 1, tag);
    }
  }

  lemma {:induction false} LastOfPrefix(ra: seq<Rec>, rs: seq<Rec>, n: nat, tag: nat)
    requires n <= |ra| && n <= |rs| && forall i :: 0 <= i < n ==> rs[i] == ra[i]
    ensures Last(rs, n, tag) == Last(ra, n, tag)
  {
    if n > 0 {
      LastOfPrefix(ra, rs, n - 1, tag);
    }
  }

  lemma EntryOfConcat(rab: seq<Rec>, ra: seq<Rec>, rb: seq<Rec>, d: nat, tag: nat, before: Param)
    requires rab == ra + Shift(rb, d)
    ensures Entry(rab, |rab|, tag, before) ==
            var p := Entry(rb, |rb|, tag, CLEAR);
            if p.msg.Some? then Param(Some(p.msg.value + d), p.len) else Entry(ra, |ra|, tag, before)
  {
    LastOfConcat(ra, rb, d, |rb|, tag);
    LastOfPrefix(ra, rab, |ra|, tag);
  }

  /** Where `a` is all records, parsing `a ++ b` is parsing `a`, overridden by parsing `b`. */
  lemma ParseOfConcat(f: Format, a: seq<uint8>, b: seq<uint8>, tag: nat, before: Param)
    requires f.Head() > 0 && EndOf(f, a, 0) == |a|
    ensures Parsed(f, a + b, tag, before) ==
            var p := Parsed(f, b, tag, CLEAR);
            if p.msg.Some? then Param(Some(p.msg.value + |a|), p.len) else Parsed(f, a, tag, before)
  {
    RecordsOfConcat(f, a, b, 0);
    EntryOfConcat(Records(f, a + b, 0), Records(f, a, 0), Records(f, b, 0), |a|, tag, before);
  }
}
