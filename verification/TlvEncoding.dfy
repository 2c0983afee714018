/**
 What the readers find in what the writers laid down: in a recursive encoding, and in whatever part of it
 there was room for.
 */
module TlvEncoding {
  import opened Machine
  import opened TlvWriter
  import opened TlvNesting
  import opened TlvReader

  function Slice(msg: Bytes, r: Rec): (s: Bytes)
    ensures |s| <= |msg|
  {
    if r.start + r.len <= |msg| then msg[r.start..r.start + r.len] else []
  }

  /** The value of the last record with the tag. */
  function Find(msg: Bytes, tag: nat): (v: Option<Bytes>)
    ensures v.Some? ==> |v.value| <= |msg|
  {
    var rs := Records(WORDS, msg, 0);
    match Last(rs, |rs|, tag)
    case None => None
    case Some(r) => Some(Slice(msg, r))
  }

  function OrEmpty(b: Option<Bytes>): Bytes {
    match b
    case None => []
    case Some(v) => v
  }

  function Value(msg: Bytes, tag: nat): Bytes {
    OrEmpty(Find(msg, tag))
  }

  function Payload(t: Tree): Bytes {
    match t
    case Leaf(_, value) => value
    case Node(_, children) => OrEmpty(EncodeAll(children, |children|))
  }

  /** The payload of the last of the first `n` trees with the tag. */
  function Sought(ts: seq<Tree>, n: nat, tag: nat): Option<Bytes>
    requires n <= |ts|
  {
    if n == 0 then None else if ts[n - 1].tag == tag then Some(Payload(ts[n - 1])) else Sought(ts, n - 1, tag)
  }

  lemma {:induction false} SoughtPrefix(a: seq<Tree>, b: seq<Tree>, n: nat, tag: nat)
    requires n <= |a| && n <= |b| && forall i :: 0 <= i < n ==> a[i] == b[i]
    ensures Sought(a, n, tag) == Sought(b, n, tag)
    decreases n
  {
    if n > 0 {
      SoughtPrefix(a, b, n - 1, tag);
    }
  }

  /** The records `rs` of `e` are the first `n` trees: tags, payloads and order. */
  ghost predicate ReadsAs(e: Bytes, rs: seq<Rec>, ts: seq<Tree>, n: nat)
    requires n <= |ts|
  {
    |rs| == n && forall i :: 0 <= i < n ==> ReadsAsOne(e, rs[i], ts[i])
  }

  ghost predicate ReadsAsOne(e: Bytes, r: Rec, t: Tree) {
    r.start + r.len <= |e| && r.tag == t.tag && Slice(e, r) == Payload(t)
  }

  lemma {:induction false} LastIsSought(e: Bytes, rs: seq<Rec>, ts: seq<Tree>, k: nat, n: nat, tag: nat)
    requires k <= n <= |ts| && ReadsAs(e, rs, ts, n)
    ensures Sought(ts, k, tag) == match Last(rs, k, tag)
            case None => None
            case Some(r) => Some(Slice(e, r))
    decreases k
  {
    if k > 0 {
      assert ReadsAsOne(e, rs[k - 1], ts[k - 1]);
      LastIsSought(e, rs, ts, k - 1, n, tag);
    }
  }

  lemma FindIsSought(e: Bytes, ts: seq<Tree>, n: nat, tag: nat)
    requires n <= |ts| && ReadsAs(e, Records(WORDS, e, 0), ts, n)
    ensures Find(e, tag) == Sought(ts, n, tag)
  {
    LastIsSought(e, Records(WORDS, e, 0), ts, n, n, tag);
  }

  // One record more.

  lemma {:induction false} EndOfConcat(f: Format, a: Bytes, b: Bytes, pos: nat)
    requires pos <= |a| && f.Head() > 0 && EndOf(f, a, pos) == |a|
    ensures EndOf(f, a + b, pos) == |a| + EndOf(f, b, 0)
    decreases |a| - pos
  {
    var r := RecordAt(f, a, pos);
    if r.Some? {
      RecordBefore(f, a, b, pos);
      EndOfConcat(f, a, b, r.value.start + r.value.len);
    } else {
      EndWithin(f, a, b, 0);
    }
  }

  lemma {:induction false} EndWithin(f: Format, a: Bytes, b: Bytes, pos: nat)
    requires pos <= |b| && f.Head() > 0
    ensures EndOf(f, a + b, |a| + pos) == |a| + EndOf(f, b, pos)
    decreases |b| - pos
  {
    RecordWithin(f, a, b, pos);
    var r := RecordAt(f, b, pos);
    if r.Some? {
      EndWithin(f, a, b, r.value.start + r.value.len);
    }
  }

  lemma RecordReads(tag: uint16, value: Bytes)
    requires |value| < 0x1_0000
    ensures Records(WORDS, Record(tag, value), 0) == [Rec(tag, 4, |value|)]
    ensures EndOf(WORDS, Record(tag, value), 0) == 4 + |value|
  {
    var r := Record(tag, value);
    assert r[0] == tag % 0x100 && r[1] == tag / 0x100 && r[2] == |value| % 0x100 && r[3] == |value| / 0x100;
    assert Le(r, 1, 1) == r[1] && Le(r, 3, 1) == r[3];
    assert Le(r, 0, 2) == tag && Le(r, 2, 2) == |value|;
    assert RecordAt(WORDS, r, 0) == Some(Rec(tag, 4, |value|));
    assert RecordAt(WORDS, r, |r|).None?;
  }

  lemma OneMore(a: Bytes, rs: seq<Rec>, ts: seq<Tree>, us: seq<Tree>, n: nat)
    requires n <= |ts| && n < |us| && ReadsAs(a, rs, ts, n) && |Payload(us[n])| < 0x1_0000
    requires forall i :: 0 <= i < n ==> us[i] == ts[i]
    ensures var t := us[n];
            ReadsAs(a + Record(t.tag, Payload(t)), rs + [Rec(t.tag, |a| + 4, |Payload(t)|)], us, n + 1)
  {
    var t := us[n];
    var x, r := Record(t.tag, Payload(t)), Rec(t.tag, |a| + 4, |Payload(t)|);
    assert (a + x)[r.start..r.start + r.len] == Payload(t);
    forall i | 0 <= i < n + 1 ensures ReadsAsOne(a + x, (rs + [r])[i], us[i]) {
      if i < n {
        assert ReadsAsOne(a + x, rs[i], ts[i]);
      }
    }
  }

  /** A message that is all records, and a record. */
  lemma ReadsOneMore(a: Bytes, ts: seq<Tree>, us: seq<Tree>, n: nat)
    requires EndOf(WORDS, a, 0) == |a| && n <= |ts| && ReadsAs(a, Records(WORDS, a, 0), ts, n)
    requires n < |us| && |Payload(us[n])| < 0x1_0000 && forall i :: 0 <= i < n ==> us[i] == ts[i]
    ensures var b := a + Record(us[n].tag, Payload(us[n]));
            EndOf(WORDS, b, 0) == |b| && ReadsAs(b, Records(WORDS, b, 0), us, n + 1)
  {
    var t := us[n];
    var x := Record(t.tag, Payload(t));
    RecordReads(t.tag, Payload(t));
    RecordsOfConcat(WORDS, a, x, 0);
    EndOfConcat(WORDS, a, x, 0);
    OneMore(a, Records(WORDS, a, 0), ts, us, n);
    assert Shift([Rec(t.tag, 4, |Payload(t)|)], |a|) == [Rec(t.tag, |a| + 4, |Payload(t)|)];
  }

  /** A message that is all records, and fewer bytes than a head. */
  lemma SpareIsIgnored(a: Bytes, ts: seq<Tree>, spare: Bytes)
    requires EndOf(WORDS, a, 0) == |a| && ReadsAs(a, Records(WORDS, a, 0), ts, |ts|) && |spare| < 4
    ensures ReadsAs(a + spare, Records(WORDS, a + spare, 0), ts, |ts|)
  {
    var rs := Records(WORDS, a, 0);
    RecordsOfConcat(WORDS, a, spare, 0);
    assert Records(WORDS, spare, 0) == [];
    assert rs + Shift([], |a|) == rs;
  }

  // The recursive encoding.

  /** The records of an encoded list are its trees, to the last byte. */
  lemma {:induction false} EncodingReads(ts: seq<Tree>, n: nat)
    requires n <= |ts| && EncodeAll(ts, n).Some?
    ensures var e := EncodeAll(ts, n).value;
            EndOf(WORDS, e, 0) == |e| && ReadsAs(e, Records(WORDS, e, 0), ts, n)
    decreases n
  {
    if n > 0 {
      EncodingReads(ts, n - 1);
      ReadsOneMore(EncodeAll(ts, n - 1).value, ts, ts, n - 1);
    }
  }

  lemma ValueOfEncoding(ts: seq<Tree>, tag: nat)
    requires EncodeAll(ts, |ts|).Some?
    ensures Find(EncodeAll(ts, |ts|).value, tag) == Sought(ts, |ts|, tag)
  {
    EncodingReads(ts, |ts|);
    FindIsSought(EncodeAll(ts, |ts|).value, ts, |ts|, tag);
  }

  lemma {:induction false} LeavesEncode(ts: seq<Tree>, n: nat)
    requires n <= |ts| && Small(ts) && forall i :: 0 <= i < |ts| ==> ts[i].Leaf?
    ensures EncodeAll(ts, n).Some?
    decreases n
  {
    if n > 0 {
      LeavesEncode(ts, n - 1);
    }
  }

  // What there was room for.

  /** What is laid inside a node when `room` bytes are left for it. */
  function Inside(room: nat, children: seq<Tree>): (b: Bytes)
    requires room < 0x1_0000 && Small(children)
    ensures |b| < 0x1_0000
  {
    if room > 4 then Lay(room - 4, children, |children|) else []
  }

  /** The record that the calls for one tree leave, if any: a leaf of the tree's tag. */
  function KeptOne(room: nat, t: Tree): (k: seq<Tree>)
    requires room < 0x1_0000 && SmallOne(t)
    ensures |k| <= 1 && (|k| == 1 ==> k[0].Leaf? && k[0].tag == t.tag && |k[0].value| < 0x1_0000)
  {
    match t
    case Leaf(_, value) => if 4 + |value| <= room then [t] else []
    case Node(tag, children) => if room >= 4 then [Leaf(tag, Inside(room, children))] else []
  }

  function Kept(room: nat, ts: seq<Tree>, n: nat): seq<Tree>
    requires room < 0x1_0000 && n <= |ts| && Small(ts)
    decreases n
  {
    if n == 0 then [] else Kept(room, ts, n - 1) + KeptOne(room - |Lay(room, ts, n - 1)|, ts[n - 1])
  }

  /** Whatever room there was, what is laid down reads as the records that were kept, in order. */
  lemma {:induction false} LayReads(room: nat, ts: seq<Tree>, n: nat)
    requires room < 0x1_0000 && n <= |ts| && Small(ts)
    ensures var b, ks := Lay(room, ts, n), Kept(room, ts, n);
            && ReadsAs(b, Records(WORDS, b, 0), ks, |ks|)
            && (EndOf(WORDS, b, 0) == |b| || room - |b| < 2)
    decreases n
  {
    if n > 0 {
      LayReads(room, ts, n - 1);
      LayReadsOneMore(Lay(room, ts, n - 1), Kept(room, ts, n - 1), room - |Lay(room, ts, n - 1)|, ts[n - 1]);
    }
  }

  lemma LayReadsOneMore(a: Bytes, ks: seq<Tree>, left: nat, t: Tree)
    requires left < 0x1_0000 && SmallOne(t) && ReadsAs(a, Records(WORDS, a, 0), ks, |ks|)
    requires EndOf(WORDS, a, 0) == |a| || left < 2
    ensures var b, us := a + LayOne(left, t), ks + KeptOne(left, t);
            && ReadsAs(b, Records(WORDS, b, 0), us, |us|)
            && (EndOf(WORDS, b, 0) == |b| || left - |LayOne(left, t)| < 2)
  {
    if KeptOne(left, t) != [] {
      ReadsOneMore(a, ks, ks + KeptOne(left, t), |ks|);
    } else {
      assert ks + [] == ks && a + [] == a;
      if left < 2 {
      } else {
        SpareIsIgnored(a, ks, LayOne(left, t));
      }
    }
  }

  /** The value kept of the `k`-th tree, if it is kept. */
  function KeptValue(room: nat, ts: seq<Tree>, k: nat): Option<Bytes>
    requires room < 0x1_0000 && Small(ts) && k < |ts|
  {
    var o := KeptOne(room - |Lay(room, ts, k)|, ts[k]);
    if o == [] then None else Some(o[0].value)
  }

  /** What is found for the tag of the `k`-th tree, where no other tree has it, is what was kept of it. */
  lemma FindLaid(room: nat, ts: seq<Tree>, k: nat)
    requires room < 0x1_0000 && Small(ts) && k < |ts|
    requires forall j :: 0 <= j < |ts| && j != k ==> ts[j].tag != ts[k].tag
    ensures Find(Lay(room, ts, |ts|), ts[k].tag) == KeptValue(room, ts, k)
  {
    LayReads(room, ts, |ts|);
    var ks := Kept(room, ts, |ts|);
    FindIsSought(Lay(room, ts, |ts|), ks, |ks|, ts[k].tag);
    SoughtKept(room, ts, k, ts[k].tag, |ts|);
  }

  lemma {:induction false} SoughtKept(room: nat, ts: seq<Tree>, k: nat, tag: nat, n: nat)
    requires room < 0x1_0000 && Small(ts) && k < |ts| && n <= |ts|
    requires forall j :: 0 <= j < |ts| ==> (ts[j].tag == tag <==> j == k)
    ensures Sought(Kept(room, ts, n), |Kept(room, ts, n)|, tag) == if n <= k then None else KeptValue(room, ts, k)
    decreases n
  {
    if n > 0 {
      SoughtKept(room, ts, k, tag, n - 1);
      KeptMore(room, ts, n - 1, tag);
    }
  }

  /** And for a tag that no tree has nothing is found. */
  lemma NotLaid(room: nat, ts: seq<Tree>, tag: nat)
    requires room < 0x1_0000 && Small(ts) && forall j :: 0 <= j < |ts| ==> ts[j].tag != tag
    ensures Find(Lay(room, ts, |ts|), tag) == None
  {
    LayReads(room, ts, |ts|);
    var ks := Kept(room, ts, |ts|);
    FindIsSought(Lay(room, ts, |ts|), ks, |ks|, tag);
    NotKept(room, ts, tag, |ts|);
  }

  lemma {:induction false} NotKept(room: nat, ts: seq<Tree>, tag: nat, n: nat)
    requires room < 0x1_0000 && Small(ts) && n <= |ts| && forall j :: 0 <= j < |ts| ==> ts[j].tag != tag
    ensures Sought(Kept(room, ts, n), |Kept(room, ts, n)|, tag) == None
    decreases n
  {
    if n > 0 {
      NotKept(room, ts, tag, n - 1);
      KeptMore(room, ts, n - 1, tag);
    }
  }

  lemma KeptMore(room: nat, ts: seq<Tree>, n: nat, tag: nat)
    requires room < 0x1_0000 && Small(ts) && n < |ts|
    ensures var before, more := Kept(room, ts, n), Kept(room, ts, n + 1);
            Sought(more, |more|, tag) ==
            if ts[n].tag == tag && KeptValue(room, ts, n).Some? then KeptValue(room, ts, n) else Sought(before, |before|, tag)
  {
    SoughtSnoc(Kept(room, ts, n), KeptOne(room - |Lay(room, ts, n)|, ts[n]), tag);
  }

  lemma SoughtSnoc(ts: seq<Tree>, one: seq<Tree>, tag: nat)
    requires |one| <= 1
    ensures Sought(ts + one, |ts + one|, tag) ==
            if one != [] && one[0].tag == tag then Some(Payload(one[0])) else Sought(ts, |ts|, tag)
  {
    SoughtPrefix(ts, ts + one, |ts|, tag);
  }

  // Lists of leaves.

  ghost predicate Distinct(ts: seq<Tree>) {
    && (forall i :: 0 <= i < |ts| ==> ts[i].Leaf?)
    && (forall i, j :: 0 <= i < j < |ts| ==> ts[i].tag != ts[j].tag)
  }

  /** Where no two leaves share a tag, each is what is found for its tag. */
  lemma {:induction false} SoughtDistinct(ts: seq<Tree>, k: nat, n: nat)
    requires Distinct(ts) && k < n <= |ts|
    ensures Sought(ts, n, ts[k].tag) == Some(ts[k].value)
    decreases n
  {
    if k < n - 1 {
      SoughtDistinct(ts, k, n - 1);
    }
  }

  /** The bytes the records of the first `n` leaves take. */
  function Size(ts: seq<Tree>, n: nat): nat
    requires n <= |ts| && forall i :: 0 <= i < |ts| ==> ts[i].Leaf?
  {
    if n == 0 then 0 else Size(ts, n - 1) + 4 + |ts[n - 1].value|
  }

  ghost predicate Found(b: Bytes, ts: seq<Tree>, n: nat)
    requires n <= |ts| && forall i :: 0 <= i < |ts| ==> ts[i].Leaf?
  {
    forall i :: 0 <= i < n ==> FoundOne(b, ts[i])
  }

  ghost predicate FoundOne(b: Bytes, t: Tree)
    requires t.Leaf?
  {
    Find(b, t.tag) == Some(t.value)
  }

  lemma FoundOneMore(b: Bytes, ts: seq<Tree>, n: nat)
    requires n < |ts| && forall i :: 0 <= i < |ts| ==> ts[i].Leaf?
    ensures Found(b, ts, n + 1) <==> Found(b, ts, n) && FoundOne(b, ts[n])
  {
  }

  lemma LeafIsFound(room: nat, ts: seq<Tree>, k: nat)
    requires room < 0x1_0000 && Small(ts) && Distinct(ts) && k < |ts|
    ensures var fits := |Lay(room, ts, k)| + 4 + |ts[k].value| <= room;
            && (FoundOne(Lay(room, ts, |ts|), ts[k]) <==> fits)
            && (fits ==> |Lay(room, ts, k + 1)| == |Lay(room, ts, k)| + 4 + |ts[k].value|)
  {
    FindLaid(room, ts, k);
  }

  /** The first `n` leaves are all found, each with its value, if and only if their records fit together. */
  lemma {:induction false} FoundIffTheyFit(room: nat, ts: seq<Tree>, n: nat)
    requires room < 0x1_0000 && Small(ts) && Distinct(ts) && n <= |ts|
    ensures Found(Lay(room, ts, |ts|), ts, n) <==> Size(ts, n) <= room
    ensures Size(ts, n) <= room ==> |Lay(room, ts, n)| == Size(ts, n)
    decreases n
  {
    if n > 0 {
      FoundIffTheyFit(room, ts, n - 1);
      LeafIsFound(room, ts, n - 1);
      FoundOneMore(Lay(room, ts, |ts|), ts, n - 1);
      assert Size(ts, n) == Size(ts, n - 1) + 4 + |ts[n - 1].value|;
    }
  }
}
