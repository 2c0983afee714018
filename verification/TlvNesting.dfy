/**
 Write-ahead nesting: a child writer starts four bytes past its parent's cursor, in the parent's own
 buffer; when it is done the parent lays the tag and the length before it and moves over it.
 */
module TlvNesting {
  import opened Machine
  import opened TlvWriter

  datatype Tree = Leaf(tag: uint16, value: seq<uint8>) | Node(tag: uint16, children: seq<Tree>)

  /** The recursive encoding; none if some length does not fit its 16 bits. */
  function Encode(t: Tree): Option<seq<uint8>>
    decreases t, 0
  {
    match t
    case Leaf(tag, value) => if |value| < 0x1_0000 then Some(Record(tag, value)) else None
    case Node(tag, children) =>
      var body := EncodeAll(children, |children|);
      if body.Some? && |body.value| < 0x1_0000 then Some(Record(tag, body.value)) else None
  }

  /** The first `n` trees, one after another. */
  function EncodeAll(ts: seq<Tree>, n: nat): Option<seq<uint8>>
    requires n <= |ts|
    decreases ts, n
  {
    if n == 0 then Some([])
    else
      var before, last := EncodeAll(ts, n - 1), Encode(ts[n - 1]);
      if before.Some? && last.Some? then Some(before.value + last.value) else None
  }

  /** Leaves are appended by calls whose length argument is 16 bits wide. */
  predicate SmallOne(t: Tree) {
    match t
    case Leaf(_, value) => |value| < 0x1_0000
    case Node(_, children) => Small(children)
  }

  predicate Small(ts: seq<Tree>) {
    forall i :: 0 <= i < |ts| ==> SmallOne(ts[i])
  }

  /** What the calls for one tree lay down when `room` bytes are left, whether it fits or not. */
  function LayOne(room: nat, t: Tree): (b: seq<uint8>)
    requires room < 0x1_0000 && SmallOne(t)
    ensures |b| <= room
    decreases t, 0
  {
    match t
    case Leaf(tag, value) => if 4 + |value| <= room then Record(tag, value) else []
    case Node(tag, children) =>
      if room > 4 then Record(tag, Lay(room - 4, children, |children|))
      else if room == 4 then Record(tag, [])
      else if room >= 2 then Image2(tag)
      else []
  }

  function Lay(room: nat, ts: seq<Tree>, n: nat): (b: seq<uint8>)
    requires room < 0x1_0000 && n <= |ts| && Small(ts)
    ensures |b| <= room
    decreases ts, n
  {
    if n == 0 then []
    else
      var before := Lay(room, ts, n - 1);
      before + LayOne(room - |before|, ts[n - 1])
  }

  /** Where everything fits, what is laid down is the recursive encoding. */
  lemma {:induction false} FitsOne(room: nat, t: Tree)
    requires room < 0x1_0000 && SmallOne(t)
    requires Encode(t).Some? && |Encode(t).value| <= room
    ensures LayOne(room, t) == Encode(t).value
    decreases t, 0
  {
    if t.Node? && room > 4 {
      Fits(room - 4, t.children, |t.children|);
    }
  }

  lemma {:induction false} Fits(room: nat, ts: seq<Tree>, n: nat)
    requires room < 0x1_0000 && n <= |ts| && Small(ts)
    requires EncodeAll(ts, n).Some? && |EncodeAll(ts, n).value| <= room
    ensures Lay(room, ts, n) == EncodeAll(ts, n).value
    decreases ts, n
  {
    if n > 0 {
      Fits(room, ts, n - 1);
      FitsOne(room - |Lay(room, ts, n - 1)|, ts[n - 1]);
    }
  }

  /** Tag and length, with room for both. */
  method AddHead(w: PrimitiveTlv, tag: uint16, len: uint16)
    requires w.Valid() && w.EmptySize() >= 4
    modifies w`l, w`state, w`error, w.p
    ensures w.Valid() && w.l == old(w.l) + 4 && w.error == old(w.error)
    ensures w.Written() == old(w.Written()) + (Image2(tag) + Image2(len))
    ensures forall k :: 0 <= k < w.off + old(w.l) || w.off + w.l <= k < w.p.Length ==> w.p[k] == old(w.p[k])
  {
    ConcatAssociates(w.Written(), Image2(tag), Image2(len));
    var _ := w.AddWord(tag);
    var _ := w.AddWord(len);
  }

  /** The three calls that close a child. */
  method Close(w: PrimitiveTlv, tag: uint16, child: PrimitiveTlv, ghost body: seq<uint8>)
    requires w.Valid() && w.size < 0x1_0000 && child.Valid() && child != w && child.p == w.p
    requires w.EmptySize() > 4 && child.off == w.off + w.l + 4 && child.size == w.EmptySize() - 4
    requires child.Written() == body
    modifies w`l, w`state, w`error, w.p
    ensures w.Valid() && w.Written() == old(w.Written()) + Record(tag, body)
    ensures forall k :: 0 <= k < w.off + old(w.l) || w.off + w.l <= k < w.p.Length ==> w.p[k] == old(w.p[k])
    ensures w.error == old(w.error)
  {
    ghost var before := w.Written();
    var len := child.l;
    ConcatAssociates(before, Image2(tag) + Image2(len), body);
    AddHead(w, tag, len);
    assert w.off + w.l == child.off;
    assert w.p[child.off..child.off + len] == body;
    SliceConcat(w.p[..], w.off, child.off, child.off + len, w.Written(), body);
    ghost var all := w.p[w.off..child.off + len];
    assert all == before + Record(tag, body);
    var _ := w.Seek(len);
    assert w.off + w.l == child.off + len && w.Written() == all;
  }

  /** The same three calls where there was no room for a child. */
  method CloseNone(w: PrimitiveTlv, tag: uint16)
    requires w.Valid() && w.size < 0x1_0000 && w.EmptySize() <= 4
    modifies w`l, w`state, w`error, w.p
    ensures w.Valid()
    ensures w.Written() == old(w.Written())
         + (if old(w.EmptySize()) == 4 then Record(tag, []) else if old(w.EmptySize()) >= 2 then Image2(tag) else [])
    ensures forall k :: 0 <= k < w.off + old(w.l) || w.off + w.l <= k < w.p.Length ==> w.p[k] == old(w.p[k])
    ensures w.error == (old(w.error) || old(w.EmptySize()) < 4)
  {
    if w.EmptySize() == 4 {
      AddHead(w, tag, 0);
      assert Image2(tag) + Image2(0) == Record(tag, []);
    } else {
      AddShortHead(w, tag);
    }
    var _ := w.Seek(0);
  }

  /** Where the length does not fit, the tag alone is added, if that fits. */
  method AddShortHead(w: PrimitiveTlv, tag: uint16)
    requires w.Valid() && w.size < 0x1_0000 && w.EmptySize() < 4
    modifies w`l, w`state, w`error, w.p
    ensures w.Valid() && w.error
    ensures w.Written() == old(w.Written()) + if old(w.EmptySize()) >= 2 then Image2(tag) else []
    ensures forall k :: 0 <= k < w.off + old(w.l) || w.off + w.l <= k < w.p.Length ==> w.p[k] == old(w.p[k])
  {
    var _ := w.AddWord(tag);
    var _ := w.AddWord(0);
  }

  /** A child four bytes past the cursor; where there is no room for one, it stays a writer without a buffer. */
  method OpenChild(w: PrimitiveTlv) returns (child: PrimitiveTlv, ok: bool)
    requires w.Valid()
    ensures fresh(child) && child.Valid() && child.l == 0 && child.Written() == []
    ensures ok <==> w.EmptySize() > 4
    ensures ok ==> child.p == w.p && child.off == w.off + w.l + 4 && child.size == w.EmptySize() - 4
    ensures !ok ==> child.size == 0 && fresh(child.p)
  {
    child := new PrimitiveTlv();
    ok := child.Init(w.p, w.off + w.l, w.EmptySize(), 4);
  }

  /** Closes the child, if there was room for one. */
  method CloseChild(w: PrimitiveTlv, tag: uint16, child: PrimitiveTlv, ok: bool, ghost children: seq<Tree>)
    requires w.Valid() && w.size < 0x1_0000 && Small(children) && (ok <==> w.EmptySize() > 4)
    requires ok ==> child.Valid() && child != w && child.p == w.p && child.off == w.off + w.l + 4
    requires ok ==> child.size == w.EmptySize() - 4 && child.Written() == Lay(w.EmptySize() - 4, children, |children|)
    modifies w`l, w`state, w`error, w.p
    ensures w.Valid() && w.Written() == old(w.Written()) + LayOne(old(w.EmptySize()), Node(tag, children))
    ensures forall k :: 0 <= k < w.off + old(w.l) || w.off + w.l <= k < w.p.Length ==> w.p[k] == old(w.p[k])
  {
    if ok {
      Close(w, tag, child, Lay(w.EmptySize() - 4, children, |children|));
    } else {
      CloseNone(w, tag);
    }
  }

  /** One leaf, or one child with everything in it. */
  method WriteTree(w: PrimitiveTlv, t: Tree)
    requires w.Valid() && w.size < 0x1_0000 && SmallOne(t)
    modifies w`l, w`state, w`error, w.p
    ensures w.Valid()
    ensures w.Written() == old(w.Written()) + LayOne(old(w.EmptySize()), t)
    ensures forall k :: 0 <= k < w.off + old(w.l) || w.off + w.size <= k < w.p.Length ==> w.p[k] == old(w.p[k])
    decreases t, 0
  {
    match t
    case Leaf(tag, value) =>
      var _ := w.AddwTwLV(tag, value);
    case Node(tag, children) =>
      WriteNode(w, tag, children);
  }

  method WriteNode(w: PrimitiveTlv, tag: uint16, children: seq<Tree>)
    requires w.Valid() && w.size < 0x1_0000 && Small(children)
    modifies w`l, w`state, w`error, w.p
    ensures w.Valid()
    ensures w.Written() == old(w.Written()) + LayOne(old(w.EmptySize()), Node(tag, children))
    ensures forall k :: 0 <= k < w.off + old(w.l) || w.off + w.size <= k < w.p.Length ==> w.p[k] == old(w.p[k])
    decreases children, 2
  {
    var child, ok := OpenChild(w);
    ghost var before, room := w.Written(), w.EmptySize();
    WriteForest(child, children);
    assert w.Written() == before && w.EmptySize() == room;
    CloseChild(w, tag, child, ok, children);
  }

  /**
   Trees of any depth, written as the original nests two levels. Exactly `Lay` is appended, and nothing
   below the cursor or past this writer's part changes.
   */
  method WriteForest(w: PrimitiveTlv, ts: seq<Tree>)
    requires w.Valid() && w.size < 0x1_0000 && Small(ts)
    modifies w`l, w`state, w`error, w.p
    ensures w.Valid()
    ensures w.Written() == old(w.Written()) + Lay(old(w.EmptySize()), ts, |ts|)
    ensures forall k :: 0 <= k < w.off + old(w.l) || w.off + w.size <= k < w.p.Length ==> w.p[k] == old(w.p[k])
    decreases ts, 1
  {
    ghost var room, before := w.EmptySize(), w.Written();
    for i := 0 to |ts|
      invariant w.Valid()
      invariant w.Written() == before + Lay(room, ts, i)
      invariant forall k :: 0 <= k < w.off + old(w.l) || w.off + w.size <= k < w.p.Length ==> w.p[k] == old(w.p[k])
    {
      ConcatAssociates(before, Lay(room, ts, i), LayOne(room - |Lay(room, ts, i)|, ts[i]));
      WriteTree(w, ts[i]);
    }
  }
}
