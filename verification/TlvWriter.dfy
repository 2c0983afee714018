/**
 The append-only writer DPrimitveTLV of d-mon/dptlv.cpp. Several writers share one buffer: each owns the
 part that begins at `off`, and a child is laid out ahead of its parent's cursor.
 */
module TlvWriter {
  import opened Machine

  datatype WriterState = Empty | Ok | Error

  /** A record: 16-bit tag, 16-bit length, value. */
  function Record(tag: uint16, value: seq<uint8>): (r: seq<uint8>)
    requires |value| < 0x1_0000
    ensures |r| == 4 + |value|
  {
    Image2(tag) + Image2(|value|) + value
  }

  method Store(p: array<uint8>, at: nat, bytes: seq<uint8>)
    requires at + |bytes| <= p.Length
    modifies p
    ensures p[at..at + |bytes|] == bytes
    ensures forall k :: 0 <= k < at || at + |bytes| <= k < p.Length ==> p[k] == old(p[k])
  {
    forall k | at <= k < at + |bytes| {
      p[k] := bytes[k - at];
    }
    assert forall k :: at <= k < at + |bytes| ==> p[k] == bytes[k - at];
  }

  /** The 32-bit room test tells what fits if and only if its sum does not wrap; where it wraps, it passes. */
  lemma RoomTest(l: nat, size: uint32, n: nat)
    requires l <= size && n < TWO_TO_THE_32
    ensures ((l + n) % TWO_TO_THE_32 <= size <==> l + n <= size) <==> l + n < TWO_TO_THE_32
    ensures l + n >= TWO_TO_THE_32 ==> (l + n) % TWO_TO_THE_32 == l + n - TWO_TO_THE_32 < l
  {
  }

  /** A writer without a buffer (a null pointer in the original) is one of size 0; no call tells them apart. */
  class PrimitiveTlv {
    var p: array<uint8>
    var off: nat
    var l: nat
    var size: nat
    var state: WriterState
    var error: bool

    ghost predicate Valid()
      reads this
    {
      && l <= size < TWO_TO_THE_32
      && off + size <= p.Length
    }

    /** The bytes laid down so far. */
    ghost function Written(): (w: seq<uint8>)
      requires Valid()
      reads this, p
      ensures |w| == l
    {
      p[off..off + l]
    }

    function EmptySize(): (n: nat)
      requires Valid()
      reads this
    {
      size - l
    }

    constructor ()
      ensures Valid() && size == 0 && !error && fresh(p)
    {
      off, l, size, state, error := 0, 0, 0, Empty, false;
      p := new uint8[0];
    }

    constructor Over(data: array<uint8>, max_size: nat)
      requires max_size <= data.Length && max_size < TWO_TO_THE_32
      ensures Valid() && p == data && off == 0 && size == max_size && l == 0 && !error
    {
      p, off, l, size, error := data, 0, 0, max_size, false;
      state := if max_size > 0 then Empty else Error;
    }

    /** Takes over `max_size` bytes from `start`, less the first `shift`; refused, it stays as it is. */
    method Init(data: array?<uint8>, start: nat, max_size: nat, shift: nat) returns (ok: bool)
      requires Valid() && max_size < TWO_TO_THE_32
      requires data != null ==> start + max_size <= data.Length
      modifies this
      ensures Valid() && error == old(error)
      ensures ok <==> shift < max_size && data != null
      ensures ok ==> p == data && off == start + shift && size == max_size - shift && l == 0
      ensures shift >= max_size ==> p == old(p) && off == old(off) && size == old(size) && l == old(l)
      ensures shift < max_size && data == null ==> size == 0
    {
      if shift >= max_size {
        return false;
      }
      l := 0;
      if data != null && max_size != 0 {
        p, off, size := data, start + shift, max_size - shift;
        state := Empty;
        return true;
      } else {
        p, off, size := new uint8[0], 0, 0;
        state := Error;
        return false;
      }
    }

    method Fail()
      modifies this`state, this`error
      ensures state == Error && error
    {
      state, error := Error, true;
    }

    /** Moves over bytes somebody else laid down; the room test is computed in 32 bits. */
    method Seek(len: uint32) returns (ok: bool)
      requires Valid()
      modifies this`l, this`state, this`error
      ensures Valid()
      ensures ok <==> size > 0 && (old(l) + len) % TWO_TO_THE_32 <= size
      ensures l == if ok then (old(l) + len) % TWO_TO_THE_32 else old(l)
      ensures error == (old(error) || !ok)
    {
      if size == 0 || (l + len) % TWO_TO_THE_32 > size {
        Fail();
        return false;
      }
      l := (l + len) % TWO_TO_THE_32;
      state := Ok;
      return true;
    }

    /** Leaves room for a header; its place, or nothing. */
    method SetHeader(len: uint32) returns (place: Option<nat>)
      requires Valid()
      modifies this`l, this`state, this`error
      ensures Valid()
      ensures place.Some? <==> size > 0 && (old(l) + len) % TWO_TO_THE_32 <= size
      ensures place.Some? ==> place.value == off + old(l)
      ensures l == if place.Some? then (old(l) + len) % TWO_TO_THE_32 else old(l)
      ensures error == (old(error) || place.None?)
    {
      if size == 0 || (l + len) % TWO_TO_THE_32 > size {
        Fail();
        return None;
      }
      place := Some(off + l);
      l := (l + len) % TWO_TO_THE_32;
    }

    /**
     The bytes an append of `n` bytes writes are memory. Up to the end of this writer's part that goes without
     saying; past it the test of the original passes only where `l + n` wraps.
     */
    predicate InMemory(n: nat)
      reads this
    {
      l + n < TWO_TO_THE_32 || off + l + n <= p.Length
    }

    /** What every successful append does. */
    method Put(bytes: seq<uint8>)
      requires Valid() && l + |bytes| <= size
      modifies this`l, p
      ensures Valid() && Written() == old(Written()) + bytes
      ensures forall k :: 0 <= k < off + old(l) || off + l <= k < p.Length ==> p[k] == old(p[k])
    {
      ghost var before := Written();
      Store(p, off + l, bytes);
      assert p[off..off + l] == before;
      SliceConcat(p[..], off, off + l, off + l + |bytes|, before, bytes);
      l := l + |bytes|;
    }

    /** The same wherever the 32-bit sum leads; where it wraps, the bytes are written past this writer's part. */
    method PutWrapping(bytes: seq<uint8>)
      requires Valid() && off + l + |bytes| <= p.Length && (l + |bytes|) % TWO_TO_THE_32 <= size
      modifies this`l, p
      ensures Valid() && l == (old(l) + |bytes|) % TWO_TO_THE_32
      ensures p[off + old(l)..off + old(l) + |bytes|] == bytes
      ensures old(l) + |bytes| < TWO_TO_THE_32 ==> Written() == old(Written()) + bytes
      ensures forall k :: 0 <= k < off + old(l) || off + old(l) + |bytes| <= k < p.Length ==> p[k] == old(p[k])
    {
      ghost var before := Written();
      Store(p, off + l, bytes);
      assert p[off..off + l] == before;
      SliceConcat(p[..], off, off + l, off + l + |bytes|, before, bytes);
      l := (l + |bytes|) % TWO_TO_THE_32;
    }

    /** AddWord, AddDword and AddBin: one 32-bit room test, then the bytes. */
    method Append(bytes: seq<uint8>) returns (ok: bool)
      requires Valid() && |bytes| < TWO_TO_THE_32 && InMemory(|bytes|)
      modifies this`l, this`state, this`error, p
      ensures Valid() && error == (old(error) || !ok)
      ensures ok <==> size > 0 && (old(l) + |bytes|) % TWO_TO_THE_32 <= size
      ensures l == if ok then (old(l) + |bytes|) % TWO_TO_THE_32 else old(l)
      ensures ok ==> off + old(l) + |bytes| <= p.Length && p[off + old(l)..off + old(l) + |bytes|] == bytes
      ensures old(l) + |bytes| < TWO_TO_THE_32 ==> Written() == if ok then old(Written()) + bytes else old(Written())
      ensures forall k :: 0 <= k < p.Length && (!ok || k < off + old(l) || off + old(l) + |bytes| <= k) ==> p[k] == old(p[k])
    {
      RoomTest(l, size, |bytes|);
      if size == 0 || (l + |bytes|) % TWO_TO_THE_32 > size {
        Fail();
        return false;
      }
      PutWrapping(bytes);
      state := Ok;
      return true;
    }

    method AddWord(value: uint16) returns (ok: bool)
      requires Valid() && InMemory(2)
      modifies this`l, this`state, this`error, p
      ensures Valid() && error == (old(error) || !ok)
      ensures ok <==> size > 0 && (old(l) + 2) % TWO_TO_THE_32 <= size
      ensures l == if ok then (old(l) + 2) % TWO_TO_THE_32 else old(l)
      ensures ok ==> off + old(l) + 2 <= p.Length && p[off + old(l)..off + old(l) + 2] == Image2(value)
      ensures old(l) + 2 < TWO_TO_THE_32 ==> Written() == if ok then old(Written()) + Image2(value) else old(Written())
      ensures forall k :: 0 <= k < p.Length && (!ok || k < off + old(l) || off + old(l) + 2 <= k) ==> p[k] == old(p[k])
    {
      ok := Append(Image2(value));
    }

    method AddDword(value: uint32) returns (ok: bool)
      requires Valid() && InMemory(4)
      modifies this`l, this`state, this`error, p
      ensures Valid() && error == (old(error) || !ok)
      ensures ok <==> size > 0 && (old(l) + 4) % TWO_TO_THE_32 <= size
      ensures l == if ok then (old(l) + 4) % TWO_TO_THE_32 else old(l)
      ensures ok ==> off + old(l) + 4 <= p.Length && p[off + old(l)..off + old(l) + 4] == Image4(value)
      ensures old(l) + 4 < TWO_TO_THE_32 ==> Written() == if ok then old(Written()) + Image4(value) else old(Written())
      ensures forall k :: 0 <= k < p.Length && (!ok || k < off + old(l) || off + old(l) + 4 <= k) ==> p[k] == old(p[k])
    {
      ok := Append(Image4(value));
    }

    method AddBin(value: seq<uint8>) returns (ok: bool)
      requires Valid() && |value| < TWO_TO_THE_32 && InMemory(|value|)
      modifies this`l, this`state, this`error, p
      ensures Valid() && error == (old(error) || !ok)
      ensures ok <==> size > 0 && (old(l) + |value|) % TWO_TO_THE_32 <= size
      ensures l == if ok then (old(l) + |value|) % TWO_TO_THE_32 else old(l)
      ensures ok ==> off + old(l) + |value| <= p.Length && p[off + old(l)..off + old(l) + |value|] == value
      ensures old(l) + |value| < TWO_TO_THE_32 ==> Written() == if ok then old(Written()) + value else old(Written())
      ensures forall k :: 0 <= k < p.Length && (!ok || k < off + old(l) || off + old(l) + |value| <= k) ==> p[k] == old(p[k])
    {
      ok := Append(value);
    }

    method PutHead(tag: uint16, len: uint16)
      requires Valid() && l + 4 <= size
      modifies this`l, p
      ensures Valid() && Written() == old(Written()) + (Image2(tag) + Image2(len))
      ensures forall k :: 0 <= k < off + old(l) || off + l <= k < p.Length ==> p[k] == old(p[k])
    {
      ConcatAssociates(Written(), Image2(tag), Image2(len));
      Put(Image2(tag));
      Put(Image2(len));
    }

    /** A whole record or nothing. */
    method AddwTwLV(tag: uint16, value: seq<uint8>) returns (ok: bool)
      requires Valid() && |value| < 0x1_0000
      modifies this`l, this`state, this`error, p
      ensures Valid()
      ensures ok <==> old(EmptySize()) >= 4 + |value|
      ensures Written() == if ok then old(Written()) + Record(tag, value) else old(Written())
      ensures forall k :: 0 <= k < off + old(l) || off + l <= k < p.Length ==> p[k] == old(p[k])
      ensures error == (old(error) || !ok)
    {
      if l + 4 + |value| > size {
        Fail();
        return false;
      }
      ghost var before := Written();
      ConcatAssociates(before, Image2(tag) + Image2(|value|), value);
      PutHead(tag, |value|);
      if |value| > 0 {
        Put(value);
      }
      state := Ok;
      return true;
    }
  }
}
