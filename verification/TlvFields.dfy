/** Messages of strings: leaves appended one after another, each under a 16-bit length. */
module TlvFields {
  import opened Machine
  import opened TlvWriter
  import opened TlvNesting

  /** A string as the 16-bit length argument lets it through. */
  function Field(s: Bytes): (v: Bytes)
    ensures |v| < 0x1_0000
    ensures v == s <==> |s| < 0x1_0000
  {
    s[..|s| % 0x1_0000]
  }

  /** What is lost of a string is a multiple of 65536 bytes, at its end. */
  lemma FieldIsCast(s: Bytes)
    ensures Field(s) <= s && (|s| - |Field(s)|) % 0x1_0000 == 0
  {
  }

  function When(present: bool, tag: uint16, s: Bytes): seq<Tree> {
    if present then [Leaf(tag, Field(s))] else []
  }

  function Optional(tag: uint16, s: Bytes): seq<Tree> {
    When(|s| > 0, tag, s)
  }

  /** The header of every message: version 0, service, command and request id. */
  function Header(service: uint8, command: uint16, reqId: uint32): (h: Bytes)
    ensures |h| == 8
  {
    [0, service] + Image2(command) + Image4(reqId)
  }

  datatype Heading = Heading(service: uint8, command: uint16, reqId: uint32)

  /** What BinStream takes a message for: eight bytes, of which the first is not looked at. */
  function ReadHeader(msg: Bytes): Option<Heading> {
    if |msg| < 8 then None else Some(Heading(msg[1], msg[2] + 0x100 * msg[3] as int, Value4(msg[4..8])))
  }

  /** A message is taken for what its header was made of, and its body is what follows. */
  lemma HeaderReadsBack(service: uint8, command: uint16, reqId: uint32, body: Bytes)
    ensures var msg := Header(service, command, reqId) + body;
            ReadHeader(msg) == Some(Heading(service, command, reqId)) && msg[8..] == body
  {
    var msg := Header(service, command, reqId) + body;
    assert msg[4..8] == Image4(reqId);
    Image4Inverts(reqId, []);
  }

  method BeginMessage(size: nat, service: uint8, command: uint16, reqId: uint32) returns (msg: PrimitiveTlv)
    requires 8 <= size < 0x1_0000
    ensures fresh(msg) && fresh(msg.p) && msg.Valid() && msg.off == 0 && msg.size == size
    ensures msg.Written() == Header(service, command, reqId) && msg.EmptySize() == size - 8
  {
    var data := new uint8[size];
    msg := new PrimitiveTlv.Over(data, size);
    var place := msg.SetHeader(8);
    var header := Header(service, command, reqId);
    assert place.value == 0 && msg.l == |header| == 8;
    Store(msg.p, place.value, header);
  }

  lemma {:induction false} LayPrefix(room: nat, a: seq<Tree>, b: seq<Tree>, n: nat)
    requires room < 0x1_0000 && Small(a) && Small(b) && n <= |a| && n <= |b|
    requires forall i :: 0 <= i < n ==> a[i] == b[i]
    ensures Lay(room, a, n) == Lay(room, b, n)
    decreases n
  {
    if n > 0 {
      LayPrefix(room, a, b, n - 1);
    }
  }

  lemma SmallSnoc(ts: seq<Tree>, t: Tree)
    requires Small(ts) && SmallOne(t)
    ensures Small(ts + [t])
  {
  }

  lemma LaySnoc(room: nat, ts: seq<Tree>, t: Tree)
    requires room < 0x1_0000 && Small(ts) && SmallOne(t)
    ensures Small(ts + [t])
    ensures var before := Lay(room, ts, |ts|);
            Lay(room, ts + [t], |ts| + 1) == before + LayOne(room - |before|, t)
  {
    SmallSnoc(ts, t);
    LayPrefix(room, ts, ts + [t], |ts|);
  }

  lemma Appended(room: nat, base: Bytes, ts: seq<Tree>, t: Tree)
    requires room < 0x1_0000 && Small(ts) && SmallOne(t)
    ensures Small(ts + [t])
    ensures var before := Lay(room, ts, |ts|); var one := LayOne(room - |before|, t);
            && base + Lay(room, ts + [t], |ts + [t]|) == base + before + one
            && |Lay(room, ts + [t], |ts + [t]|)| == |before| + |one|
  {
    LaySnoc(room, ts, t);
    ConcatAssociates(base, Lay(room, ts, |ts|), LayOne(room - |Lay(room, ts, |ts|)|, t));
  }

  /** The writer has laid down `base` and then the trees `ts`. */
  ghost predicate Laid(w: PrimitiveTlv, room: nat, base: Bytes, ts: seq<Tree>)
    reads w, w.p
  {
    && w.Valid() && room < 0x1_0000 && Small(ts)
    && w.Written() == base + Lay(room, ts, |ts|)
    && w.EmptySize() == room - |Lay(room, ts, |ts|)|
  }

  method AddField(w: PrimitiveTlv, tag: uint16, s: Bytes, ghost room: nat, ghost base: Bytes, ghost ts: seq<Tree>)
    requires Laid(w, room, base, ts)
    modifies w`l, w`state, w`error, w.p
    ensures Laid(w, room, base, ts + [Leaf(tag, Field(s))]) && w.l >= old(w.l)
    ensures forall k :: 0 <= k < w.off + old(w.l) || w.off + w.l <= k < w.p.Length ==> w.p[k] == old(w.p[k])
  {
    ghost var t := Leaf(tag, Field(s));
    ghost var before, one := Lay(room, ts, |ts|), LayOne(w.EmptySize(), t);
    assert Small(ts + [t]) && base + Lay(room, ts + [t], |ts + [t]|) == base + before + one
           && |Lay(room, ts + [t], |ts + [t]|)| == |before| + |one| by {
      Appended(room, base, ts, t);
    }
    var ok := w.AddwTwLV(tag, Field(s));
    assert one == if ok then Record(tag, Field(s)) else [];
    assert w.Written() == base + before + one && w.EmptySize() == room - (|before| + |one|);
  }

  method AddWhen(w: PrimitiveTlv, present: bool, tag: uint16, s: Bytes,
                 ghost room: nat, ghost base: Bytes, ghost ts: seq<Tree>)
    requires Laid(w, room, base, ts)
    modifies w`l, w`state, w`error, w.p
    ensures Laid(w, room, base, ts + When(present, tag, s)) && w.l >= old(w.l)
    ensures forall k :: 0 <= k < w.off + old(w.l) || w.off + w.l <= k < w.p.Length ==> w.p[k] == old(w.p[k])
  {
    if present {
      AddField(w, tag, s, room, base, ts);
    } else {
      assert ts + [] == ts;
    }
  }
}
