/**
 The contact list on the wire: OnRequest_CS_PutContacts builds it two levels deep, and
 OnCS_GetProfileRsp_Rsp_Contacts reads it, of plib/plib/ClientImpl.cpp.
 */
module Contacts {
  import opened Machine
  import opened TlvWriter
  import opened TlvNesting
  import opened TlvFields

  datatype Contact = Contact(num: Bytes, rnum: Bytes, name: Bytes, fname: Bytes, lname: Bytes, avatar: Bytes,
                             messenger: bool, hindex: nat)

  // PAPI_ParamCS_Contact
  const NUM := 0
  const NAME := 1
  const FNAME := 2
  const LNAME := 3
  const AVATAR := 4
  const MESSENGER := 5
  const HINDEX := 6
  const RNUM := 7
  const CONTACT_MAX := 8
  // PAPI_ParamCS_Contacts
  const LAST := 1
  const CONTACT := 2
  // PAPI_ParamCS
  const NUM_OWN := 1
  const RSP := 0
  const CONTACTS := 5
  const CS_MAX := 9

  // PAPI_Service and PAPI_ComCS
  const SERVICE := 4
  const PUT_CONTACTS_REQ := 1

  const MESSAGE_SIZE := 65535

  // Writing.

  function Leaves(c: Contact): (ts: seq<Tree>)
    ensures Small(ts)
  {
    [Leaf(NUM, Field(c.num))] + Optional(NAME, c.name) + Optional(FNAME, c.fname) + Optional(LNAME, c.lname)
  }

  /** The first `n` contacts as trees. */
  function ContactTrees(cs: seq<Contact>, n: nat): (ts: seq<Tree>)
    requires n <= |cs|
    ensures |ts| == n && Small(ts)
    ensures forall i :: 0 <= i < n ==> ts[i] == Node(CONTACT, Leaves(cs[i]))
  {
    if n == 0 then [] else ContactTrees(cs, n - 1) + [Node(CONTACT, Leaves(cs[n - 1]))]
  }

  function MessageTrees(number: Bytes, cs: seq<Contact>): (ts: seq<Tree>)
    ensures |ts| == 2 && Small(ts)
  {
    [Leaf(NUM_OWN, Field(number)), Node(CONTACTS, ContactTrees(cs, |cs|))]
  }

  method AddFields(w: PrimitiveTlv, c: Contact)
    requires w.Valid() && w.size < 0x1_0000
    modifies w`l, w`state, w`error, w.p
    ensures Laid(w, old(w.EmptySize()), old(w.Written()), Leaves(c)) && w.l >= old(w.l)
    ensures forall k :: 0 <= k < w.off + old(w.l) || w.off + w.l <= k < w.p.Length ==> w.p[k] == old(w.p[k])
  {
    ghost var room, base := w.EmptySize(), w.Written();
    ghost var t0: seq<Tree> := [Leaf(NUM, Field(c.num))];
    assert base + [] == base && [] + t0 == t0;
    AddField(w, NUM, c.num, room, base, []);
    ghost var t1 := t0 + Optional(NAME, c.name);
    AddWhen(w, |c.name| > 0, NAME, c.name, room, base, t0);
    ghost var t2 := t1 + Optional(FNAME, c.fname);
    AddWhen(w, |c.fname| > 0, FNAME, c.fname, room, base, t1);
    AddWhen(w, |c.lname| > 0, LNAME, c.lname, room, base, t2);
  }

  /** One contact: a child ahead of the cursor, its fields, and the three calls that close it. */
  method AddContact(w: PrimitiveTlv, c: Contact, ghost t: Tree)
    requires w.Valid() && w.size < 0x1_0000 && t == Node(CONTACT, Leaves(c)) && SmallOne(t)
    modifies w`l, w`state, w`error, w.p
    ensures w.Valid()
    ensures w.Written() == old(w.Written()) + LayOne(old(w.EmptySize()), t)
    ensures forall k :: 0 <= k < w.off + old(w.l) || w.off + w.size <= k < w.p.Length ==> w.p[k] == old(w.p[k])
  {
    var cdata, ok := OpenChild(w);
    ghost var before, room := w.Written(), w.EmptySize();
    AddFields(cdata, c);
    assert w.Written() == before && w.EmptySize() == room;
    CloseChild(w, CONTACT, cdata, ok, Leaves(c));
  }

  lemma LayNext(base: Bytes, room: nat, ts: seq<Tree>, i: nat)
    requires room < 0x1_0000 && i < |ts| && Small(ts)
    ensures var done := Lay(room, ts, i);
            base + Lay(room, ts, i + 1) == base + done + LayOne(room - |done|, ts[i])
  {
  }

  method AddNext(w: PrimitiveTlv, c: Contact, ghost room: nat, ghost base: Bytes, ghost ts: seq<Tree>, ghost i: nat)
    requires w.Valid() && w.size < 0x1_0000 && w.size == |base| + room
    requires i < |ts| && Small(ts) && ts[i] == Node(CONTACT, Leaves(c)) && w.Written() == base + Lay(room, ts, i)
    modifies w`l, w`state, w`error, w.p
    ensures w.Valid() && w.Written() == base + Lay(room, ts, i + 1)
    ensures forall k :: 0 <= k < w.off + old(w.l) || w.off + w.size <= k < w.p.Length ==> w.p[k] == old(w.p[k])
  {
    LayNext(base, room, ts, i);
    AddContact(w, c, ts[i]);
  }

  method AddContacts(w: PrimitiveTlv, cs: seq<Contact>, ghost ts: seq<Tree>)
    requires w.Valid() && w.size < 0x1_0000 && |ts| == |cs| && Small(ts)
    requires forall i :: 0 <= i < |cs| ==> ts[i] == Node(CONTACT, Leaves(cs[i]))
    modifies w`l, w`state, w`error, w.p
    ensures w.Valid()
    ensures w.Written() == old(w.Written()) + Lay(old(w.EmptySize()), ts, |ts|)
    ensures forall k :: 0 <= k < w.off + old(w.l) || w.off + w.size <= k < w.p.Length ==> w.p[k] == old(w.p[k])
  {
    ghost var room, base := w.EmptySize(), w.Written();
    assert base + [] == base;
    for i := 0 to |cs|
      invariant w.Valid() && w.off + old(w.l) <= w.off + w.l
      invariant w.Written() == base + Lay(room, ts, i)
      invariant forall k :: 0 <= k < w.off + old(w.l) || w.off + w.size <= k < w.p.Length ==> w.p[k] == old(w.p[k])
    {
      AddNext(w, cs[i], room, base, ts, i);
    }
  }

  /** The whole message, as it is handed to the stream. */
  method PutContacts(reqId: uint32, number: Bytes, contacts: seq<Contact>) returns (message: Bytes)
    ensures message == Header(SERVICE, PUT_CONTACTS_REQ, reqId) + Lay(MESSAGE_SIZE - 8, MessageTrees(number, contacts), 2)
  {
    var msg := BeginMessage(MESSAGE_SIZE, SERVICE, PUT_CONTACTS_REQ, reqId);
    ghost var room, h, ts := MESSAGE_SIZE - 8, Header(SERVICE, PUT_CONTACTS_REQ, reqId), MessageTrees(number, contacts);
    AddNumber(msg, number, room, h, ts);
    assert ts[1] == Node(CONTACTS, ContactTrees(contacts, |contacts|));
    ConcatAssociates(h, Lay(room, ts, 1), LayOne(msg.EmptySize(), ts[1]));
    AddContactsRecord(msg, contacts, ContactTrees(contacts, |contacts|));
    message := msg.p[..msg.l];
  }

  method AddNumber(msg: PrimitiveTlv, number: Bytes, ghost room: nat, ghost h: Bytes, ghost ts: seq<Tree>)
    requires msg.Valid() && msg.EmptySize() == room < 0x1_0000 && msg.Written() == h
    requires Small(ts) && |ts| > 0 && ts[0] == Leaf(NUM_OWN, Field(number))
    modifies msg`l, msg`state, msg`error, msg.p
    ensures msg.Valid() && msg.Written() == h + Lay(room, ts, 1)
  {
    assert Lay(room, ts, 0) == [];
    assert [] + LayOne(room, ts[0]) == LayOne(room, ts[0]);
    var _ := msg.AddwTwLV(NUM_OWN, Field(number));
  }

  /** The list: a child with the contacts in it, closed like each of them. */
  method AddContactsRecord(w: PrimitiveTlv, cs: seq<Contact>, ghost ts: seq<Tree>)
    requires w.Valid() && w.size < 0x1_0000 && |ts| == |cs| && Small(ts)
    requires forall i :: 0 <= i < |cs| ==> ts[i] == Node(CONTACT, Leaves(cs[i]))
    modifies w`l, w`state, w`error, w.p
    ensures w.Valid()
    ensures w.Written() == old(w.Written()) + LayOne(old(w.EmptySize()), Node(CONTACTS, ts))
  {
    var data, ok := LayContacts(w, cs, ts);
    CloseChild(w, CONTACTS, data, ok, ts);
  }

  /** The contacts laid ahead of the cursor; what is below it stays. */
  method LayContacts(w: PrimitiveTlv, cs: seq<Contact>, ghost ts: seq<Tree>) returns (data: PrimitiveTlv, ok: bool)
    requires w.Valid() && w.size < 0x1_0000 && |ts| == |cs| && Small(ts)
    requires forall i :: 0 <= i < |cs| ==> ts[i] == Node(CONTACT, Leaves(cs[i]))
    modifies w.p
    ensures w.Valid() && w.Written() == old(w.Written()) && data != w && (ok <==> w.EmptySize() > 4)
    ensures ok ==> data.Valid() && data.p == w.p && data.off == w.off + w.l + 4 && data.size == w.EmptySize() - 4
    ensures ok ==> data.Written() == Lay(w.EmptySize() - 4, ts, |ts|)
  {
    data, ok := OpenChild(w);
    AddContacts(data, cs, ts);
    assert w.Written() == old(w.Written());
  }
}
