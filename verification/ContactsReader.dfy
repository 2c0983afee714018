/** Reading contacts back, and the round trip. */
module ContactsReader {
  import opened Machine
  import opened TlvNesting
  import opened TlvReader
  import opened TlvEncoding
  import opened TlvFields
  import opened Contacts

  function ContactOf(body: Bytes): Contact {
    Contact(
      Value(body, NUM), Value(body, RNUM), Value(body, NAME), Value(body, FNAME), Value(body, LNAME), Value(body, AVATAR),
      |Value(body, MESSENGER)| > 0 && Value(body, MESSENGER)[0] != 0,
      if |Value(body, HINDEX)| == 8 then Le(Value(body, HINDEX), 0, 8) else 0)
  }

  method Assign(table: array<Param>, tag: nat, body: Bytes) returns (s: Bytes)
    requires tag < table.Length && table[tag] == Parsed(WORDS, body, tag, CLEAR)
    ensures s == Value(body, tag)
  {
    RecordsApart(WORDS, body, 0);
    LastIsGreatest(Records(WORDS, body, 0), |Records(WORDS, body, 0)|, tag);
    var p := table[tag];
    s := if p.msg.Some? then body[p.msg.value..p.msg.value + p.len] else [];
  }

  method ReadContact(body: Bytes) returns (c: Contact)
    ensures c == ContactOf(body)
  {
    var table := new Param[CONTACT_MAX](i => CLEAR);
    var _ := Parse(WORDS, table, Some(body));
    var num := Assign(table, NUM, body);
    var rnum := Assign(table, RNUM, body);
    var name := Assign(table, NAME, body);
    var fname := Assign(table, FNAME, body);
    var lname := Assign(table, LNAME, body);
    var avatar := Assign(table, AVATAR, body);
    var messenger := Assign(table, MESSENGER, body);
    var hindex := Assign(table, HINDEX, body);
    c := Contact(num, rnum, name, fname, lname, avatar, |messenger| > 0 && messenger[0] != 0,
                 if |hindex| == 8 then Le(hindex, 0, 8) else 0);
  }

  /** The contacts among the first `n` records, in order, each as `of` reads it. */
  function Collect(of: Bytes -> Contact, msg: Bytes, rs: seq<Rec>, n: nat): seq<Contact>
    requires n <= |rs|
  {
    if n == 0 then []
    else if rs[n - 1].tag == CONTACT then Collect(of, msg, rs, n - 1) + [of(Slice(msg, rs[n - 1]))]
    else Collect(of, msg, rs, n - 1)
  }

  /** The flag of the last record `last` that is not empty. */
  function Flag(msg: Bytes, rs: seq<Rec>, n: nat, before: bool): bool
    requires n <= |rs|
  {
    if n == 0 then before
    else
      var s := Slice(msg, rs[n - 1]);
      if rs[n - 1].tag == LAST && |s| > 0 then s[0] != 0 else Flag(msg, rs, n - 1, before)
  }

  /** How many of the first `n` records are contacts. */
  function Count(rs: seq<Rec>, n: nat): nat
    requires n <= |rs|
  {
    if n == 0 then 0 else Count(rs, n - 1) + if rs[n - 1].tag == CONTACT then 1 else 0
  }

  lemma {:induction false} CollectCount(of: Bytes -> Contact, msg: Bytes, rs: seq<Rec>, n: nat)
    requires n <= |rs|
    ensures |Collect(of, msg, rs, n)| == Count(rs, n)
  {
    if n > 0 {
      CollectCount(of, msg, rs, n - 1);
    }
  }

  /** Whatever other records are between them, each contact record gives one contact, in the order of the records. */
  lemma {:induction false} EachIsCollected(of: Bytes -> Contact, msg: Bytes, rs: seq<Rec>, n: nat, k: nat)
    requires k < n <= |rs| && rs[k].tag == CONTACT
    ensures var cs := Collect(of, msg, rs, n);
            |cs| == Count(rs, n) && Count(rs, k) < |cs| && cs[Count(rs, k)] == of(Slice(msg, rs[k]))
    decreases n
  {
    CollectCount(of, msg, rs, n - 1);
    if k < n - 1 {
      EachIsCollected(of, msg, rs, n - 1, k);
    }
  }

  predicate Flags(msg: Bytes, r: Rec) {
    r.tag == LAST && |Slice(msg, r)| > 0
  }

  /** The flag is that of the last flag record that is not empty, here record `k - 1`, or what it was before. */
  lemma {:induction false} FlagIsLast(msg: Bytes, rs: seq<Rec>, n: nat, before: bool, k: nat)
    requires k <= n <= |rs| && (k > 0 ==> Flags(msg, rs[k - 1])) && forall j :: k <= j < n ==> !Flags(msg, rs[j])
    ensures Flag(msg, rs, n, before) == if k > 0 then Slice(msg, rs[k - 1])[0] != 0 else before
    decreases n
  {
    if n > k {
      FlagIsLast(msg, rs, n - 1, before, k);
    }
  }

  /** The cases of the loop. */
  method ReadRecord(tag: nat, value: Bytes, before: seq<Contact>, flag: bool) returns (contacts: seq<Contact>, last: bool)
    ensures contacts == if tag == CONTACT then before + [ContactOf(value)] else before
    ensures last == if tag == LAST && |value| > 0 then value[0] != 0 else flag
  {
    contacts, last := before, flag;
    if tag == CONTACT {
      var c := ReadContact(value);
      contacts := contacts + [c];
    } else if tag == LAST {
      if |value| > 0 {
        last := value[0] != 0;
      }
    }
  }

  method ReadContacts(msg: Bytes, before: bool) returns (contacts: seq<Contact>, last: bool)
    ensures var rs := Records(WORDS, msg, 0);
            contacts == Collect(ContactOf, msg, rs, |rs|) && last == Flag(msg, rs, |rs|, before)
  {
    contacts, last := [], before;
    var pos := 0;
    ghost var rs, n := Records(WORDS, msg, 0), 0;
    assert rs[0..] == rs;
    while |msg| - pos > 0
      invariant pos <= |msg| && n <= |rs| && rs[n..] == Records(WORDS, msg, pos)
      invariant contacts == Collect(ContactOf, msg, rs, n) && last == Flag(msg, rs, n, before)
      decreases |msg| - pos
    {
      NextOfRecords(WORDS, msg, rs, n, pos);
      if |msg| - pos < 4 {
        break;
      }
      var r := ReadHead(WORDS, msg, pos);
      if r.None? {
        break;
      }
      var value := msg[r.value.start..r.value.start + r.value.len];
      assert rs[n] == r.value && Slice(msg, rs[n]) == value;
      contacts, last := ReadRecord(r.value.tag, value, contacts, last);
      pos, n := r.value.start + r.value.len, n + 1;
    }
    NextOfRecords(WORDS, msg, rs, n, pos);
  }

  /** What the reader of a message body makes of its contacts record, if that is not empty. */
  function ReadMessage(body: Bytes): seq<Contact> {
    var list := Value(body, CONTACTS);
    Collect(ContactOf, list, Records(WORDS, list, 0), |Records(WORDS, list, 0)|)
  }

  /** The result and, if the message has one that is not empty, the list with its flag. */
  method ReadMessageBody(body: Bytes) returns (rsp: uint16, contacts: seq<Contact>, last: bool)
    ensures rsp == if |Value(body, RSP)| == 2 then Value2(Value(body, RSP)) else 0xffff
    ensures contacts == ReadMessage(body)
    ensures var list := Value(body, CONTACTS); var rs := Records(WORDS, list, 0); last == Flag(list, rs, |rs|, false)
  {
    rsp, contacts, last := 0xffff, [], false;
    var table := new Param[CS_MAX](i => CLEAR);
    var _ := Parse(WORDS, table, Some(body));
    var result := Assign(table, RSP, body);
    if |result| == 2 {
      rsp := Value2(result);
    }
    var list := Assign(table, CONTACTS, body);
    if |list| > 0 {
      contacts, last := ReadContacts(list, last);
    }
  }

  // The round trip.

  /** What survives of a contact: four strings, each as its 16-bit length lets it through. */
  function Kept(c: Contact): Contact {
    Contact(Field(c.num), [], Field(c.name), Field(c.fname), Field(c.lname), [], false, 0)
  }

  function KeptAll(cs: seq<Contact>, n: nat): (ks: seq<Contact>)
    requires n <= |cs|
    ensures |ks| == n && forall i :: 0 <= i < n ==> ks[i] == Kept(cs[i])
  {
    if n == 0 then [] else KeptAll(cs, n - 1) + [Kept(cs[n - 1])]
  }

  lemma SoughtOptional(ts: seq<Tree>, t: uint16, s: Bytes, tag: nat)
    ensures Sought(ts + Optional(t, s), |ts + Optional(t, s)|, tag)
         == if |s| > 0 && tag == t then Some(Field(s)) else Sought(ts, |ts|, tag)
  {
    SoughtSnoc(ts, Optional(t, s), tag);
  }

  /** What a contact's encoding has for a tag: the number always, the names where they are not empty, and no more. */
  function FieldOf(c: Contact, tag: nat): Option<Bytes> {
    if tag == NUM then Some(Field(c.num))
    else if tag == NAME && c.name != [] then Some(Field(c.name))
    else if tag == FNAME && c.fname != [] then Some(Field(c.fname))
    else if tag == LNAME && c.lname != [] then Some(Field(c.lname))
    else None
  }

  lemma SoughtField(c: Contact, tag: nat)
    ensures Sought(Leaves(c), |Leaves(c)|, tag) == FieldOf(c, tag)
  {
    var t0: seq<Tree> := [Leaf(NUM, Field(c.num))];
    var t1 := t0 + Optional(NAME, c.name);
    var t2 := t1 + Optional(FNAME, c.fname);
    assert Sought(t0, 1, tag) == if tag == NUM then Some(Field(c.num)) else None;
    SoughtOptional(t0, NAME, c.name, tag);
    SoughtOptional(t1, FNAME, c.fname, tag);
    SoughtOptional(t2, LNAME, c.lname, tag);
  }

  lemma FieldReadsBack(c: Contact, tag: nat)
    ensures EncodeAll(Leaves(c), |Leaves(c)|).Some?
    ensures Find(EncodeAll(Leaves(c), |Leaves(c)|).value, tag) == FieldOf(c, tag)
  {
    var ts := Leaves(c);
    LeavesEncode(ts, |ts|);
    ValueOfEncoding(ts, tag);
    SoughtField(c, tag);
  }

  lemma ContactReadsBack(c: Contact)
    ensures EncodeAll(Leaves(c), |Leaves(c)|).Some?
    ensures ContactOf(EncodeAll(Leaves(c), |Leaves(c)|).value) == Kept(c)
  {
    FieldReadsBack(c, NUM);
    FieldReadsBack(c, RNUM);
    FieldReadsBack(c, NAME);
    FieldReadsBack(c, FNAME);
    FieldReadsBack(c, LNAME);
    FieldReadsBack(c, AVATAR);
    FieldReadsBack(c, MESSENGER);
    FieldReadsBack(c, HINDEX);
  }

  ghost predicate ReadsAsContact(of: Bytes -> Contact, t: Tree, c: Contact) {
    t.tag == CONTACT && of(Payload(t)) == c
  }

  lemma {:induction false} CollectReadsBack(of: Bytes -> Contact, e: Bytes, rs: seq<Rec>, ts: seq<Tree>, cs: seq<Contact>, n: nat)
    requires n <= |cs| <= |ts| && ReadsAs(e, rs, ts, |ts|)
    requires forall i :: 0 <= i < |cs| ==> ReadsAsContact(of, ts[i], cs[i])
    ensures Collect(of, e, rs, n) == cs[..n]
    decreases n
  {
    if n > 0 {
      CollectReadsBack(of, e, rs, ts, cs, n - 1);
      assert ReadsAsOne(e, rs[n - 1], ts[n - 1]) && ReadsAsContact(of, ts[n - 1], cs[n - 1]);
      assert cs[..n] == cs[..n - 1] + [cs[n - 1]];
    }
  }

  /** Whatever list of contacts fits is read back, in order, with exactly the kept fields, beside the own number. */
  lemma ContactsRoundTrip(number: Bytes, cs: seq<Contact>)
    requires var ts := MessageTrees(number, cs);
             EncodeAll(ts, 2).Some? && |EncodeAll(ts, 2).value| <= MESSAGE_SIZE - 8
    ensures var body := Lay(MESSAGE_SIZE - 8, MessageTrees(number, cs), 2);
            ReadMessage(body) == KeptAll(cs, |cs|) && Value(body, NUM_OWN) == Field(number)
  {
    var ts, trees := MessageTrees(number, cs), ContactTrees(cs, |cs|);
    Fits(MESSAGE_SIZE - 8, ts, 2);
    ValueOfEncoding(ts, CONTACTS);
    ValueOfEncoding(ts, NUM_OWN);
    assert ts[1] == Node(CONTACTS, trees) && ts[0] == Leaf(NUM_OWN, Field(number));
    assert Sought(ts, 1, NUM_OWN) == Some(Field(number));
    var list := EncodeAll(trees, |trees|).value;
    assert Sought(ts, 2, CONTACTS) == Some(list);
    EncodingReads(trees, |trees|);
    forall i | 0 <= i < |cs| ensures ReadsAsContact(ContactOf, trees[i], KeptAll(cs, |cs|)[i]) {
      ContactReadsBack(cs[i]);
    }
    CollectReadsBack(ContactOf, list, Records(WORDS, list, 0), trees, KeptAll(cs, |cs|), |cs|);
  }

  /** The message is taken for a list of contacts under its request id. */
  lemma MessageReadsBack(reqId: uint32, number: Bytes, cs: seq<Contact>)
    ensures var body := Lay(MESSAGE_SIZE - 8, MessageTrees(number, cs), 2);
            var msg := Header(SERVICE, PUT_CONTACTS_REQ, reqId) + body;
            ReadHeader(msg) == Some(Heading(SERVICE, PUT_CONTACTS_REQ, reqId)) && msg[8..] == body
  {
    HeaderReadsBack(SERVICE, PUT_CONTACTS_REQ, reqId, Lay(MESSAGE_SIZE - 8, MessageTrees(number, cs), 2));
  }

  /** The message as it is sent, read as it is received. */
  method SendAndRead(reqId: uint32, number: Bytes, cs: seq<Contact>) returns (contacts: seq<Contact>)
    ensures var e := EncodeAll(MessageTrees(number, cs), 2);
            e.Some? && |e.value| <= MESSAGE_SIZE - 8 ==> contacts == KeptAll(cs, |cs|)
  {
    var message := PutContacts(reqId, number, cs);
    ghost var body := Lay(MESSAGE_SIZE - 8, MessageTrees(number, cs), 2);
    assert message[8..] == body;
    var rsp, last;
    rsp, contacts, last := ReadMessageBody(message[8..]);
    ghost var e := EncodeAll(MessageTrees(number, cs), 2);
    if e.Some? && |e.value| <= MESSAGE_SIZE - 8 {
      ContactsRoundTrip(number, cs);
    }
  }

  /** The contact with its other fields at their defaults. */
  function Plain(c: Contact): Contact {
    Contact(c.num, [], c.name, c.fname, c.lname, [], false, 0)
  }

  /** The four strings come back unchanged exactly when each is shorter than 65536 bytes. */
  lemma KeptIsPlain(c: Contact)
    ensures Kept(c) == Plain(c) <==>
            |c.num| < 0x1_0000 && |c.name| < 0x1_0000 && |c.fname| < 0x1_0000 && |c.lname| < 0x1_0000
  {
  }

  // What the server sends.

  /** The lengths and the index fit the records. */
  predicate Sendable(c: Contact) {
    && |c.num| < 0x1_0000 && |c.rnum| < 0x1_0000 && |c.name| < 0x1_0000 && |c.fname| < 0x1_0000 && |c.lname| < 0x1_0000
    && |c.avatar| < 0x1_0000 && c.hindex < TWO_TO_THE_64
  }

  /** A contact with all its fields; any byte but 0 says that it has the messenger. */
  function Full(c: Contact, messenger: uint8): (ts: seq<Tree>)
    requires Sendable(c)
    ensures Small(ts) && |ts| == 8
  {
    [Leaf(NUM, c.num), Leaf(NAME, c.name), Leaf(FNAME, c.fname), Leaf(LNAME, c.lname), Leaf(AVATAR, c.avatar),
     Leaf(MESSENGER, [messenger]), Leaf(HINDEX, Image8(c.hindex)), Leaf(RNUM, c.rnum)]
  }

  lemma FullField(c: Contact, messenger: uint8, k: nat)
    requires Sendable(c) && k < 8
    ensures var ts := Full(c, messenger);
            EncodeAll(ts, 8).Some? && Value(EncodeAll(ts, 8).value, ts[k].tag) == ts[k].value
  {
    var ts := Full(c, messenger);
    LeavesEncode(ts, 8);
    ValueOfEncoding(ts, ts[k].tag);
    SoughtDistinct(ts, k, 8);
  }

  /** A contact with all its eight fields reads back as it is. */
  lemma FullReadsBack(c: Contact, messenger: uint8)
    requires Sendable(c) && (c.messenger <==> messenger != 0)
    ensures EncodeAll(Full(c, messenger), 8).Some?
    ensures ContactOf(EncodeAll(Full(c, messenger), 8).value) == c
  {
    FullField(c, messenger, 0);
    FullField(c, messenger, 1);
    FullField(c, messenger, 2);
    FullField(c, messenger, 3);
    FullField(c, messenger, 4);
    FullField(c, messenger, 5);
    FullField(c, messenger, 6);
    FullField(c, messenger, 7);
    var b := Image8(c.hindex);
    assert b[0..8] == b;
    Image8IsLe(b, 0, c.hindex);
  }

  lemma FullIsContact(c: Contact, messenger: uint8, t: Tree)
    requires Sendable(c) && (c.messenger <==> messenger != 0) && t == Node(CONTACT, Full(c, messenger))
    ensures ReadsAsContact(ContactOf, t, c)
  {
    FullReadsBack(c, messenger);
  }

  /** The list of contacts, and the flag after it. */
  function ListTrees(cs: seq<Contact>, messengers: seq<uint8>, last: uint8): (ts: seq<Tree>)
    requires |cs| == |messengers| && forall i :: 0 <= i < |cs| ==> Sendable(cs[i])
    ensures |ts| == |cs| + 1 && ts[|cs|] == Leaf(LAST, [last])
    ensures forall i :: 0 <= i < |cs| ==> ts[i] == Node(CONTACT, Full(cs[i], messengers[i]))
  {
    seq(|cs|, i requires 0 <= i < |cs| => Node(CONTACT, Full(cs[i], messengers[i]))) + [Leaf(LAST, [last])]
  }

  function ResponseTrees(rsp: uint16, list: seq<Tree>): seq<Tree> {
    [Leaf(RSP, Image2(rsp)), Node(CONTACTS, list)]
  }

  lemma LastIsRead(of: Bytes -> Contact, list: Bytes, rs: seq<Rec>, t: Tree, n: nat, last: uint8)
    requires |rs| == n + 1 && t == Leaf(LAST, [last]) && ReadsAsOne(list, rs[n], t)
    ensures Flag(list, rs, n + 1, false) == (last != 0)
    ensures Collect(of, list, rs, n + 1) == Collect(of, list, rs, n)
  {
  }

  /** The contacts can be sent, and the bytes say which of them have the messenger. */
  ghost predicate SaidBy(cs: seq<Contact>, messengers: seq<uint8>) {
    && |cs| == |messengers|
    && forall i :: 0 <= i < |cs| ==> Sendable(cs[i]) && (cs[i].messenger <==> messengers[i] != 0)
  }

  lemma ListIsContacts(cs: seq<Contact>, messengers: seq<uint8>, last: uint8)
    requires SaidBy(cs, messengers)
    ensures forall i :: 0 <= i < |cs| ==> ReadsAsContact(ContactOf, ListTrees(cs, messengers, last)[i], cs[i])
  {
    forall i | 0 <= i < |cs| ensures ReadsAsContact(ContactOf, ListTrees(cs, messengers, last)[i], cs[i]) {
      FullIsContact(cs[i], messengers[i], ListTrees(cs, messengers, last)[i]);
    }
  }

  lemma ListReadsBack(cs: seq<Contact>, messengers: seq<uint8>, last: uint8, list: Bytes)
    requires SaidBy(cs, messengers) && EncodeAll(ListTrees(cs, messengers, last), |cs| + 1) == Some(list)
    ensures var rs := Records(WORDS, list, 0); Collect(ContactOf, list, rs, |rs|) == cs && Flag(list, rs, |rs|, false) == (last != 0)
  {
    var ts, rs := ListTrees(cs, messengers, last), Records(WORDS, list, 0);
    EncodingReads(ts, |ts|);
    ListIsContacts(cs, messengers, last);
    TreesReadBack(list, rs, ts, cs, last);
  }

  lemma TreesReadBack(list: Bytes, rs: seq<Rec>, ts: seq<Tree>, cs: seq<Contact>, last: uint8)
    requires |ts| == |cs| + 1 && ReadsAs(list, rs, ts, |ts|) && ts[|cs|] == Leaf(LAST, [last])
    requires forall i :: 0 <= i < |cs| ==> ReadsAsContact(ContactOf, ts[i], cs[i])
    ensures Collect(ContactOf, list, rs, |rs|) == cs && Flag(list, rs, |rs|, false) == (last != 0)
  {
    LastIsRead(ContactOf, list, rs, ts[|cs|], |cs|, last);
    CollectReadsBack(ContactOf, list, rs, ts, cs, |cs|);
    assert cs[..|cs|] == cs;
  }

  /**
   A response of the server that holds a result, any list of contacts with all their fields, and the flag,
   is read as that result, that list in that order, and that flag.
   */
  lemma ResponseReadsBack(rsp: uint16, cs: seq<Contact>, messengers: seq<uint8>, last: uint8, body: Bytes)
    requires SaidBy(cs, messengers)
    requires EncodeAll(ResponseTrees(rsp, ListTrees(cs, messengers, last)), 2) == Some(body)
    ensures Value(body, RSP) == Image2(rsp) && Value2(Value(body, RSP)) == rsp
    ensures ReadMessage(body) == cs
    ensures var list := Value(body, CONTACTS); var rs := Records(WORDS, list, 0); Flag(list, rs, |rs|, false) == (last != 0)
  {
    var trees := ListTrees(cs, messengers, last);
    var ts := ResponseTrees(rsp, trees);
    ValueOfEncoding(ts, RSP);
    ValueOfEncoding(ts, CONTACTS);
    assert Sought(ts, 1, RSP) == Some(Image2(rsp));
    assert Encode(ts[1]).Some?;
    ListReadsBack(cs, messengers, last, EncodeAll(trees, |trees|).value);
  }
}
