/**
 The three requests to the registrar, byte by byte: GenRegister, GenRegisterNewReg and GenRegisterAuth with
 GenMD5, of plib/plib/ClientImpl.cpp. Each fills a buffer of fixed size, drops what does not fit, and is sent.
 */
module Registrar {
  import opened Machine
  import opened TlvWriter
  import opened TlvNesting
  import opened TlvReader
  import opened TlvEncoding
  import opened TlvFields
  import Md5

  /** What the application says of its subscriber. */
  datatype Subscriber = Subscriber(number: Bytes, host: Bytes, uid: Bytes, devUid: Bytes, userAgent: Bytes,
                                   userType: uint8, userVersion: uint32, userClient: uint8)

  datatype Challenge = Challenge(realm: Bytes, nonce: Bytes, opq: Bytes)

  datatype Request =
    | InitReq(id: uint32, info: Subscriber)
    | RegReq(id: uint32, info: Subscriber, code: Bytes)
    | AuthReq(id: uint32, info: Subscriber, challenge: Challenge, withUid: bool)

  // PAPI_Service and PAPI_ComRegistrar
  const REGISTRAR := 1
  const INIT_REQ := 0
  const REG_REQ := 2
  const AUTH_REQ := 4
  // PAPI_ParamReg
  const NUM := 1
  const UID := 2
  const DEV_UID := 3
  const REG_INFO := 4
  // PAPI_ParamRegInfo
  const CODE := 0
  const NONCE := 1
  const OPAQUE := 2
  const REALM := 3
  const DIGEST_URI := 4
  const ALGORITHM := 5
  const RESP := 6
  const USER_AGENT := 7
  const USER_TYPE := 8
  const USER_VER := 9
  const USER_CLIENT := 13

  const SIPS := Ascii("sips:")
  const TRANSPORT := Ascii(";transport=tls;lr")
  const MD5 := Ascii("md5")
  const REGISTER := Ascii("REGISTER:")
  const COLON := Ascii(":")

  // The answer to a challenge.

  function DigestUri(info: Subscriber): Bytes {
    SIPS + info.host + TRANSPORT
  }

  function HexDigit(d: nat): uint8
    requires d < 16
  {
    if d < 10 then 0x30 + d else 0x61 + d - 10
  }

  /** Two lower-case digits a byte. */
  function Hex(b: Bytes): (h: Bytes)
    ensures |h| == 2 * |b|
  {
    if b == [] then [] else [HexDigit(b[0] / 16), HexDigit(b[0] % 16)] + Hex(b[1..])
  }

  /** A string as a 32-bit length argument lets it through. */
  function Text(s: Bytes): (t: Bytes)
    ensures |t| < TWO_TO_THE_32
    ensures t == s <==> |s| < TWO_TO_THE_32
  {
    s[..|s| % TWO_TO_THE_32]
  }

  /** What is lost of it is a multiple of 2^32 bytes, at its end. */
  lemma TextIsCast(s: Bytes)
    ensures Text(s) <= s && (|s| - |Text(s)|) % TWO_TO_THE_32 == 0
  {
  }

  function HashOf(f: Md5.Compress, s: Bytes): (h: Bytes)
    ensures |h| == 32
  {
    Hex(Md5.Digest(f, Text(s)))
  }

  /** Number, realm and password; the password is the uid. */
  function Secret(info: Subscriber, realm: Bytes): Bytes {
    info.number + COLON + realm + COLON + info.uid
  }

  function Method(info: Subscriber): Bytes {
    REGISTER + DigestUri(info)
  }

  function Joined(f: Md5.Compress, info: Subscriber, c: Challenge): Bytes {
    HashOf(f, Secret(info, c.realm)) + (COLON + c.nonce + COLON) + HashOf(f, Method(info))
  }

  /** The digest over the whole realm and nonce, in hexadecimal. */
  function Answer(f: Md5.Compress, info: Subscriber, c: Challenge): (h: Bytes)
    ensures |h| == 32
  {
    HashOf(f, Joined(f, info, c))
  }

  // What the texts say to a reader who takes them apart.

  function DigitValue(h: uint8): nat {
    if 0x30 <= h <= 0x39 then h - 0x30 else if 0x61 <= h <= 0x66 then h - 0x61 + 10 else 0
  }

  /** The bytes that pairs of hexadecimal digits denote, the high digit first. */
  function Unhex(h: Bytes): Bytes {
    if |h| < 2 then [] else [16 * DigitValue(h[0]) + DigitValue(h[1])] + Unhex(h[2..])
  }

  predicate IsHexDigit(h: uint8) {
    0x30 <= h <= 0x39 || 0x61 <= h <= 0x66
  }

  /** Any bytes read back from their digits, which are lower-case. */
  lemma {:induction false} HexReadsBack(b: Bytes)
    ensures Unhex(Hex(b)) == b && forall i :: 0 <= i < |Hex(b)| ==> IsHexDigit(Hex(b)[i])
  {
    if b != [] {
      HexReadsBack(b[1..]);
      assert Hex(b)[2..] == Hex(b[1..]);
    }
  }

  /** The text up to the first colon, and the text after it. */
  function UpTo(s: Bytes): Bytes {
    if s == [] || s[0] == 0x3a then [] else [s[0]] + UpTo(s[1..])
  }

  function After(s: Bytes): Bytes {
    if s == [] then [] else if s[0] == 0x3a then s[1..] else After(s[1..])
  }

  predicate NoColon(s: Bytes) {
    forall i :: 0 <= i < |s| ==> s[i] != 0x3a
  }

  lemma {:induction false} ColonSplits(a: Bytes, b: Bytes)
    requires NoColon(a)
    ensures UpTo(a + COLON + b) == a && After(a + COLON + b) == b
  {
    var s := a + COLON + b;
    if a == [] {
      assert s[1..] == b;
    } else {
      ColonSplits(a[1..], b);
      assert s[1..] == a[1..] + COLON + b;
    }
  }

  /** Number, realm and uid stand between the colons, where the number and the realm have none themselves. */
  lemma SecretParts(info: Subscriber, realm: Bytes)
    requires NoColon(info.number) && NoColon(realm)
    ensures var s := Secret(info, realm);
            UpTo(s) == info.number && UpTo(After(s)) == realm && After(After(s)) == info.uid
  {
    var rest := realm + COLON + info.uid;
    assert Secret(info, realm) == info.number + COLON + rest;
    ColonSplits(info.number, rest);
    ColonSplits(realm, info.uid);
  }

  /** The method is REGISTER and the scheme sips, whatever the host. */
  lemma MethodParts(info: Subscriber)
    ensures var s := Method(info); var uri := After(s);
            && UpTo(s) == Ascii("REGISTER") && uri == DigestUri(info)
            && UpTo(uri) == Ascii("sips") && After(uri) == info.host + Ascii(";transport=tls;lr")
  {
    assert Method(info) == Ascii("REGISTER") + COLON + DigestUri(info);
    assert DigestUri(info) == Ascii("sips") + COLON + (info.host + TRANSPORT);
    ColonSplits(Ascii("REGISTER"), DigestUri(info));
    ColonSplits(Ascii("sips"), info.host + TRANSPORT);
  }

  lemma HashReadsBack(f: Md5.Compress, s: Bytes)
    ensures Unhex(HashOf(f, s)) == Md5.Digest(f, Text(s)) && NoColon(HashOf(f, s))
  {
    HexReadsBack(Md5.Digest(f, Text(s)));
  }

  lemma JoinedSplits(h1: Bytes, nonce: Bytes, h2: Bytes)
    requires NoColon(h1)
    ensures var s := h1 + (COLON + nonce + COLON) + h2; var rest := After(s); var n := |nonce|;
            UpTo(s) == h1 && |rest| == n + 1 + |h2| && rest[..n] == nonce && rest[n] == 0x3a && rest[n + 1..] == h2
  {
    assert h1 + (COLON + nonce + COLON) + h2 == h1 + COLON + (nonce + COLON + h2);
    ColonSplits(h1, nonce + COLON + h2);
  }

  /** The outer hash is over the inner two, with the nonce between them. */
  lemma AnswerParts(f: Md5.Compress, info: Subscriber, c: Challenge)
    ensures var s := Joined(f, info, c); var rest := After(s); var n := |c.nonce|;
            && Unhex(UpTo(s)) == Md5.Digest(f, Text(Secret(info, c.realm)))
            && |rest| == n + 33 && rest[..n] == c.nonce && rest[n] == 0x3a
            && Unhex(rest[n + 1..]) == Md5.Digest(f, Text(Method(info)))
            && Unhex(Answer(f, info, c)) == Md5.Digest(f, Text(s))
  {
    HashReadsBack(f, Secret(info, c.realm));
    HashReadsBack(f, Method(info));
    HashReadsBack(f, Joined(f, info, c));
    JoinedSplits(HashOf(f, Secret(info, c.realm)), c.nonce, HashOf(f, Method(info)));
  }

  method Hash(f: Md5.Compress, s: Bytes) returns (hash: Bytes)
    ensures hash == Md5.Digest(f, Text(s)) && |hash| == 16
  {
    hash := Md5.DigestOf(f, Text(s));
  }

  method GenMD5(f: Md5.Compress, info: Subscriber, c: Challenge, digestUri: Bytes) returns (hash: Bytes)
    requires digestUri == DigestUri(info)
    ensures Hex(hash) == Answer(f, info, c)
  {
    var h1 := Hash(f, info.number + COLON + c.realm + COLON + info.uid);
    var h2 := Hash(f, REGISTER + digestUri);
    hash := Hash(f, Hex(h1) + (COLON + c.nonce + COLON) + Hex(h2));
  }

  // What the requests lay down.

  function Agent(info: Subscriber): seq<Tree> {
    Optional(USER_AGENT, info.userAgent) + When(info.userType != 0xff, USER_TYPE, [info.userType])
    + When(info.userVersion != 0xffff_ffff, USER_VER, Image4(info.userVersion))
    + When(info.userClient != 0xff, USER_CLIENT, [info.userClient])
  }

  function Three(t: uint16, a: Bytes, u: uint16, b: Bytes, v: uint16, c: Bytes): (ts: seq<Tree>)
    ensures |ts| == 3 && Small(ts)
  {
    [Leaf(t, Field(a)), Leaf(u, Field(b)), Leaf(v, Field(c))]
  }

  /** Realm, nonce, opaque, and what goes with them. */
  function Answered(info: Subscriber, c: Challenge, answer: Bytes): (ts: seq<Tree>)
    ensures |ts| == 6 && Small(ts)
  {
    Three(REALM, c.realm, NONCE, c.nonce, OPAQUE, c.opq)
    + Three(DIGEST_URI, DigestUri(info), ALGORITHM, MD5, RESP, answer)
  }

  /** The records inside reg_info. */
  function Inner(m: Request, answer: Bytes): (ts: seq<Tree>)
    requires !m.InitReq?
    ensures Small(ts)
  {
    match m
    case RegReq(_, info, code) => [Leaf(CODE, Field(code))] + Agent(info)
    case AuthReq(_, info, c, _) => Answered(info, c, answer) + Agent(info)
  }

  /** The records before reg_info. */
  function Outer(m: Request): (ts: seq<Tree>)
    ensures Small(ts)
  {
    match m
    case InitReq(_, info) => [Leaf(NUM, Field(info.number))]
    case RegReq(_, info, _) => Three(NUM, info.number, UID, info.uid, DEV_UID, info.devUid)
    case AuthReq(_, info, _, withUid) => [Leaf(NUM, Field(info.number))] + When(withUid, UID, info.uid)
  }

  function Trees(m: Request, answer: Bytes): (ts: seq<Tree>)
    ensures Small(ts)
  {
    if m.InitReq? then Outer(m) else Outer(m) + [Node(REG_INFO, Inner(m, answer))]
  }

  function BufferSize(m: Request): nat {
    if m.InitReq? then 512 else 4096
  }

  function Command(m: Request): uint16 {
    match m
    case InitReq(_, _) => INIT_REQ
    case RegReq(_, _, _) => REG_REQ
    case AuthReq(_, _, _, _) => AUTH_REQ
  }

  /** What follows the header. */
  function Body(m: Request, answer: Bytes): (b: Bytes)
    ensures |b| <= BufferSize(m) - 8
  {
    Lay(BufferSize(m) - 8, Trees(m, answer), |Trees(m, answer)|)
  }

  function AnswerTo(f: Md5.Compress, m: Request): Bytes {
    if m.AuthReq? then Answer(f, m.info, m.challenge) else []
  }

  /** What the registrar finds after the header. */
  function Sent(f: Md5.Compress, m: Request): Bytes {
    Body(m, AnswerTo(f, m))
  }

  /** The bytes on the wire. */
  function Wire(f: Md5.Compress, m: Request): Bytes {
    Header(REGISTRAR, Command(m), m.id) + Sent(f, m)
  }

  // What of it is found there.

  /** The value of a record inside reg_info. */
  function FindInside(body: Bytes, tag: nat): (r: Option<Bytes>)
    ensures r.Some? ==> |r.value| <= |body|
  {
    match Find(body, REG_INFO)
    case None => None
    case Some(info) => Find(info, tag)
  }

  ghost predicate Have(body: Bytes, t: uint16, a: Bytes, u: uint16, b: Bytes, v: uint16, c: Bytes) {
    FindInside(body, t) == Some(a) && FindInside(body, u) == Some(b) && FindInside(body, v) == Some(c)
  }

  ghost predicate Carries(body: Bytes, c: Challenge) {
    Have(body, REALM, c.realm, NONCE, c.nonce, OPAQUE, c.opq)
  }

  /** What is left of `room` after a record for `s`, which is dropped where it does not fit. */
  function Left(room: nat, s: Bytes): nat {
    if 4 + |Field(s)| <= room then room - 4 - |Field(s)| else room
  }

  /** What is left for reg_info. */
  function InfoRoom(m: Request): nat
    requires !m.InitReq?
  {
    var a := Left(4088, m.info.number);
    match m
    case RegReq(_, info, _) => Left(Left(a, info.uid), info.devUid)
    case AuthReq(_, info, _, withUid) => if withUid then Left(a, info.uid) else a
  }

  /** The records of the challenge, 4 bytes each besides their values, fit into what is left for reg_info. */
  predicate ChallengeFits(m: Request)
    requires m.AuthReq?
  {
    4 + 12 + |m.challenge.realm| + |m.challenge.nonce| + |m.challenge.opq| <= InfoRoom(m)
  }

  predicate CodeFits(m: Request)
    requires m.RegReq?
  {
    4 + 4 + |m.code| <= InfoRoom(m)
  }

  /** Everything the answer needs: the challenge, the URI, the algorithm and the digest. */
  predicate AnswerFits(m: Request)
    requires m.AuthReq?
  {
    4 + 12 + |m.challenge.realm| + |m.challenge.nonce| + |m.challenge.opq| + 12 + |DigestUri(m.info)| + 3 + 32 <= InfoRoom(m)
  }

  ghost predicate CarriesAnswer(body: Bytes, m: Request, answer: Bytes)
    requires m.AuthReq?
  {
    && Carries(body, m.challenge)
    && Have(body, DIGEST_URI, DigestUri(m.info), ALGORITHM, MD5, RESP, answer)
  }

  lemma LeafLeaves(room: nat, ts: seq<Tree>, n: nat, s: Bytes)
    requires room < 0x1_0000 && Small(ts) && n < |ts| && ts[n].Leaf? && ts[n].value == Field(s)
    ensures room - |Lay(room, ts, n + 1)| == Left(room - |Lay(room, ts, n)|, s)
  {
  }

  lemma OuterLeaves(m: Request, answer: Bytes)
    requires !m.InitReq?
    ensures 4088 - |Lay(4088, Trees(m, answer), |Outer(m)|)| == InfoRoom(m)
  {
    var ts := Trees(m, answer);
    assert forall i :: 0 <= i < |Outer(m)| ==> ts[i] == Outer(m)[i];
    assert Lay(4088, ts, 0) == [];
    LeafLeaves(4088, ts, 0, m.info.number);
    if m.RegReq? {
      LeafLeaves(4088, ts, 1, m.info.uid);
      LeafLeaves(4088, ts, 2, m.info.devUid);
    } else if m.withUid {
      LeafLeaves(4088, ts, 1, m.info.uid);
    }
  }

  lemma InfoIsFound(m: Request, answer: Bytes)
    requires !m.InitReq?
    ensures Find(Body(m, answer), REG_INFO) == if InfoRoom(m) >= 4 then Some(Inside(InfoRoom(m), Inner(m, answer))) else None
  {
    var ts, k := Trees(m, answer), |Outer(m)|;
    OuterTags(m, answer);
    OuterLeaves(m, answer);
    FindLaid(4088, ts, k);
    NodeIsKept(4088, ts, k, Inner(m, answer));
  }

  lemma NodeIsKept(room: nat, ts: seq<Tree>, k: nat, inner: seq<Tree>)
    requires room < 0x1_0000 && Small(ts) && k < |ts| && Small(inner) && ts[k] == Node(REG_INFO, inner)
    ensures var left := room - |Lay(room, ts, k)|;
            KeptValue(room, ts, k) == if left >= 4 then Some(Inside(left, inner)) else None
  {
  }

  lemma OuterTags(m: Request, answer: Bytes)
    requires !m.InitReq?
    ensures var ts, k := Trees(m, answer), |Outer(m)|;
            |ts| == k + 1 && ts[k] == Node(REG_INFO, Inner(m, answer)) && forall i :: 0 <= i < k ==> ts[i].tag != REG_INFO
  {
    assert forall i :: 0 <= i < |Outer(m)| ==> Trees(m, answer)[i] == Outer(m)[i];
  }

  ghost predicate FoundInside(body: Bytes, t: Tree)
    requires t.Leaf?
  {
    FindInside(body, t.tag) == Some(t.value)
  }

  /** The first `n` records inside reg_info are all found if and only if their heads and values fit. */
  lemma InsideIff(m: Request, answer: Bytes, n: nat)
    requires !m.InitReq? && 0 < n <= |Inner(m, answer)| && Distinct(Inner(m, answer))
    ensures (forall i :: 0 <= i < n ==> FoundInside(Body(m, answer), Inner(m, answer)[i])) <==> 4 + Size(Inner(m, answer), n) <= InfoRoom(m)
  {
    var body, ts, room := Body(m, answer), Inner(m, answer), InfoRoom(m);
    InfoIsFound(m, answer);
    if room > 4 {
      var info := Lay(room - 4, ts, |ts|);
      assert Find(body, REG_INFO) == Some(info);
      forall i | 0 <= i < n ensures FoundInside(body, ts[i]) <==> FoundOne(info, ts[i]) {
      }
      FoundIffTheyFit(room - 4, ts, n);
    } else {
      assert Records(WORDS, [], 0) == [];
      assert !FoundInside(body, ts[0]);
    }
  }

  // The tags inside reg_info are distinct.

  ghost predicate Within(ts: seq<Tree>, low: nat, high: nat) {
    Distinct(ts) && forall i :: 0 <= i < |ts| ==> low <= ts[i].tag < high
  }

  lemma WithinConcat(a: seq<Tree>, b: seq<Tree>, low: nat, mid: nat, high: nat)
    requires Within(a, low, mid) && Within(b, mid, high) && low <= mid <= high
    ensures Within(a + b, low, high)
  {
  }

  lemma WhenWithin(present: bool, tag: uint16, s: Bytes, high: nat)
    requires tag < high
    ensures Within(When(present, tag, s), tag, high)
  {
  }

  lemma ThreeWithin(t: uint16, a: Bytes, u: uint16, b: Bytes, v: uint16, c: Bytes, low: nat, high: nat)
    requires low <= t < high && low <= u < high && low <= v < high && t != u && t != v && u != v
    ensures Within(Three(t, a, u, b, v, c), low, high)
  {
  }

  lemma AgentIsDistinct(info: Subscriber)
    ensures Within(Agent(info), USER_AGENT, USER_CLIENT + 1)
  {
    var a := Optional(USER_AGENT, info.userAgent);
    var b := When(info.userType != 0xff, USER_TYPE, [info.userType]);
    var c := When(info.userVersion != 0xffff_ffff, USER_VER, Image4(info.userVersion));
    var d := When(info.userClient != 0xff, USER_CLIENT, [info.userClient]);
    WhenWithin(|info.userAgent| > 0, USER_AGENT, info.userAgent, USER_TYPE);
    WhenWithin(info.userType != 0xff, USER_TYPE, [info.userType], USER_VER);
    WhenWithin(info.userVersion != 0xffff_ffff, USER_VER, Image4(info.userVersion), USER_CLIENT);
    WhenWithin(info.userClient != 0xff, USER_CLIENT, [info.userClient], USER_CLIENT + 1);
    WithinConcat(a, b, USER_AGENT, USER_TYPE, USER_VER);
    WithinConcat(a + b, c, USER_AGENT, USER_VER, USER_CLIENT);
    WithinConcat(a + b + c, d, USER_AGENT, USER_CLIENT, USER_CLIENT + 1);
  }

  lemma AnsweredIsDistinct(info: Subscriber, c: Challenge, answer: Bytes)
    ensures Within(Answered(info, c, answer), NONCE, USER_AGENT)
  {
    var uri := DigestUri(info);
    ThreeWithin(REALM, c.realm, NONCE, c.nonce, OPAQUE, c.opq, NONCE, DIGEST_URI);
    ThreeWithin(DIGEST_URI, uri, ALGORITHM, MD5, RESP, answer, DIGEST_URI, USER_AGENT);
    WithinConcat(Three(REALM, c.realm, NONCE, c.nonce, OPAQUE, c.opq), Three(DIGEST_URI, uri, ALGORITHM, MD5, RESP, answer),
                 NONCE, DIGEST_URI, USER_AGENT);
  }

  lemma InnerIsDistinct(m: Request, answer: Bytes)
    requires !m.InitReq?
    ensures Distinct(Inner(m, answer))
  {
    AgentIsDistinct(m.info);
    match m
    case RegReq(_, info, code) =>
      WhenWithin(true, CODE, code, USER_AGENT);
      WithinConcat(When(true, CODE, code), Agent(info), CODE, USER_AGENT, USER_CLIENT + 1);
    case AuthReq(_, info, c, _) =>
      AnsweredIsDistinct(info, c, answer);
      WithinConcat(Answered(info, c, answer), Agent(info), NONCE, USER_AGENT, USER_CLIENT + 1);
  }

  /** What is found for a record inside reg_info is what was kept of it. */
  lemma FindInsideIsKept(m: Request, answer: Bytes, k: nat)
    requires !m.InitReq? && k < |Inner(m, answer)|
    ensures FindInside(Body(m, answer), Inner(m, answer)[k].tag) ==
            if InfoRoom(m) > 4 then KeptValue(InfoRoom(m) - 4, Inner(m, answer), k) else None
  {
    var ts := Inner(m, answer);
    InfoIsFound(m, answer);
    InnerIsDistinct(m, answer);
    if InfoRoom(m) > 4 {
      FindLaid(InfoRoom(m) - 4, ts, k);
    } else {
      assert Records(WORDS, [], 0) == [];
    }
  }

  /** The realm comes first inside reg_info: it is there, as 16 bits of length let it through, or there is none. */
  lemma RealmIsSentIff(m: Request, answer: Bytes)
    requires m.AuthReq?
    ensures FindInside(Body(m, answer), REALM) ==
            if 4 + 4 + |Field(m.challenge.realm)| <= InfoRoom(m) then Some(Field(m.challenge.realm)) else None
  {
    AuthBegins(m, answer);
    FindInsideIsKept(m, answer, 0);
  }

  /** What is found for the `k`-th record before reg_info, when `left` bytes are left for it. */
  lemma OuterIsKept(m: Request, answer: Bytes, k: nat, s: Bytes, left: nat)
    requires k < |Outer(m)| && !m.InitReq? && Outer(m)[k].value == Field(s)
    requires left == 4088 - |Lay(4088, Trees(m, answer), k)|
    ensures Find(Body(m, answer), Outer(m)[k].tag) == if 4 + |Field(s)| <= left then Some(Field(s)) else None
  {
    var ts := Trees(m, answer);
    assert forall i :: 0 <= i < |Outer(m)| ==> ts[i] == Outer(m)[i];
    FindLaid(4088, ts, k);
  }

  lemma NotCarried(m: Request, answer: Bytes, tag: nat)
    requires forall i :: 0 <= i < |Trees(m, answer)| ==> Trees(m, answer)[i].tag != tag
    ensures Find(Body(m, answer), tag) == None
  {
    NotLaid(BufferSize(m) - 8, Trees(m, answer), tag);
  }

  /**
   The uid is sent with every registration and with the answer to a challenge that asked for it, the device id
   with a registration alone; each is there, as 16 bits of length let it through, or dropped for want of room.
   */
  lemma UidsAreSentIff(m: Request, answer: Bytes)
    requires !m.InitReq?
    ensures var room := Left(4088, m.info.number); var uid := Field(m.info.uid);
            Find(Body(m, answer), UID) == if (m.RegReq? || m.withUid) && 4 + |uid| <= room then Some(uid) else None
    ensures var room := Left(Left(4088, m.info.number), m.info.uid); var dev := Field(m.info.devUid);
            Find(Body(m, answer), DEV_UID) == if m.RegReq? && 4 + |dev| <= room then Some(dev) else None
  {
    var ts := Trees(m, answer);
    assert forall i :: 0 <= i < |Outer(m)| ==> ts[i] == Outer(m)[i];
    assert Lay(4088, ts, 0) == [];
    LeafLeaves(4088, ts, 0, m.info.number);
    if m.RegReq? {
      LeafLeaves(4088, ts, 1, m.info.uid);
      OuterIsKept(m, answer, 1, m.info.uid, Left(4088, m.info.number));
      OuterIsKept(m, answer, 2, m.info.devUid, Left(Left(4088, m.info.number), m.info.uid));
    } else {
      if m.withUid {
        OuterIsKept(m, answer, 1, m.info.uid, Left(4088, m.info.number));
      } else {
        NotCarried(m, answer, UID);
      }
      NotCarried(m, answer, DEV_UID);
    }
  }

  // What it says of the user agent.

  /** All the records inside reg_info fit into what is left for it. */
  ghost predicate InfoFits(m: Request, answer: Bytes)
    requires !m.InitReq?
  {
    InnerIsDistinct(m, answer);
    4 + Size(Inner(m, answer), |Inner(m, answer)|) <= InfoRoom(m)
  }

  /** What is found inside reg_info for a tag under which `s` is to be sent if it is there. */
  ghost predicate Says(body: Bytes, tag: uint16, present: bool, s: Bytes) {
    FindInside(body, tag) == if present then Some(Field(s)) else None
  }

  lemma MemberIsFound(m: Request, answer: Bytes, t: Tree)
    requires !m.InitReq? && t in Inner(m, answer) && InfoFits(m, answer)
    ensures t.Leaf? && FindInside(Body(m, answer), t.tag) == Some(t.value)
  {
    var ts := Inner(m, answer);
    InnerIsDistinct(m, answer);
    InsideIff(m, answer, |ts|);
    var i :| 0 <= i < |ts| && ts[i] == t;
    assert FoundInside(Body(m, answer), ts[i]);
  }

  lemma StrangerIsNotFound(m: Request, answer: Bytes, tag: nat)
    requires !m.InitReq? && forall i :: 0 <= i < |Inner(m, answer)| ==> Inner(m, answer)[i].tag != tag
    ensures FindInside(Body(m, answer), tag) == None
  {
    InfoIsFound(m, answer);
    if InfoRoom(m) > 4 {
      NotLaid(InfoRoom(m) - 4, Inner(m, answer), tag);
    } else {
      assert Records(WORDS, [], 0) == [];
    }
  }

  /** A list of records has the one for `s` under the tag if it is to be present, and otherwise none under the tag. */
  ghost predicate Has(ts: seq<Tree>, tag: uint16, present: bool, s: Bytes) {
    if present then Leaf(tag, Field(s)) in ts else forall t :: t in ts ==> t.tag != tag
  }

  lemma HasSays(m: Request, answer: Bytes, tag: uint16, present: bool, s: Bytes)
    requires !m.InitReq? && Has(Inner(m, answer), tag, present, s)
    requires InfoFits(m, answer)
    ensures Says(Body(m, answer), tag, present, s)
  {
    if present {
      MemberIsFound(m, answer, Leaf(tag, Field(s)));
    } else {
      StrangerIsNotFound(m, answer, tag);
    }
  }

  lemma HasConcat(a: seq<Tree>, b: seq<Tree>, tag: uint16, present: bool, s: Bytes)
    requires (Has(a, tag, present, s) && Has(b, tag, false, [])) || (Has(a, tag, false, []) && Has(b, tag, present, s))
    ensures Has(a + b, tag, present, s)
  {
  }

  lemma AgentHas(info: Subscriber)
    ensures Has(Agent(info), USER_AGENT, |info.userAgent| > 0, info.userAgent)
    ensures Has(Agent(info), USER_TYPE, info.userType != 0xff, [info.userType])
    ensures Has(Agent(info), USER_VER, info.userVersion != 0xffff_ffff, Image4(info.userVersion))
    ensures Has(Agent(info), USER_CLIENT, info.userClient != 0xff, [info.userClient])
  {
    var a := Optional(USER_AGENT, info.userAgent);
    var b := When(info.userType != 0xff, USER_TYPE, [info.userType]);
    var c := When(info.userVersion != 0xffff_ffff, USER_VER, Image4(info.userVersion));
    var d := When(info.userClient != 0xff, USER_CLIENT, [info.userClient]);
    assert forall t :: t in Agent(info) <==> t in a || t in b || t in c || t in d;
  }

  ghost predicate SaysAgent(body: Bytes, info: Subscriber) {
    && Says(body, USER_AGENT, |info.userAgent| > 0, info.userAgent)
    && Says(body, USER_TYPE, info.userType != 0xff, [info.userType])
    && Says(body, USER_VER, info.userVersion != 0xffff_ffff, Image4(info.userVersion))
    && Says(body, USER_CLIENT, info.userClient != 0xff, [info.userClient])
  }

  ghost predicate SaysThree(body: Bytes, t: uint16, a: Bytes, u: uint16, b: Bytes, v: uint16, c: Bytes) {
    Says(body, t, true, a) && Says(body, u, true, b) && Says(body, v, true, c)
  }

  /** Everything the request is to say inside reg_info is found there, as 16 bits of length let it through. */
  ghost predicate SaysInfo(body: Bytes, m: Request, answer: Bytes)
    requires !m.InitReq?
  {
    && SaysAgent(body, m.info)
    && match m
       case RegReq(_, _, code) => Says(body, CODE, true, code)
       case AuthReq(_, info, c, _) =>
         && SaysThree(body, REALM, c.realm, NONCE, c.nonce, OPAQUE, c.opq)
         && SaysThree(body, DIGEST_URI, DigestUri(info), ALGORITHM, MD5, RESP, answer)
  }

  lemma AgentSays(m: Request, answer: Bytes, tag: uint16, present: bool, s: Bytes)
    requires !m.InitReq? && InfoFits(m, answer) && tag >= USER_AGENT && Has(Agent(m.info), tag, present, s)
    ensures Says(Body(m, answer), tag, present, s)
  {
    var before := if m.RegReq? then [Leaf(CODE, Field(m.code))] else Answered(m.info, m.challenge, answer);
    if m.AuthReq? {
      AnsweredIsDistinct(m.info, m.challenge, answer);
    }
    assert Has(before, tag, false, []);
    HasConcat(before, Agent(m.info), tag, present, s);
    HasSays(m, answer, tag, present, s);
  }

  lemma AgentIsSent(m: Request, answer: Bytes)
    requires !m.InitReq? && InfoFits(m, answer)
    ensures SaysAgent(Body(m, answer), m.info)
  {
    var info := m.info;
    AgentHas(info);
    AgentSays(m, answer, USER_AGENT, |info.userAgent| > 0, info.userAgent);
    AgentSays(m, answer, USER_TYPE, info.userType != 0xff, [info.userType]);
    AgentSays(m, answer, USER_VER, info.userVersion != 0xffff_ffff, Image4(info.userVersion));
    AgentSays(m, answer, USER_CLIENT, info.userClient != 0xff, [info.userClient]);
  }

  lemma ThreeAreSent(m: Request, answer: Bytes, at: nat, t: uint16, a: Bytes, u: uint16, b: Bytes, v: uint16, c: Bytes)
    requires !m.InitReq? && InfoFits(m, answer) && Begins(Inner(m, answer), at, t, a, u, b, v, c)
    ensures SaysThree(Body(m, answer), t, a, u, b, v, c)
  {
    MemberIsFound(m, answer, Inner(m, answer)[at]);
    MemberIsFound(m, answer, Inner(m, answer)[at + 1]);
    MemberIsFound(m, answer, Inner(m, answer)[at + 2]);
  }

  /** What is said is what the records are made of, record by record. */
  lemma SaidIsFound(body: Bytes, m: Request, answer: Bytes, t: Tree)
    requires !m.InitReq? && SaysInfo(body, m, answer) && t in Inner(m, answer)
    ensures t.Leaf? && FindInside(body, t.tag) == Some(t.value)
  {
    if t in Agent(m.info) {
      SaidOfAgent(body, m.info, t);
    } else if m.AuthReq? {
      assert t in Answered(m.info, m.challenge, answer);
    }
  }

  lemma SaidOfAgent(body: Bytes, info: Subscriber, t: Tree)
    requires SaysAgent(body, info) && t in Agent(info)
    ensures t.Leaf? && FindInside(body, t.tag) == Some(t.value)
  {
    assert t in Optional(USER_AGENT, info.userAgent) || t in When(info.userType != 0xff, USER_TYPE, [info.userType])
           || t in When(info.userVersion != 0xffff_ffff, USER_VER, Image4(info.userVersion))
           || t in When(info.userClient != 0xff, USER_CLIENT, [info.userClient]);
  }

  /**
   All that the request is to say inside reg_info is found in its bytes, and nothing of what it is not to say,
   if and only if all its records fit.
   */
  lemma InfoIsSentIff(m: Request, answer: Bytes)
    requires !m.InitReq?
    ensures SaysInfo(Body(m, answer), m, answer) <==> InfoFits(m, answer)
  {
    var body, ts := Body(m, answer), Inner(m, answer);
    InnerIsDistinct(m, answer);
    if InfoFits(m, answer) {
      AgentIsSent(m, answer);
      RestIsSent(m, answer);
    } else if SaysInfo(body, m, answer) {
      forall i | 0 <= i < |ts| ensures FoundInside(body, ts[i]) {
        SaidIsFound(body, m, answer, ts[i]);
      }
      NotEmpty(m, answer);
      InsideIff(m, answer, |ts|);
    }
  }

  lemma NotEmpty(m: Request, answer: Bytes)
    requires !m.InitReq?
    ensures |Inner(m, answer)| > 0
  {
  }

  lemma RestIsSent(m: Request, answer: Bytes)
    requires !m.InitReq? && InfoFits(m, answer)
    ensures m.RegReq? ==> Says(Body(m, answer), CODE, true, m.code)
    ensures m.AuthReq? ==>
              var c := m.challenge;
              && SaysThree(Body(m, answer), REALM, c.realm, NONCE, c.nonce, OPAQUE, c.opq)
              && SaysThree(Body(m, answer), DIGEST_URI, DigestUri(m.info), ALGORITHM, MD5, RESP, answer)
  {
    if m.RegReq? {
      MemberIsFound(m, answer, Inner(m, answer)[0]);
    } else {
      var c := m.challenge;
      AuthBegins(m, answer);
      ThreeAreSent(m, answer, 0, REALM, c.realm, NONCE, c.nonce, OPAQUE, c.opq);
      ThreeAreSent(m, answer, 3, DIGEST_URI, DigestUri(m.info), ALGORITHM, MD5, RESP, answer);
    }
  }

  // What the requests carry.

  /** The server takes the message for the request that it is, under its id. */
  lemma WireIsRead(f: Md5.Compress, m: Request)
    ensures var command := if m.InitReq? then INIT_REQ else if m.RegReq? then REG_REQ else AUTH_REQ;
            ReadHeader(Wire(f, m)) == Some(Heading(REGISTRAR, command, m.id)) && Wire(f, m)[8..] == Sent(f, m)
  {
    HeaderReadsBack(REGISTRAR, Command(m), m.id, Sent(f, m));
  }

  ghost predicate Begins(ts: seq<Tree>, at: nat, t: uint16, a: Bytes, u: uint16, b: Bytes, v: uint16, c: Bytes) {
    at + 3 <= |ts| && ts[at] == Leaf(t, Field(a)) && ts[at + 1] == Leaf(u, Field(b)) && ts[at + 2] == Leaf(v, Field(c))
  }

  /** A string is found as it is if and only if its record is found and did not cut it to 16 bits. */
  lemma StringIsFound(body: Bytes, tag: uint16, s: Bytes)
    requires |body| < 0x1_0000
    ensures FindInside(body, tag) == Some(s) <==> FoundInside(body, Leaf(tag, Field(s))) && |s| < 0x1_0000
  {
  }

  lemma ThreeAreFound(body: Bytes, ts: seq<Tree>, at: nat, t: uint16, a: Bytes, u: uint16, b: Bytes, v: uint16, c: Bytes)
    requires |body| < 0x1_0000 && Begins(ts, at, t, a, u, b, v, c)
    ensures Have(body, t, a, u, b, v, c) <==>
            && FoundInside(body, ts[at]) && FoundInside(body, ts[at + 1]) && FoundInside(body, ts[at + 2])
            && |a| < 0x1_0000 && |b| < 0x1_0000 && |c| < 0x1_0000
  {
    StringIsFound(body, t, a);
    StringIsFound(body, u, b);
    StringIsFound(body, v, c);
  }

  lemma SizeOfThree(ts: seq<Tree>, at: nat, t: uint16, a: Bytes, u: uint16, b: Bytes, v: uint16, c: Bytes)
    requires Begins(ts, at, t, a, u, b, v, c) && forall i :: 0 <= i < |ts| ==> ts[i].Leaf?
    ensures Size(ts, at + 3) == Size(ts, at) + 12 + |Field(a)| + |Field(b)| + |Field(c)|
  {
    assert Size(ts, at + 1) == Size(ts, at) + 4 + |Field(a)|;
    assert Size(ts, at + 2) == Size(ts, at + 1) + 4 + |Field(b)|;
  }

  lemma FirstThreeIff(m: Request, answer: Bytes, ts: seq<Tree>, t: uint16, a: Bytes, u: uint16, b: Bytes, v: uint16, c: Bytes)
    requires !m.InitReq? && ts == Inner(m, answer) && Begins(ts, 0, t, a, u, b, v, c)
    ensures Have(Body(m, answer), t, a, u, b, v, c) <==> 4 + 12 + |a| + |b| + |c| <= InfoRoom(m)
  {
    var body := Body(m, answer);
    InnerIsDistinct(m, answer);
    assert FoundInside(body, ts[0]) && FoundInside(body, ts[1]) && FoundInside(body, ts[2]) <==> 4 + Size(ts, 3) <= InfoRoom(m) by {
      InsideIff(m, answer, 3);
    }
    ThreeAreFound(body, ts, 0, t, a, u, b, v, c);
    SizeOfThree(ts, 0, t, a, u, b, v, c);
  }

  lemma SecondThreeIff(m: Request, answer: Bytes, ts: seq<Tree>, t: uint16, a: Bytes, u: uint16, b: Bytes, v: uint16, c: Bytes)
    requires !m.InitReq? && ts == Inner(m, answer) && Begins(ts, 3, t, a, u, b, v, c) && 4 + Size(ts, 3) <= InfoRoom(m)
    ensures Have(Body(m, answer), t, a, u, b, v, c) <==> 4 + Size(ts, 3) + 12 + |a| + |b| + |c| <= InfoRoom(m)
  {
    var body := Body(m, answer);
    InnerIsDistinct(m, answer);
    InsideIff(m, answer, 3);
    InsideIff(m, answer, 6);
    ThreeAreFound(body, ts, 3, t, a, u, b, v, c);
    SizeOfThree(ts, 3, t, a, u, b, v, c);
    assert (forall i :: 0 <= i < 6 ==> FoundInside(body, ts[i])) <==>
           (forall i :: 0 <= i < 3 ==> FoundInside(body, ts[i]))
           && FoundInside(body, ts[3]) && FoundInside(body, ts[4]) && FoundInside(body, ts[5]);
  }

  lemma AuthBegins(m: Request, answer: Bytes)
    requires m.AuthReq?
    ensures var ts, c := Inner(m, answer), m.challenge;
            && Begins(ts, 0, REALM, c.realm, NONCE, c.nonce, OPAQUE, c.opq)
            && Begins(ts, 3, DIGEST_URI, DigestUri(m.info), ALGORITHM, MD5, RESP, answer)
  {
    var ts, six := Inner(m, answer), Answered(m.info, m.challenge, answer);
    assert forall i :: 0 <= i < 6 ==> ts[i] == six[i];
    assert forall i :: 0 <= i < 3 ==> six[i] == Three(REALM, m.challenge.realm, NONCE, m.challenge.nonce, OPAQUE, m.challenge.opq)[i];
  }

  /** The sent bytes read back as the challenge if and only if its records fit the buffer with what is before them. */
  lemma ChallengeIsCarriedIff(m: Request, answer: Bytes)
    requires m.AuthReq?
    ensures Carries(Body(m, answer), m.challenge) <==> ChallengeFits(m)
  {
    var c := m.challenge;
    AuthBegins(m, answer);
    FirstThreeIff(m, answer, Inner(m, answer), REALM, c.realm, NONCE, c.nonce, OPAQUE, c.opq);
  }

  /** The digest and all it was made of are carried if and only if all of it fits. */
  lemma AnswerIsCarriedIff(m: Request, answer: Bytes)
    requires m.AuthReq? && |answer| == 32
    ensures CarriesAnswer(Body(m, answer), m, answer) <==> AnswerFits(m)
  {
    var ts, c := Inner(m, answer), m.challenge;
    ChallengeIsCarriedIff(m, answer);
    if ChallengeFits(m) {
      AuthBegins(m, answer);
      InnerIsDistinct(m, answer);
      SizeOfThree(ts, 0, REALM, c.realm, NONCE, c.nonce, OPAQUE, c.opq);
      SecondThreeIff(m, answer, ts, DIGEST_URI, DigestUri(m.info), ALGORITHM, MD5, RESP, answer);
    }
  }

  lemma CodeIsCarriedIff(m: Request, answer: Bytes)
    requires m.RegReq?
    ensures FindInside(Body(m, answer), CODE) == Some(m.code) <==> CodeFits(m)
  {
    var ts := Inner(m, answer);
    InnerIsDistinct(m, answer);
    InsideIff(m, answer, 1);
    assert ts[0] == Leaf(CODE, Field(m.code));
    assert Size(ts, 1) == 4 + |Field(m.code)|;
    assert (forall i :: 0 <= i < 1 ==> FoundInside(Body(m, answer), ts[i])) <==> FoundInside(Body(m, answer), ts[0]);
  }

  /** The number comes first; it is carried if and only if it fits alone. */
  lemma NumberIsCarriedIff(m: Request, answer: Bytes)
    ensures Find(Body(m, answer), NUM) == Some(m.info.number) <==> 4 + |m.info.number| <= if m.InitReq? then 504 else 4088
  {
    var ts := Trees(m, answer);
    assert ts[0] == Outer(m)[0] == Leaf(NUM, Field(m.info.number));
    assert forall i :: 0 < i < |Outer(m)| ==> ts[i] == Outer(m)[i] && ts[i].tag != NUM;
    FindLaid(BufferSize(m) - 8, ts, 0);
  }

  // The calls that build them.

  lemma Regroup(ts: seq<Tree>, a: seq<Tree>, b: seq<Tree>, c: seq<Tree>, d: seq<Tree>)
    ensures ts + a + b + c + d == ts + (a + b + c + d)
  {
  }

  method AddAgent(w: PrimitiveTlv, info: Subscriber, ghost room: nat, ghost base: Bytes, ghost ts: seq<Tree>)
    requires Laid(w, room, base, ts)
    modifies w`l, w`state, w`error, w.p
    ensures Laid(w, room, base, ts + Agent(info)) && w.l >= old(w.l)
    ensures forall k :: 0 <= k < w.off + old(w.l) || w.off + w.l <= k < w.p.Length ==> w.p[k] == old(w.p[k])
  {
    ghost var a := Optional(USER_AGENT, info.userAgent);
    ghost var b := When(info.userType != 0xff, USER_TYPE, [info.userType]);
    ghost var c := When(info.userVersion != 0xffff_ffff, USER_VER, Image4(info.userVersion));
    Regroup(ts, a, b, c, When(info.userClient != 0xff, USER_CLIENT, [info.userClient]));
    AddWhen(w, |info.userAgent| > 0, USER_AGENT, info.userAgent, room, base, ts);
    AddWhen(w, info.userType != 0xff, USER_TYPE, [info.userType], room, base, ts + a);
    AddWhen(w, info.userVersion != 0xffff_ffff, USER_VER, Image4(info.userVersion), room, base, ts + a + b);
    AddWhen(w, info.userClient != 0xff, USER_CLIENT, [info.userClient], room, base, ts + a + b + c);
  }

  method AddThree(w: PrimitiveTlv, t: uint16, a: Bytes, u: uint16, b: Bytes, v: uint16, c: Bytes,
                  ghost room: nat, ghost base: Bytes, ghost ts: seq<Tree>)
    requires Laid(w, room, base, ts)
    modifies w`l, w`state, w`error, w.p
    ensures Laid(w, room, base, ts + Three(t, a, u, b, v, c)) && w.l >= old(w.l)
    ensures forall k :: 0 <= k < w.off + old(w.l) || w.off + w.l <= k < w.p.Length ==> w.p[k] == old(w.p[k])
  {
    ghost var x, y, z := [Leaf(t, Field(a))], [Leaf(u, Field(b))], [Leaf(v, Field(c))];
    assert ts + x + y + z == ts + Three(t, a, u, b, v, c);
    AddField(w, t, a, room, base, ts);
    AddField(w, u, b, room, base, ts + x);
    AddField(w, v, c, room, base, ts + x + y);
  }

  /** The records inside reg_info, in an empty child. */
  method AddInner(w: PrimitiveTlv, m: Request, answer: Bytes)
    requires !m.InitReq? && w.Valid() && w.size < 0x1_0000
    modifies w`l, w`state, w`error, w.p
    ensures Laid(w, old(w.EmptySize()), old(w.Written()), Inner(m, answer)) && w.l >= old(w.l)
    ensures forall k :: 0 <= k < w.off + old(w.l) || w.off + w.l <= k < w.p.Length ==> w.p[k] == old(w.p[k])
  {
    ghost var room, base := w.EmptySize(), w.Written();
    assert base + [] == base;
    match m
    case RegReq(_, info, code) =>
      assert [] + [Leaf(CODE, Field(code))] == [Leaf(CODE, Field(code))];
      AddField(w, CODE, code, room, base, []);
      AddAgent(w, info, room, base, [Leaf(CODE, Field(code))]);
    case AuthReq(_, info, c, _) =>
      ghost var first := Three(REALM, c.realm, NONCE, c.nonce, OPAQUE, c.opq);
      assert [] + first == first;
      AddThree(w, REALM, c.realm, NONCE, c.nonce, OPAQUE, c.opq, room, base, []);
      AddThree(w, DIGEST_URI, DigestUri(info), ALGORITHM, MD5, RESP, answer, room, base, first);
      AddAgent(w, info, room, base, Answered(info, c, answer));
  }

  /** The records before reg_info, in a new message. */
  method AddOuter(w: PrimitiveTlv, m: Request)
    requires w.Valid() && w.size < 0x1_0000
    modifies w`l, w`state, w`error, w.p
    ensures Laid(w, old(w.EmptySize()), old(w.Written()), Outer(m))
  {
    ghost var room, base := w.EmptySize(), w.Written();
    assert base + [] == base;
    if m.RegReq? {
      assert [] + Outer(m) == Outer(m);
      AddThree(w, NUM, m.info.number, UID, m.info.uid, DEV_UID, m.info.devUid, room, base, []);
    } else {
      ghost var first := [Leaf(NUM, Field(m.info.number))];
      assert [] + first == first && first + [] == first;
      AddField(w, NUM, m.info.number, room, base, []);
      AddWhen(w, m.AuthReq? && m.withUid, UID, m.info.uid, room, base, first);
    }
  }

  /** reg_info as a child ahead of the cursor, closed by the three calls. */
  method AddInfo(w: PrimitiveTlv, m: Request, answer: Bytes)
    requires !m.InitReq? && w.Valid() && w.size < 0x1_0000
    modifies w`l, w`state, w`error, w.p
    ensures w.Valid()
    ensures w.Written() == old(w.Written()) + LayOne(old(w.EmptySize()), Node(REG_INFO, Inner(m, answer)))
  {
    var data, ok := LayInfo(w, m, answer);
    ghost var inner := Inner(m, answer);
    assert ok ==> data.Written() == [] + Lay(w.EmptySize() - 4, inner, |inner|);
    CloseChild(w, REG_INFO, data, ok, inner);
  }

  /** The records laid ahead of the cursor; what is below it stays. */
  method LayInfo(w: PrimitiveTlv, m: Request, answer: Bytes) returns (data: PrimitiveTlv, ok: bool)
    requires !m.InitReq? && w.Valid() && w.size < 0x1_0000
    modifies w.p
    ensures w.Valid() && w.Written() == old(w.Written()) && data != w && (ok <==> w.EmptySize() > 4)
    ensures ok ==> data.p == w.p && data.off == w.off + w.l + 4 && data.size == w.EmptySize() - 4
    ensures ok ==> Laid(data, w.EmptySize() - 4, [], Inner(m, answer))
  {
    data, ok := OpenChild(w);
    ghost var before := w.Written();
    AddInner(data, m, answer);
    assert w.Written() == before;
  }

  lemma BodySplits(m: Request, answer: Bytes, base: Bytes)
    requires !m.InitReq?
    ensures var before := Lay(4088, Outer(m), |Outer(m)|);
            base + Body(m, answer) == base + before + LayOne(4088 - |before|, Node(REG_INFO, Inner(m, answer)))
  {
    var before, node := Lay(4088, Outer(m), |Outer(m)|), Node(REG_INFO, Inner(m, answer));
    LaySnoc(4088, Outer(m), node);
    ConcatAssociates(base, before, LayOne(4088 - |before|, node));
  }

  /** The whole request, as it is handed to the stream: nobody asks whether everything did fit. */
  method Build(f: Md5.Compress, m: Request) returns (message: Bytes)
    ensures message == Wire(f, m)
  {
    var answer := GenAnswer(f, m);
    var msg := BeginMessage(BufferSize(m), REGISTRAR, Command(m), m.id);
    AddBody(msg, m, answer);
    message := msg.p[..msg.l];
  }

  method GenAnswer(f: Md5.Compress, m: Request) returns (answer: Bytes)
    ensures answer == AnswerTo(f, m)
  {
    answer := [];
    if m.AuthReq? {
      var hash := GenMD5(f, m.info, m.challenge, DigestUri(m.info));
      answer := Hex(hash);
    }
  }

  method AddBody(w: PrimitiveTlv, m: Request, answer: Bytes)
    requires w.Valid() && w.size < 0x1_0000 && w.EmptySize() == BufferSize(m) - 8
    modifies w`l, w`state, w`error, w.p
    ensures w.Valid() && w.Written() == old(w.Written()) + Body(m, answer)
  {
    ghost var base := w.Written();
    AddOuter(w, m);
    if !m.InitReq? {
      BodySplits(m, answer, base);
      AddInfo(w, m, answer);
    }
  }
}
