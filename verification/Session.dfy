/**
 The session machine of plib/plib/ClientImpl.cpp: what API requests, socket events, server responses and the
 passes of Procc do to the connection state. Each handler and each pass is one atomic step. Times are
 natural numbers of milliseconds; the code sees them modulo 2^32.
 */
module Session {
  import opened Machine
  import Ticks = Clock
  import Md5
  import Registrar

  /** PConnectState */
  datatype Phase = Offline | Start | WaitConnect | Connect | WaitOpen | Open | WaitReg | WaitRegNewreg | WaitRegAuth
    | NeedReq | NeedAuth | WaitDisconnect | Online

  datatype ConnectStatus = IsOffline | IsConnecting | IsRegistration | IsOnline

  /** What the client sends to its application. */
  datatype Indication =
    | Status(id: uint32, status: ConnectStatus)
    | OnlineRsp(id: uint32, rsp: int)
    | OfflineRsp(id: uint32, rsp: int)
    | SubscriberRsp(id: uint32)
    | LogoutRsp(id: uint32, rsp: int)
    | RegistrationRequired(id: uint32, wrongCode: bool)

  datatype State = State(
    on: bool,
    phase: Phase,
    info: Registrar.Subscriber,
    code: Bytes,
    challenge: Registrar.Challenge,
    needUid: bool,
    onlineId: uint32,          // Request_Online_id
    regAt: nat,                // the time reg_tick was set
    outbox: seq<Indication>,
    sent: seq<Registrar.Request>,
    challenges: seq<Registrar.Challenge>, // those of the unauthorized responses so far
    given: seq<Bytes>)         // the codes the application has given so far

  // The subscriber the client starts with.
  const HOST := Ascii("salom.beeline.tj")
  const FIRST_UID := Ascii("0268dc6f-338e-4572-a426-5cf4f8922db9")
  const FIRST_DEV_UID := Ascii("356440085568177")
  const FIRST_AGENT := Ascii("desktop tester")
  const NOBODY := Registrar.Subscriber([], HOST, FIRST_UID, FIRST_DEV_UID, FIRST_AGENT, 0xff, 0xffff_ffff, 0xff)

  const INITIAL := State(false, Offline, NOBODY, [], Registrar.Challenge([], [], []), false, 0, 0, [], [], [], [])

  // PAPI_Result
  const OK := 0
  const UNAUTHORIZED := 6
  const NOT_FOUND := 7

  // The period after which a wait_* state is given up, and the results of requests that fail.
  const PATIENCE := 10000
  const SOCKET_ERROR := 0xfff0
  const NO_NUMBER := 0xfff1

  datatype Response = Response(rsp: int, wrongCode: bool, challenge: Registrar.Challenge, needUid: bool)

  /** `sock`: sock_command is set; `done`: the callback that the step ends with returns true. */
  datatype Event =
    | SetSubscriber(id: uint32, newInfo: Registrar.Subscriber, newCode: Bytes)
    | OnlineReq(id: uint32)
    | OfflineReq(id: uint32, done: bool, now: nat)
    | RegistrationCnf(newCode: Bytes)
    | Pass(sock: bool, done: bool, now: nat)
    | SocketConnected
    | SocketClosed
    | Text(str: string)
    | InitRsp(response: Response)
    | AuthRsp(response: Response)
    | RegRsp(response: Response)
    | LogoutAnswer(id: uint32, rsp: int, done: bool, now: nat)

  // What each event does.

  function Emit(s: State, i: Indication): State {
    s.(outbox := s.outbox + [i])
  }

  function Enter(s: State, phase: Phase, status: ConnectStatus): State {
    Emit(s.(phase := phase), Status(s.onlineId, status))
  }

  /** An empty user agent leaves the old one. */
  function Updated(old': Registrar.Subscriber, new': Registrar.Subscriber): Registrar.Subscriber {
    if new'.userAgent == [] then new'.(userAgent := old'.userAgent) else new'
  }

  /** A code that is not empty replaces the one held. */
  function Give(s: State, code: Bytes): State {
    if code == [] then s else s.(code := code, given := s.given + [code])
  }

  function DoOnline(s: State, id: uint32): State {
    if !s.phase.Offline? && !s.phase.WaitDisconnect? then s
    else if s.info.number == [] then Emit(s, OnlineRsp(id, NO_NUMBER))
    else Enter(s.(on := true, onlineId := id), Start, IsConnecting)
  }

  function SwitchOff(s: State, now: nat): State {
    if s.phase.Offline? then s.(on := false) else s.(on := false, phase := WaitDisconnect, regAt := now)
  }

  function DoOffline(s: State, id: uint32, done: bool, now: nat): State {
    var rsp := if s.phase.Offline? || done then 0 else SOCKET_ERROR;
    Emit(SwitchOff(s, now).(onlineId := 0), OfflineRsp(id, rsp))
  }

  predicate Waiting(phase: Phase) {
    phase.WaitConnect? || phase.WaitOpen? || phase.WaitReg? || phase.WaitRegNewreg? || phase.WaitRegAuth?
  }

  /** The test of the code: the signed 32-bit difference of two ticks. */
  predicate TimedOut(regAt: nat, now: nat) {
    Ticks.SignedDifference(now % TWO_TO_THE_32, regAt % TWO_TO_THE_32) >= PATIENCE
  }

  function DoPass(s: State, sock: bool, done: bool, now: nat): State {
    if !s.on then s
    else
      var t := s.(regAt := now);
      match s.phase
      case Start => if !sock then s else t.(phase := if done then WaitConnect else Start)
      case Connect => if !sock then s else t.(phase := if done then WaitOpen else Connect)
      case Open => if !sock then s else t.(phase := WaitReg, sent := if done then s.sent + [Registrar.InitReq(s.onlineId, s.info)] else s.sent)
      case NeedReq =>
        if !sock || s.code == [] then s
        else if done then t.(phase := WaitRegNewreg, sent := s.sent + [Registrar.RegReq(s.onlineId, s.info, s.code)], code := [])
        else t.(phase := Open)
      case NeedAuth =>
        if !sock then s
        else if done then
          t.(phase := WaitRegAuth, needUid := false,
             sent := s.sent + [Registrar.AuthReq(s.onlineId, s.info, s.challenge, s.needUid)])
        else t.(phase := Open)
      case WaitConnect => if TimedOut(s.regAt, now) then s.(phase := Start) else s
      case WaitOpen => if TimedOut(s.regAt, now) then s.(phase := Connect) else s
      case WaitReg => if TimedOut(s.regAt, now) then s.(phase := Open) else s
      case WaitRegNewreg => if TimedOut(s.regAt, now) then s.(phase := Open) else s
      case WaitRegAuth => if TimedOut(s.regAt, now) then s.(phase := Open) else s
      case _ => s
  }

  function DoText(s: State, str: string): State {
    if str == "" || !s.phase.WaitOpen? then s
    else if str == "Open OK" then Enter(s, Open, IsRegistration)
    else Enter(s, Connect, IsConnecting)
  }

  function NeedRegistration(s: State, wrongCode: bool): State {
    Emit(Enter(s, NeedReq, IsRegistration), RegistrationRequired(s.onlineId, wrongCode)).(code := [])
  }

  function DoInitRsp(s: State, r: Response): State {
    if r.rsp == NOT_FOUND then NeedRegistration(s, r.wrongCode)
    else if r.rsp == UNAUTHORIZED then
      Enter(s.(challenge := r.challenge, needUid := r.needUid, challenges := s.challenges + [r.challenge]),
            NeedAuth, IsRegistration)
    else Enter(s, Open, IsRegistration)
  }

  function GoOnline(s: State): State {
    Enter(if s.onlineId != 0 then Emit(s, OnlineRsp(s.onlineId, 0)) else s, Online, IsOnline)
  }

  /** The end of an auth or reg request that was awaited in the phase `own`. */
  function DoFinalRsp(s: State, r: Response, own: Phase): State {
    if r.rsp == OK then if s.phase == own then GoOnline(s) else s.(phase := Open)
    else if r.rsp == NOT_FOUND then NeedRegistration(s, r.wrongCode)
    else Enter(s, Open, IsRegistration)
  }

  function Do(s: State, e: Event): State {
    match e
    case SetSubscriber(id, info, code) => Emit(Give(s.(info := Updated(s.info, info)), code), SubscriberRsp(id))
    case OnlineReq(id) => DoOnline(s, id)
    case OfflineReq(id, done, now) => DoOffline(s, id, done, now)
    case RegistrationCnf(code) => if code == [] then s.(code := []) else Give(s, code)
    case Pass(sock, done, now) => DoPass(s, sock, done, now)
    case SocketConnected => if s.phase.WaitConnect? then s.(phase := Connect) else s
    case SocketClosed => if s.on then Enter(s, Start, IsConnecting) else Enter(s, Offline, IsOffline)
    case Text(str) => DoText(s, str)
    case InitRsp(r) => DoInitRsp(s, r)
    case AuthRsp(r) => DoFinalRsp(s, r, WaitRegAuth)
    case RegRsp(r) => DoFinalRsp(s, r, WaitRegNewreg)
    case LogoutAnswer(id, rsp, _, now) =>
      var t := Emit(s, LogoutRsp(id, rsp));
      if rsp == 0 then SwitchOff(t, now) else t
  }

  function Run(events: seq<Event>, n: nat): State
    requires n <= |events|
  {
    if n == 0 then INITIAL else Do(Run(events, n - 1), events[n - 1])
  }

  // Safety.

  predicate OffPhase(phase: Phase) {
    phase.Offline? || phase.WaitDisconnect? || phase.Open? || phase.NeedReq? || phase.NeedAuth?
  }

  predicate Safe(s: State) {
    if s.on then !s.phase.Offline? && !s.phase.WaitDisconnect? else OffPhase(s.phase)
  }

  lemma StepSafe(s: State, e: Event)
    requires Safe(s)
    ensures Safe(Do(s, e))
  {
  }

  /** A client that is switched off is never online, nor waits for the server; one that is on is never offline. */
  lemma {:induction false} RunSafe(events: seq<Event>, n: nat)
    requires n <= |events|
    ensures Safe(Run(events, n))
  {
    if n > 0 {
      RunSafe(events, n - 1);
      StepSafe(Run(events, n - 1), events[n - 1]);
    }
  }

  // What was sent.

  /** What a wait for an answer says of the last thing sent. */
  predicate Earned(phase: Phase, sent: seq<Registrar.Request>, challenge: Registrar.Challenge) {
    match phase
    case WaitRegAuth => sent != [] && var m := sent[|sent| - 1]; m.AuthReq? && m.challenge == challenge
    case WaitRegNewreg => sent != [] && var m := sent[|sent| - 1]; m.RegReq? && m.code != []
    case _ => true
  }

  /** The challenge in store is that of the latest unauthorized response. */
  predicate Latest(phase: Phase, challenges: seq<Registrar.Challenge>, challenge: Registrar.Challenge) {
    if challenges == [] then !phase.NeedAuth? && !phase.WaitRegAuth?
    else challenges[|challenges| - 1] == challenge
  }

  predicate Challenged(s: State) {
    Earned(s.phase, s.sent, s.challenge) && Latest(s.phase, s.challenges, s.challenge)
  }

  lemma PassChallenged(s: State, sock: bool, done: bool, now: nat)
    requires Challenged(s)
    ensures Challenged(DoPass(s, sock, done, now))
  {
    var t := DoPass(s, sock, done, now);
    assert t.challenge == s.challenge && t.challenges == s.challenges;
    assert t.phase.WaitRegAuth? ==> s.phase.WaitRegAuth? || s.phase.NeedAuth?;
  }

  lemma NeedRegistrationChallenged(s: State, wrongCode: bool)
    requires Challenged(s)
    ensures Challenged(NeedRegistration(s, wrongCode))
  {
  }

  lemma InitChallenged(s: State, r: Response)
    requires Challenged(s)
    ensures Challenged(DoInitRsp(s, r))
  {
    NeedRegistrationChallenged(s, r.wrongCode);
  }

  lemma OnlineChallenged(s: State)
    requires Challenged(s)
    ensures Challenged(GoOnline(s))
  {
  }

  lemma FinalChallenged(s: State, r: Response, own: Phase)
    requires Challenged(s)
    ensures Challenged(DoFinalRsp(s, r, own))
  {
    NeedRegistrationChallenged(s, r.wrongCode);
    OnlineChallenged(s);
  }

  lemma RestChallenged(s: State, e: Event)
    requires Challenged(s) && !e.Pass? && !e.InitRsp? && !e.AuthRsp? && !e.RegRsp?
    ensures Challenged(Do(s, e))
  {
    var t := Do(s, e);
    assert t.sent == s.sent && t.challenge == s.challenge && t.challenges == s.challenges;
    assert t.phase == s.phase || !(t.phase.NeedAuth? || t.phase.WaitRegAuth? || t.phase.WaitRegNewreg?);
  }

  lemma StepChallenged(s: State, e: Event)
    requires Challenged(s)
    ensures Challenged(Do(s, e))
  {
    if e.Pass? {
      PassChallenged(s, e.sock, e.done, e.now);
    } else if e.InitRsp? {
      InitChallenged(s, e.response);
    } else if e.AuthRsp? {
      FinalChallenged(s, e.response, WaitRegAuth);
    } else if e.RegRsp? {
      FinalChallenged(s, e.response, WaitRegNewreg);
    } else {
      RestChallenged(s, e);
    }
  }

  lemma {:induction false} RunChallenged(events: seq<Event>, n: nat)
    requires n <= |events|
    ensures Challenged(Run(events, n))
  {
    if n > 0 {
      RunChallenged(events, n - 1);
      StepChallenged(Run(events, n - 1), events[n - 1]);
    }
  }

  /**
   In every reachable wait_reg_auth state the last request was made of the latest challenge, which is the one
   in store; its bytes carry that challenge if and only if the challenge fits the buffer, and the digest over
   it if and only if all of that does.
   */
  lemma ChallengeIsFresh(f: Md5.Compress, events: seq<Event>, n: nat)
    requires n <= |events| && Run(events, n).phase.WaitRegAuth?
    ensures var s := Run(events, n);
            && s.challenges != [] && s.challenge == s.challenges[|s.challenges| - 1]
            && s.sent != [] && var m := s.sent[|s.sent| - 1];
               && m.AuthReq? && m.challenge == s.challenge
               && (Registrar.Carries(Registrar.Sent(f, m), s.challenge) <==> Registrar.ChallengeFits(m))
               && (Registrar.CarriesAnswer(Registrar.Sent(f, m), m, Registrar.Answer(f, m.info, s.challenge)) <==> Registrar.AnswerFits(m))
  {
    var s := Run(events, n);
    assert Challenged(s) by {
      RunChallenged(events, n);
    }
    BytesCarry(f, s.sent[|s.sent| - 1]);
  }

  lemma BytesCarry(f: Md5.Compress, m: Registrar.Request)
    requires m.AuthReq?
    ensures Registrar.Carries(Registrar.Sent(f, m), m.challenge) <==> Registrar.ChallengeFits(m)
    ensures Registrar.CarriesAnswer(Registrar.Sent(f, m), m, Registrar.Answer(f, m.info, m.challenge)) <==> Registrar.AnswerFits(m)
  {
    Registrar.ChallengeIsCarriedIff(m, Registrar.AnswerTo(f, m));
    Registrar.AnswerIsCarriedIff(m, Registrar.AnswerTo(f, m));
  }

  // The codes the application gives.

  /** `a` is what is left of `b` when some of it is left out. */
  predicate Subsequence(a: seq<Bytes>, b: seq<Bytes>) {
    a == [] ||
    (b != [] &&
     ((a[|a| - 1] == b[|b| - 1] && Subsequence(a[..|a| - 1], b[..|b| - 1])) || Subsequence(a, b[..|b| - 1])))
  }

  lemma SubsequenceSnoc(a: seq<Bytes>, b: seq<Bytes>, x: Bytes)
    requires Subsequence(a, b)
    ensures Subsequence(a + [x], b + [x])
  {
    assert (a + [x])[..|a|] == a && (b + [x])[..|b|] == b;
  }

  lemma {:induction false} SubsequenceLess(a: seq<Bytes>, x: Bytes, b: seq<Bytes>)
    requires Subsequence(a + [x], b)
    ensures Subsequence(a, b) && x in b
    decreases |b|
  {
    var b' := b[..|b| - 1];
    assert (a + [x])[..|a|] == a;
    if !(x == b[|b| - 1] && Subsequence(a, b')) {
      SubsequenceLess(a, x, b');
    }
  }

  /** The codes in the requests. */
  function CodesSent(sent: seq<Registrar.Request>): seq<Bytes> {
    if sent == [] then []
    else
      var before, m := CodesSent(sent[..|sent| - 1]), sent[|sent| - 1];
      if m.RegReq? then before + [m.code] else before
  }

  lemma CodesSentSnoc(sent: seq<Registrar.Request>, m: Registrar.Request)
    ensures CodesSent(sent + [m]) == if m.RegReq? then CodesSent(sent) + [m.code] else CodesSent(sent)
  {
    assert (sent + [m])[..|sent|] == sent;
  }

  /** The codes sent, and the one still held. */
  function Codes(s: State): seq<Bytes> {
    if s.code != [] then CodesSent(s.sent) + [s.code] else CodesSent(s.sent)
  }

  ghost predicate CodesInOrder(s: State) {
    Subsequence(Codes(s), s.given)
  }

  lemma SentInOrder(s: State)
    requires CodesInOrder(s)
    ensures Subsequence(CodesSent(s.sent), s.given)
  {
    if s.code != [] {
      SubsequenceLess(CodesSent(s.sent), s.code, s.given);
    }
  }

  lemma QuietCodes(s: State, t: State)
    requires CodesInOrder(s) && Quiet(s, t)
    ensures CodesInOrder(t)
  {
    SentInOrder(s);
    SubsequenceSnoc(CodesSent(s.sent), s.given, t.code);
  }

  lemma PassCodes(s: State, sock: bool, done: bool, now: nat)
    requires CodesInOrder(s)
    ensures CodesInOrder(DoPass(s, sock, done, now))
  {
    match s.phase
    case Open => CodesSentSnoc(s.sent, Registrar.InitReq(s.onlineId, s.info));
    case NeedReq => CodesSentSnoc(s.sent, Registrar.RegReq(s.onlineId, s.info, s.code));
    case NeedAuth => CodesSentSnoc(s.sent, Registrar.AuthReq(s.onlineId, s.info, s.challenge, s.needUid));
    case _ =>
  }

  /** Nothing is sent, and the code is kept, dropped, or replaced by a new one. */
  predicate Quiet(s: State, t: State) {
    && t.sent == s.sent
    && ((t.given == s.given && (t.code == s.code || t.code == [])) || (t.code != [] && t.given == s.given + [t.code]))
  }

  lemma EnterIsQuiet(s: State, phase: Phase, status: ConnectStatus, wrongCode: bool)
    ensures Quiet(s, Enter(s, phase, status)) && Quiet(s, NeedRegistration(s, wrongCode)) && Quiet(s, GoOnline(s))
  {
  }

  lemma InitIsQuiet(s: State, r: Response)
    ensures Quiet(s, DoInitRsp(s, r))
  {
    EnterIsQuiet(s, Open, IsRegistration, r.wrongCode);
  }

  lemma FinalIsQuiet(s: State, r: Response, own: Phase)
    ensures Quiet(s, DoFinalRsp(s, r, own))
  {
    EnterIsQuiet(s, Open, IsRegistration, r.wrongCode);
  }

  lemma StepIsQuiet(s: State, e: Event)
    requires !e.Pass?
    ensures Quiet(s, Do(s, e))
  {
    if e.InitRsp? {
      InitIsQuiet(s, e.response);
    } else if e.AuthRsp? {
      FinalIsQuiet(s, e.response, WaitRegAuth);
    } else if e.RegRsp? {
      FinalIsQuiet(s, e.response, WaitRegNewreg);
    }
  }

  lemma StepCodes(s: State, e: Event)
    requires CodesInOrder(s)
    ensures CodesInOrder(Do(s, e))
  {
    if e.Pass? {
      PassCodes(s, e.sock, e.done, e.now);
    } else {
      StepIsQuiet(s, e);
      QuietCodes(s, Do(s, e));
    }
  }

  /** Over every run the codes sent, and the one still held, are codes the application gave, in order, each once. */
  lemma {:induction false} CodesAreSentOnce(events: seq<Event>, n: nat)
    requires n <= |events|
    ensures Subsequence(Codes(Run(events, n)), Run(events, n).given)
  {
    if n > 0 {
      CodesAreSentOnce(events, n - 1);
      StepCodes(Run(events, n - 1), events[n - 1]);
    }
  }

  lemma LastCodeIsGiven(s: State)
    requires CodesInOrder(s) && s.sent != [] && s.sent[|s.sent| - 1].RegReq?
    ensures s.sent[|s.sent| - 1].code in s.given
  {
    SentInOrder(s);
    var k := |s.sent| - 1;
    SubsequenceLess(CodesSent(s.sent[..k]), s.sent[k].code, s.given);
  }

  // How a client gets online.

  lemma EntersOnline(s: State, e: Event)
    requires Safe(s) && !s.phase.Online? && Do(s, e).phase.Online?
    ensures s.on && Do(s, e).on
    ensures (e.AuthRsp? && s.phase.WaitRegAuth? && e.response.rsp == OK)
            || (e.RegRsp? && s.phase.WaitRegNewreg? && e.response.rsp == OK)
  {
  }

  /**
   Online is entered only while the client is on, by an ok response in its own wait state. The last thing sent
   was then made of the latest challenge, or of a code the application gave, and the bytes carried that if and
   only if it fitted.
   */
  lemma OnlineIsEarned(f: Md5.Compress, events: seq<Event>, n: nat)
    requires n < |events| && !Run(events, n).phase.Online? && Run(events, n + 1).phase.Online?
    ensures var s, e, t := Run(events, n), events[n], Run(events, n + 1);
            && t.on && s.sent != []
            && (e.AuthRsp? || e.RegRsp?) && e.response.rsp == OK
            && var m := s.sent[|s.sent| - 1];
               && (e.AuthRsp? ==>
                    && s.phase.WaitRegAuth? && m.AuthReq?
                    && s.challenges != [] && m.challenge == s.challenges[|s.challenges| - 1]
                    && (Registrar.Carries(Registrar.Sent(f, m), m.challenge) <==> Registrar.ChallengeFits(m))
                    && (Registrar.CarriesAnswer(Registrar.Sent(f, m), m, Registrar.Answer(f, m.info, m.challenge)) <==> Registrar.AnswerFits(m)))
               && (e.RegRsp? ==>
                    && s.phase.WaitRegNewreg? && m.RegReq? && m.code in s.given
                    && (Registrar.FindInside(Registrar.Sent(f, m), Registrar.CODE) == Some(m.code) <==> Registrar.CodeFits(m)))
  {
    var s, e := Run(events, n), events[n];
    RunSafe(events, n);
    EntersOnline(s, e);
    if e.AuthRsp? {
      ChallengeIsFresh(f, events, n);
    } else {
      RunChallenged(events, n);
      CodesAreSentOnce(events, n);
      LastCodeIsGiven(s);
      Registrar.CodeIsCarriedIff(s.sent[|s.sent| - 1], []);
    }
  }

  // What the application is told.

  /** The last status told; offline before the first. */
  function Told(outbox: seq<Indication>): ConnectStatus {
    if outbox == [] then IsOffline
    else
      match outbox[|outbox| - 1]
      case Status(_, status) => status
      case _ => Told(outbox[..|outbox| - 1])
  }

  lemma EmitTold(s: State, i: Indication)
    ensures Told(Emit(s, i).outbox) == if i.Status? then i.status else Told(s.outbox)
  {
    assert (s.outbox + [i])[..|s.outbox|] == s.outbox;
  }

  lemma EnterTold(s: State, phase: Phase, status: ConnectStatus)
    ensures Told(Enter(s, phase, status).outbox) == status
  {
    EmitTold(s.(phase := phase), Status(s.onlineId, status));
  }

  function StatusOf(phase: Phase): ConnectStatus
    requires !phase.WaitDisconnect?
  {
    match phase
    case Offline => IsOffline
    case Start | WaitConnect | Connect | WaitOpen => IsConnecting
    case Online => IsOnline
    case _ => IsRegistration
  }

  /** The application has been told the phase the session is in. */
  predicate Agrees(s: State) {
    s.phase.WaitDisconnect? || Told(s.outbox) == StatusOf(s.phase)
  }

  /** An ok response outside its own wait state, when the last status told is not registration. */
  predicate Unannounced(s: State, e: Event) {
    && ((e.AuthRsp? && !s.phase.WaitRegAuth?) || (e.RegRsp? && !s.phase.WaitRegNewreg?))
    && e.response.rsp == OK
    && Told(s.outbox) != IsRegistration
  }

  lemma NeedRegistrationAgrees(s: State, wrongCode: bool)
    ensures Agrees(NeedRegistration(s, wrongCode))
  {
    EnterTold(s, NeedReq, IsRegistration);
    EmitTold(Enter(s, NeedReq, IsRegistration), RegistrationRequired(s.onlineId, wrongCode));
  }

  lemma InitAgrees(s: State, r: Response)
    ensures Agrees(DoInitRsp(s, r))
  {
    NeedRegistrationAgrees(s, r.wrongCode);
    EnterTold(s.(challenge := r.challenge, needUid := r.needUid, challenges := s.challenges + [r.challenge]),
              NeedAuth, IsRegistration);
    EnterTold(s, Open, IsRegistration);
  }

  lemma FinalAgrees(s: State, r: Response, own: Phase)
    ensures Agrees(DoFinalRsp(s, r, own)) <==> r.rsp != OK || s.phase == own || Told(s.outbox) == IsRegistration
  {
    NeedRegistrationAgrees(s, r.wrongCode);
    EnterTold(s, Open, IsRegistration);
    EnterTold(s, Online, IsOnline);
    EnterTold(Emit(s, OnlineRsp(s.onlineId, 0)), Online, IsOnline);
  }

  lemma PassAgrees(s: State, sock: bool, done: bool, now: nat)
    requires Agrees(s)
    ensures Agrees(DoPass(s, sock, done, now))
  {
  }

  lemma RequestAgrees(s: State, e: Event)
    requires Agrees(s) && (e.OnlineReq? || e.OfflineReq? || e.LogoutAnswer? || e.SetSubscriber?)
    ensures Agrees(Do(s, e))
  {
    match e
    case SetSubscriber(id, info, code) =>
      EmitTold(Give(s.(info := Updated(s.info, info)), code), SubscriberRsp(id));
    case OnlineReq(id) =>
      EmitTold(s, OnlineRsp(id, NO_NUMBER));
      EnterTold(s.(on := true, onlineId := id), Start, IsConnecting);
    case OfflineReq(id, done, now) =>
      EmitTold(SwitchOff(s, now).(onlineId := 0), OfflineRsp(id, if s.phase.Offline? || done then 0 else SOCKET_ERROR));
    case LogoutAnswer(id, rsp, _, now) =>
      EmitTold(s, LogoutRsp(id, rsp));
  }

  lemma StepAgrees(s: State, e: Event)
    requires Safe(s) && Agrees(s)
    ensures Agrees(Do(s, e)) <==> !Unannounced(s, e)
  {
    match e
    case Pass(sock, done, now) => PassAgrees(s, sock, done, now);
    case InitRsp(r) => InitAgrees(s, r);
    case AuthRsp(r) => FinalAgrees(s, r, WaitRegAuth);
    case RegRsp(r) => FinalAgrees(s, r, WaitRegNewreg);
    case Text(str) =>
      EnterTold(s, Open, IsRegistration);
      EnterTold(s, Connect, IsConnecting);
    case SocketClosed =>
      EnterTold(s, Start, IsConnecting);
      EnterTold(s, Offline, IsOffline);
    case SocketConnected =>
    case RegistrationCnf(code) =>
    case _ => RequestAgrees(s, e);
  }

  ghost predicate AgreesThroughout(events: seq<Event>, n: nat)
    requires n <= |events|
  {
    forall k :: 0 <= k <= n ==> AgreesAfter(events, k)
  }

  ghost predicate AgreesAfter(events: seq<Event>, k: nat)
    requires k <= |events|
  {
    Agrees(Run(events, k))
  }

  ghost predicate UnannouncedAt(events: seq<Event>, k: nat)
    requires k < |events|
  {
    Unannounced(Run(events, k), events[k])
  }

  lemma LastAgrees(events: seq<Event>, n: nat)
    requires 0 < n <= |events| && AgreesAfter(events, n - 1)
    ensures AgreesAfter(events, n) <==> !UnannouncedAt(events, n - 1)
  {
    RunSafe(events, n - 1);
    StepAgrees(Run(events, n - 1), events[n - 1]);
  }

  /** The statuses told follow the session through a whole run if and only if it has no unannounced step. */
  lemma {:induction false} StatusRefinesPhase(events: seq<Event>, n: nat)
    requires n <= |events|
    ensures AgreesThroughout(events, n) <==> forall k :: 0 <= k < n ==> !UnannouncedAt(events, k)
  {
    if n > 0 {
      StatusRefinesPhase(events, n - 1);
      if AgreesThroughout(events, n - 1) {
        LastAgrees(events, n);
      }
    } else {
      assert AgreesAfter(events, 0);
    }
  }

  // Two runs.

  /** On, connected, opened, asked, challenged, and answered. */
  function ChallengedRun(info: Registrar.Subscriber, c: Registrar.Challenge): seq<Event> {
    [SetSubscriber(1, info, []), OnlineReq(2), Pass(true, true, 0), SocketConnected, Pass(true, true, 0), Text("Open OK"),
     Pass(true, true, 0), InitRsp(Response(UNAUTHORIZED, false, c, false)), Pass(true, true, 0),
     AuthRsp(Response(OK, false, c, false)), AuthRsp(Response(OK, false, c, false))]
  }

  lemma StartedRunStates(info: Registrar.Subscriber, c: Registrar.Challenge)
    requires info.number != [] && info.userAgent != []
    ensures var s := Run(ChallengedRun(info, c), 2);
            s.on && s.phase.Start? && s.info == info && s.onlineId == 2 && s.sent == []
  {
    var events := ChallengedRun(info, c);
    assert Run(events, 0) == INITIAL && INITIAL.phase.Offline? && INITIAL.sent == [];
    var s1 := Run(events, 1);
    assert s1 == Do(INITIAL, events[0]);
    assert s1.phase.Offline? && s1.info == info && s1.sent == [];
    assert Run(events, 2) == Do(s1, events[1]);
  }

  lemma OpenedRunStates(info: Registrar.Subscriber, c: Registrar.Challenge)
    requires info.number != [] && info.userAgent != []
    ensures var s := Run(ChallengedRun(info, c), 7);
            && s.on && s.phase.WaitReg? && s.info == info && s.onlineId == 2 && s.sent == [Registrar.InitReq(2, info)]
  {
    var events := ChallengedRun(info, c);
    StartedRunStates(info, c);
    var s2 := Run(events, 2);
    assert Run(events, 3) == s2.(phase := WaitConnect, regAt := 0);
    assert Run(events, 4) == s2.(phase := Connect, regAt := 0);
    assert Run(events, 5) == s2.(phase := WaitOpen, regAt := 0);
    var s6 := Run(events, 6);
    assert s6 == Enter(Run(events, 5), Open, IsRegistration);
    assert Run(events, 7) == s6.(phase := WaitReg, regAt := 0, sent := [Registrar.InitReq(2, info)]);
  }

  lemma ChallengedRunStates(info: Registrar.Subscriber, c: Registrar.Challenge)
    requires info.number != [] && info.userAgent != []
    ensures var events := ChallengedRun(info, c);
            && Run(events, 9).phase.WaitRegAuth? && Run(events, 9).on && Run(events, 9).onlineId == 2
            && Run(events, 9).sent == [Registrar.InitReq(2, info), Registrar.AuthReq(2, info, c, false)]
            && Run(events, 10).phase.Online? && Told(Run(events, 10).outbox).IsOnline?
            && Run(events, 11).phase.Open? && Told(Run(events, 11).outbox).IsOnline?
  {
    var events := ChallengedRun(info, c);
    OpenedRunStates(info, c);
    var s7 := Run(events, 7);
    var s8 := Run(events, 8);
    assert s8 == DoInitRsp(s7, Response(UNAUTHORIZED, false, c, false));
    assert s8.on && s8.phase.NeedAuth? && s8.challenge == c && !s8.needUid && s8.sent == s7.sent && s8.info == info && s8.onlineId == 2;
    var s9 := Run(events, 9);
    assert s9.sent == s8.sent + [Registrar.AuthReq(2, info, c, false)];
    var s10 := Run(events, 10);
    assert s10 == GoOnline(s9);
    EnterTold(Emit(s9, OnlineRsp(2, 0)), Online, IsOnline);
    assert Run(events, 11) == s10.(phase := Open);
  }

  /** A late ok response takes an online client to the phase open, and the application is not told. */
  lemma LateOkIsUnannounced(info: Registrar.Subscriber, c: Registrar.Challenge)
    requires info.number != [] && info.userAgent != []
    ensures var events := ChallengedRun(info, c);
            && Run(events, 10).phase.Online? && Agrees(Run(events, 10))
            && UnannouncedAt(events, 10) && !Agrees(Run(events, 11))
  {
    ChallengedRunStates(info, c);
  }

  /**
   With a number of one byte and a realm of 4076 the realm is left out of the request; the client waits for
   the answer all the same, and an ok response takes it online.
   */
  lemma LongRealmIsDropped(f: Md5.Compress, info: Registrar.Subscriber, c: Registrar.Challenge)
    requires |info.number| == 1 && info.userAgent != [] && |c.realm| == 4076
    ensures var events := ChallengedRun(info, c);
            && Run(events, 9).phase.WaitRegAuth? && Run(events, 10).phase.Online?
            && Run(events, 9).challenge == c && |Run(events, 9).sent| == 2
            && Run(events, 9).sent[1].AuthReq?
            && Registrar.FindInside(Registrar.Sent(f, Run(events, 9).sent[1]), Registrar.REALM) == None
  {
    ChallengedRunStates(info, c);
    var m := Registrar.AuthReq(2, info, c, false);
    RunChallenged(ChallengedRun(info, c), 9);
    assert Registrar.InfoRoom(m) == 4083;
    Registrar.RealmIsSentIff(m, Registrar.AnswerTo(f, m));
  }

  // What a late response does to a client that is switched off.

  /**
   A client that is switched off while it is open, because a response of the registrar came late, drops an
   Online_Req without a word; in every other phase a client that is off and has a number obeys it.
   */
  lemma OnlineObeyedIff(events: seq<Event>, n: nat, id: uint32)
    requires n <= |events| && !Run(events, n).on && Run(events, n).info.number != []
    ensures var s := Run(events, n); var t := Do(s, OnlineReq(id));
            if s.phase.Open? || s.phase.NeedReq? || s.phase.NeedAuth? then t == s
            else t.on && t.phase.Start? && t.onlineId == id && Told(t.outbox).IsConnecting?
  {
    RunSafe(events, n);
    var s := Run(events, n);
    EnterTold(s.(on := true, onlineId := id), Start, IsConnecting);
  }

  // The ten seconds of patience.

  /** The time of the last timed event; `began` before the first. */
  function Now(began: nat, events: seq<Event>, n: nat): nat
    requires n <= |events|
  {
    if n == 0 then began
    else if Timeless(events[n - 1]) then Now(began, events, n - 1)
    else events[n - 1].now
  }

  predicate Timeless(e: Event) {
    !e.Pass? && !e.OfflineReq? && !e.LogoutAnswer?
  }

  /** The time of the last pass; `began` before the first. */
  function LastPass(began: nat, events: seq<Event>, n: nat): nat
    requires n <= |events|
  {
    if n == 0 then began else if events[n - 1].Pass? then events[n - 1].now else LastPass(began, events, n - 1)
  }

  /** The clock does not run back, and Procc passes at least once in 2^31 - 10000 ms. */
  ghost predicate Timed(began: nat, events: seq<Event>) {
    forall n :: 0 <= n < |events| ==> TimedAt(began, events, n)
  }

  ghost predicate TimedAt(began: nat, events: seq<Event>, n: nat)
    requires n < |events|
  {
    !Timeless(events[n]) ==>
      Now(began, events, n) <= events[n].now <= LastPass(began, events, n) + 0x8000_0000 - PATIENCE
  }

  lemma TimedOutIsExact(regAt: nat, now: nat)
    requires regAt <= now < regAt + 0x8000_0000
    ensures TimedOut(regAt, now) <==> now - regAt >= PATIENCE
  {
    var a: int, b: int := now % TWO_TO_THE_32, regAt % TWO_TO_THE_32;
    assert now - regAt == a - b + TWO_TO_THE_32 * (now / TWO_TO_THE_32 - regAt / TWO_TO_THE_32);
  }

  ghost predicate Patient(s: State, now: nat, passed: nat) {
    && s.regAt <= now && passed <= now
    && (Waiting(s.phase) ==> passed < s.regAt + PATIENCE)
  }

  lemma PassPatient(s: State, was: nat, passed: nat, sock: bool, done: bool, now: nat)
    requires Safe(s) && Patient(s, was, passed) && was <= now <= passed + 0x8000_0000 - PATIENCE
    ensures Patient(DoPass(s, sock, done, now), now, now)
  {
    if Waiting(s.phase) {
      TimedOutIsExact(s.regAt, now);
    }
  }

  lemma StepPatient(s: State, was: nat, passed: nat, e: Event)
    requires Safe(s) && Patient(s, was, passed)
    requires !Timeless(e) ==> was <= e.now <= passed + 0x8000_0000 - PATIENCE
    ensures Patient(Do(s, e), if Timeless(e) then was else e.now, if e.Pass? then e.now else passed)
  {
    match e
    case Pass(sock, done, now) => PassPatient(s, was, passed, sock, done, now);
    case _ =>
  }

  /** No wait state outlives by ten seconds the pass that entered it and then another pass. */
  lemma {:induction false} WaitsAreGivenUp(began: nat, events: seq<Event>, n: nat)
    requires n <= |events| && Timed(began, events)
    ensures Patient(Run(events, n), Now(began, events, n), LastPass(began, events, n))
  {
    if n > 0 {
      WaitsAreGivenUp(began, events, n - 1);
      RunSafe(events, n - 1);
      assert TimedAt(began, events, n - 1);
      StepPatient(Run(events, n - 1), Now(began, events, n - 1), LastPass(began, events, n - 1), events[n - 1]);
    }
  }

  /** And no pass gives one up earlier. */
  lemma NoneIsGivenUpEarly(began: nat, events: seq<Event>, n: nat)
    requires n < |events| && Timed(began, events) && events[n].Pass?
    requires Waiting(Run(events, n).phase) && !Waiting(Run(events, n + 1).phase)
    ensures events[n].now >= Run(events, n).regAt + PATIENCE
  {
    WaitsAreGivenUp(began, events, n);
    RunSafe(events, n);
    assert TimedAt(began, events, n);
    TimedOutIsExact(Run(events, n).regAt, events[n].now);
  }

  /** A client that is switched off before the registrar answers is off and open, and so deaf to Online_Req. */
  lemma OffCanBeOpen(info: Registrar.Subscriber, r: Response)
    requires info.number != [] && info.userAgent != [] && r.rsp != NOT_FOUND && r.rsp != UNAUTHORIZED
    ensures var events := [SetSubscriber(1, info, []), OnlineReq(2), OfflineReq(3, true, 0), InitRsp(r)];
            && !Run(events, 4).on && Run(events, 4).phase.Open?
            && Do(Run(events, 4), OnlineReq(4)) == Run(events, 4)
  {
    var events := [SetSubscriber(1, info, []), OnlineReq(2), OfflineReq(3, true, 0), InitRsp(r)];
    assert Run(events, 1).phase.Offline? && Run(events, 1).info == info;
    assert Run(events, 2).phase.Start?;
    assert Run(events, 3).phase.WaitDisconnect? && !Run(events, 3).on;
  }
}
