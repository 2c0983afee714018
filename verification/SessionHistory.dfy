/** What the state of a session says of the events so far, and what the application was told of them. */
module SessionHistory {
  import opened Machine
  import opened Session
  import Registrar

  // The socket.

  /** The last event of the socket was that it is connected. */
  predicate Connected(events: seq<Event>, n: nat)
    requires n <= |events|
  {
    if n == 0 then false
    else if events[n - 1].SocketConnected? then true
    else if events[n - 1].SocketClosed? then false
    else Connected(events, n - 1)
  }

  lemma PassConnected(s: State, sock: bool, done: bool, now: nat)
    ensures var t := DoPass(s, sock, done, now);
            t.phase.Connect? || t.phase.WaitOpen? ==> s.phase.Connect? || s.phase.WaitOpen?
  {
  }

  lemma StepConnected(s: State, e: Event)
    requires Do(s, e).phase.Connect? || Do(s, e).phase.WaitOpen?
    ensures e.SocketConnected? || (!e.SocketClosed? && (s.phase.Connect? || s.phase.WaitOpen?))
  {
    if e.Pass? {
      PassConnected(s, e.sock, e.done, e.now);
    }
  }

  /** "Open" is sent, and its answer awaited, only over a socket that has not been closed since it connected. */
  lemma {:induction false} OpensOverSocket(events: seq<Event>, n: nat)
    requires n <= |events| && (Run(events, n).phase.Connect? || Run(events, n).phase.WaitOpen?)
    ensures Connected(events, n)
  {
    if n > 0 {
      StepConnected(Run(events, n - 1), events[n - 1]);
      if !events[n - 1].SocketConnected? {
        OpensOverSocket(events, n - 1);
      }
    }
  }

  // The fields.

  /** An Online_Req that is obeyed: the client is offline, or nearly, and has a number. */
  predicate Obeys(s: State, e: Event) {
    e.OnlineReq? && (s.phase.Offline? || s.phase.WaitDisconnect?) && s.info.number != []
  }

  predicate SwitchesOff(e: Event) {
    e.OfflineReq? || (e.LogoutAnswer? && e.rsp == OK)
  }

  /** The last request that was obeyed was to go online. */
  predicate Wanted(events: seq<Event>, n: nat)
    requires n <= |events|
  {
    if n == 0 then false
    else if SwitchesOff(events[n - 1]) then false
    else Obeys(Run(events, n - 1), events[n - 1]) || Wanted(events, n - 1)
  }

  /** The id of the last Online_Req obeyed; none after an Offline_Req. */
  function OnlineId(events: seq<Event>, n: nat): uint32
    requires n <= |events|
  {
    if n == 0 || events[n - 1].OfflineReq? then 0
    else if Obeys(Run(events, n - 1), events[n - 1]) then events[n - 1].id
    else OnlineId(events, n - 1)
  }

  /** What the last SetSubscriberInfo said. */
  function Subscriber(events: seq<Event>, n: nat): Registrar.Subscriber
    requires n <= |events|
  {
    if n == 0 then NOBODY else if events[n - 1].SetSubscriber? then events[n - 1].newInfo else Subscriber(events, n - 1)
  }

  /** The last user agent given. */
  function Agent(events: seq<Event>, n: nat): Bytes
    requires n <= |events|
  {
    if n == 0 then FIRST_AGENT
    else if events[n - 1].SetSubscriber? && events[n - 1].newInfo.userAgent != [] then events[n - 1].newInfo.userAgent
    else Agent(events, n - 1)
  }

  /** The subscriber is the last one set, with the last user agent that was given. */
  function Info(events: seq<Event>, n: nat): Registrar.Subscriber
    requires n <= |events|
  {
    Subscriber(events, n).(userAgent := Agent(events, n))
  }

  predicate GivesCode(e: Event) {
    (e.SetSubscriber? || e.RegistrationCnf?) && e.newCode != []
  }

  /** The codes given so far. */
  function Given(events: seq<Event>, n: nat): seq<Bytes>
    requires n <= |events|
  {
    if n == 0 then [] else if GivesCode(events[n - 1]) then Given(events, n - 1) + [events[n - 1].newCode] else Given(events, n - 1)
  }

  predicate Challenges(e: Event) {
    e.InitRsp? && e.response.rsp == UNAUTHORIZED
  }

  /** The challenges of the unauthorized responses so far. */
  function Received(events: seq<Event>, n: nat): seq<Registrar.Challenge>
    requires n <= |events|
  {
    if n == 0 then []
    else if Challenges(events[n - 1]) then Received(events, n - 1) + [events[n - 1].response.challenge]
    else Received(events, n - 1)
  }

  /** A response that the number is not registered. */
  predicate Unknown(e: Event) {
    (e.InitRsp? || e.AuthRsp? || e.RegRsp?) && e.response.rsp == NOT_FOUND
  }

  /** A step that sends a request of the kind that the phase calls for. */
  predicate Sends(s: State, e: Event) {
    e.Pass? && e.sock && e.done && s.on && (s.phase.Open? || s.phase.NeedAuth? || (s.phase.NeedReq? && s.code != []))
  }

  /** The last code given, unless it has been sent, taken back, or asked for anew. */
  function Held(events: seq<Event>, n: nat): Bytes
    requires n <= |events|
  {
    if n == 0 then []
    else
      var s, e := Run(events, n - 1), events[n - 1];
      if GivesCode(e) then e.newCode
      else if e.RegistrationCnf? || Unknown(e) || (Sends(s, e) && s.phase.NeedReq?) then []
      else Held(events, n - 1)
  }

  /** The last challenge asked for the uid, and it has not been answered. */
  predicate UidAsked(events: seq<Event>, n: nat)
    requires n <= |events|
  {
    if n == 0 then false
    else
      var s, e := Run(events, n - 1), events[n - 1];
      if Challenges(e) then e.response.needUid
      else if Sends(s, e) && s.phase.NeedAuth? then false
      else UidAsked(events, n - 1)
  }

  /** What no response changes. */
  ghost predicate Keeps(s: State, t: State) {
    t.on == s.on && t.onlineId == s.onlineId && t.info == s.info && t.given == s.given && t.sent == s.sent && t.regAt == s.regAt
  }

  lemma NeedRegistrationKeeps(s: State, wrongCode: bool)
    ensures var t := NeedRegistration(s, wrongCode);
            Keeps(s, t) && t.challenges == s.challenges && t.needUid == s.needUid && t.code == []
  {
  }

  lemma FinalKeeps(s: State, e: Event)
    requires e.AuthRsp? || e.RegRsp?
    ensures var t := Do(s, e);
            Keeps(s, t) && t.challenges == s.challenges && t.needUid == s.needUid && t.code == (if Unknown(e) then [] else s.code)
  {
    NeedRegistrationKeeps(s, e.response.wrongCode);
  }

  lemma ResponseKeeps(s: State, e: Event)
    requires e.InitRsp? || e.AuthRsp? || e.RegRsp?
    ensures var t := Do(s, e);
            && Keeps(s, t)
            && t.challenges == (if Challenges(e) then s.challenges + [e.response.challenge] else s.challenges)
            && t.code == (if Unknown(e) then [] else s.code)
            && t.needUid == (if Challenges(e) then e.response.needUid else s.needUid)
  {
    if e.InitRsp? {
    } else {
      FinalKeeps(s, e);
    }
  }

  lemma StepFields(s: State, e: Event)
    ensures var t := Do(s, e);
            && (t.on <==> !SwitchesOff(e) && (Obeys(s, e) || s.on))
            && t.onlineId == (if e.OfflineReq? then 0 else if Obeys(s, e) then e.id else s.onlineId)
            && t.given == (if GivesCode(e) then s.given + [e.newCode] else s.given)
            && t.challenges == (if Challenges(e) then s.challenges + [e.response.challenge] else s.challenges)
  {
    if e.Pass? {
    } else if e.InitRsp? || e.AuthRsp? || e.RegRsp? {
      ResponseKeeps(s, e);
    }
  }

  lemma StepInfo(s: State, e: Event)
    ensures Do(s, e).info == if !e.SetSubscriber? then s.info
                             else if e.newInfo.userAgent != [] then e.newInfo
                             else e.newInfo.(userAgent := s.info.userAgent)
  {
    if e.Pass? {
    } else if e.InitRsp? || e.AuthRsp? || e.RegRsp? {
      ResponseKeeps(s, e);
    }
  }

  lemma StepHeld(s: State, e: Event)
    ensures Do(s, e).code == if GivesCode(e) then e.newCode
                             else if e.RegistrationCnf? || Unknown(e) || (Sends(s, e) && s.phase.NeedReq?) then []
                             else s.code
    ensures Do(s, e).needUid == if Challenges(e) then e.response.needUid
                                else if Sends(s, e) && s.phase.NeedAuth? then false
                                else s.needUid
  {
    if e.Pass? {
    } else if e.InitRsp? || e.AuthRsp? || e.RegRsp? {
      ResponseKeeps(s, e);
    }
  }

  /** In every reachable state the fields are what the events so far have made them. */
  lemma {:induction false} FieldsAreHistory(events: seq<Event>, n: nat)
    requires n <= |events|
    ensures var s := Run(events, n);
            && s.on == Wanted(events, n) && s.onlineId == OnlineId(events, n) && s.info == Info(events, n)
            && s.given == Given(events, n) && s.challenges == Received(events, n)
            && s.code == Held(events, n) && s.needUid == UidAsked(events, n)
  {
    if n > 0 {
      FieldsAreHistory(events, n - 1);
      StepFields(Run(events, n - 1), events[n - 1]);
      StepInfo(Run(events, n - 1), events[n - 1]);
      StepHeld(Run(events, n - 1), events[n - 1]);
    }
  }

  // The requests.

  /** What a request of the phase is to be made of: the id, the subscriber, the code and the challenge as they were last given. */
  ghost predicate Current(events: seq<Event>, n: nat, m: Registrar.Request)
    requires n <= |events|
  {
    && m.id == OnlineId(events, n) && m.info == Info(events, n)
    && match m
       case InitReq(_, _) => Run(events, n).phase.Open?
       case RegReq(_, _, code) => Run(events, n).phase.NeedReq? && code == Held(events, n)
       case AuthReq(_, _, c, withUid) =>
         && Run(events, n).phase.NeedAuth? && withUid == UidAsked(events, n)
         && Received(events, n) != [] && c == Received(events, n)[|Received(events, n)| - 1]
  }

  lemma StepSends(s: State, e: Event)
    ensures var t := Do(s, e);
            if Sends(s, e) then
              t.sent == s.sent + [match s.phase
                                  case NeedReq => Registrar.RegReq(s.onlineId, s.info, s.code)
                                  case NeedAuth => Registrar.AuthReq(s.onlineId, s.info, s.challenge, s.needUid)
                                  case _ => Registrar.InitReq(s.onlineId, s.info)]
            else t.sent == s.sent
  {
  }

  /**
   A request is sent by the passes that are to send one and by nothing else, and it is made of what the
   application and the registrar said last.
   */
  lemma RequestsAreCurrent(events: seq<Event>, n: nat)
    requires n < |events|
    ensures var s, t := Run(events, n), Run(events, n + 1);
            if Sends(s, events[n])
            then |t.sent| == |s.sent| + 1 && t.sent[..|s.sent|] == s.sent && Current(events, n, t.sent[|s.sent|])
            else t.sent == s.sent
  {
    FieldsAreHistory(events, n);
    RunChallenged(events, n);
    StepSends(Run(events, n), events[n]);
  }

  // The phase.

  predicate Ok(e: Event) {
    (e.AuthRsp? || e.RegRsp?) && e.response.rsp == OK
  }

  /** An ok response in its own wait state. */
  predicate Awaited(s: State, e: Event) {
    Ok(e) && ((e.AuthRsp? && s.phase.WaitRegAuth?) || (e.RegRsp? && s.phase.WaitRegNewreg?))
  }

  predicate Refused(e: Event) {
    && (e.InitRsp? || e.AuthRsp? || e.RegRsp?) && !Ok(e) && !Unknown(e) && !Challenges(e)
  }

  predicate GivesUp(s: State, e: Event) {
    e.Pass? && s.on && Waiting(s.phase) && TimedOut(s.regAt, e.now)
  }

  /** A pass that the phase lets act, with the socket there. */
  predicate Acts(s: State, e: Event) {
    e.Pass? && e.sock && s.on && (s.phase.NeedReq? ==> s.code != [])
  }

  predicate Answers(s: State, e: Event) {
    e.Text? && e.str != "" && s.phase.WaitOpen?
  }

  /** What brings the client into a phase. */
  predicate LeadsTo(s: State, e: Event, phase: Phase) {
    match phase
    case Offline => e.SocketClosed? && !s.on
    case Start => Obeys(s, e) || (e.SocketClosed? && s.on) || (GivesUp(s, e) && s.phase.WaitConnect?)
    case WaitConnect => Acts(s, e) && e.done && s.phase.Start?
    case Connect =>
      (e.SocketConnected? && s.phase.WaitConnect?) || (Answers(s, e) && e.str != "Open OK") || (GivesUp(s, e) && s.phase.WaitOpen?)
    case WaitOpen => Acts(s, e) && e.done && s.phase.Connect?
    case Open =>
      || (Answers(s, e) && e.str == "Open OK") || Refused(e) || (Ok(e) && !Awaited(s, e))
      || (GivesUp(s, e) && !s.phase.WaitConnect? && !s.phase.WaitOpen?)
      || (Acts(s, e) && !e.done && (s.phase.NeedReq? || s.phase.NeedAuth?))
    case WaitReg => Acts(s, e) && s.phase.Open?
    case WaitRegNewreg => Acts(s, e) && e.done && s.phase.NeedReq?
    case WaitRegAuth => Acts(s, e) && e.done && s.phase.NeedAuth?
    case NeedReq => Unknown(e)
    case NeedAuth => Challenges(e)
    case WaitDisconnect => SwitchesOff(e) && !s.phase.Offline?
    case Online => Awaited(s, e)
  }

  lemma PassLeads(s: State, e: Event, phase: Phase)
    requires e.Pass?
    ensures LeadsTo(s, e, phase) ==> Do(s, e).phase == phase
    ensures Do(s, e).phase == phase != s.phase ==> LeadsTo(s, e, phase)
  {
  }

  lemma ResponseLeads(s: State, e: Event, phase: Phase)
    requires e.InitRsp? || e.AuthRsp? || e.RegRsp?
    ensures LeadsTo(s, e, phase) ==> Do(s, e).phase == phase
    ensures Do(s, e).phase == phase != s.phase ==> LeadsTo(s, e, phase)
  {
  }

  lemma RequestLeads(s: State, e: Event, phase: Phase)
    requires e.OnlineReq? || e.OfflineReq? || e.LogoutAnswer?
    ensures LeadsTo(s, e, phase) ==> Do(s, e).phase == phase
    ensures Do(s, e).phase == phase != s.phase ==> LeadsTo(s, e, phase)
  {
  }

  lemma StepLeads(s: State, e: Event, phase: Phase)
    ensures LeadsTo(s, e, phase) ==> Do(s, e).phase == phase
    ensures Do(s, e).phase == phase != s.phase ==> LeadsTo(s, e, phase)
  {
    if e.Pass? {
      PassLeads(s, e, phase);
    } else if e.InitRsp? || e.AuthRsp? || e.RegRsp? {
      ResponseLeads(s, e, phase);
    } else if e.OnlineReq? || e.OfflineReq? || e.LogoutAnswer? {
      RequestLeads(s, e, phase);
    }
  }

  lemma StepLeadsOnly(s: State, e: Event)
    ensures forall phase :: LeadsTo(s, e, phase) ==> Do(s, e).phase == phase
    ensures Do(s, e).phase != s.phase ==> LeadsTo(s, e, Do(s, e).phase)
  {
    forall phase | LeadsTo(s, e, phase) ensures Do(s, e).phase == phase {
      StepLeads(s, e, phase);
    }
    StepLeads(s, e, Do(s, e).phase);
  }

  ghost predicate LedTo(events: seq<Event>, k: nat, phase: Phase)
    requires k < |events|
  {
    LeadsTo(Run(events, k), events[k], phase)
  }

  /** Event `k - 1` brought the client into the phase, or it is the phase it began in, and no event since brought it into another. */
  ghost predicate Since(events: seq<Event>, k: nat, n: nat, phase: Phase)
    requires k <= n <= |events|
  {
    && (if k == 0 then phase == Offline else LedTo(events, k - 1, phase))
    && forall m, other :: k <= m < n && other != phase ==> !LedTo(events, m, other)
  }

  lemma NextLeads(events: seq<Event>, n: nat)
    requires n < |events|
    ensures forall phase :: LedTo(events, n, phase) ==> Run(events, n + 1).phase == phase
    ensures Run(events, n + 1).phase != Run(events, n).phase ==> LedTo(events, n, Run(events, n + 1).phase)
  {
    StepLeadsOnly(Run(events, n), events[n]);
  }

  lemma StillSince(events: seq<Event>, k: nat, n: nat, phase: Phase)
    requires k <= n < |events| && Since(events, k, n, phase) && forall other :: LedTo(events, n, other) ==> other == phase
    ensures Since(events, k, n + 1, phase)
  {
  }

  /** The phase is the one that the last event to bring the client into any has brought it into. */
  lemma {:induction false} PhaseIsHistory(events: seq<Event>, n: nat) returns (k: nat)
    requires n <= |events|
    ensures k <= n && Since(events, k, n, Run(events, n).phase)
  {
    k := 0;
    if n > 0 {
      k := PhaseIsHistory(events, n - 1);
      NextLeads(events, n - 1);
      if Run(events, n).phase != Run(events, n - 1).phase {
        k := n;
      } else {
        StillSince(events, k, n - 1, Run(events, n).phase);
      }
    }
  }

  // The waits.

  /** Pass `k` has begun the wait, which has gone on since. */
  ghost predicate WaitsSince(events: seq<Event>, k: nat, n: nat) {
    && k < n <= |events|
    && Acts(Run(events, k), events[k]) && (events[k].done || Run(events, k).phase.Open?)
    && !Waiting(Run(events, k).phase)
    && Run(events, n).regAt == events[k].now
    && forall m :: k < m <= n ==> Run(events, m).phase == Run(events, n).phase
  }

  lemma StepWaits(s: State, e: Event)
    requires Waiting(Do(s, e).phase)
    ensures var t := Do(s, e);
            if t.phase == s.phase then t.regAt == s.regAt
            else Acts(s, e) && (e.done || s.phase.Open?) && !Waiting(s.phase) && t.regAt == e.now
  {
    if e.Pass? {
    } else if e.InitRsp? || e.AuthRsp? || e.RegRsp? {
      ResponseKeeps(s, e);
      ResponseLeads(s, e, Do(s, e).phase);
    } else if e.OnlineReq? || e.OfflineReq? || e.LogoutAnswer? {
      RequestLeads(s, e, Do(s, e).phase);
    }
  }

  /** Every wait was begun by a pass that had the socket, and is timed from that pass. */
  lemma {:induction false} WaitIsBegun(events: seq<Event>, n: nat) returns (k: nat)
    requires n <= |events| && Waiting(Run(events, n).phase)
    ensures WaitsSince(events, k, n)
  {
    StepWaits(Run(events, n - 1), events[n - 1]);
    if Run(events, n - 1).phase == Run(events, n).phase {
      k := WaitIsBegun(events, n - 1);
    } else {
      k := n - 1;
    }
  }

  /**
   A wait that is given up is retried: after ten seconds the client is back in the phase from which the wait was
   begun, or in open where that was need_req or need_auth.
   */
  lemma GivenUpIsRetried(events: seq<Event>, n: nat) returns (k: nat)
    requires n < |events| && Waiting(Run(events, n).phase) && events[n].Pass? && Run(events, n + 1).phase != Run(events, n).phase
    ensures WaitsSince(events, k, n) && TimedOut(events[k].now, events[n].now)
    ensures var before, after := Run(events, k).phase, Run(events, n + 1).phase;
            after == if before.NeedReq? || before.NeedAuth? then Open else before
  {
    k := WaitIsBegun(events, n);
    var began := Run(events, k + 1).phase;
    StepLeads(Run(events, k), events[k], began);
    StepLeads(Run(events, n), events[n], Run(events, n + 1).phase);
  }

  // What the application is told.

  /** The answer to a request, and the refusal of an Online_Req without a number. */
  function Reply(s: State, e: Event): seq<Indication> {
    match e
    case SetSubscriber(id, _, _) => [SubscriberRsp(id)]
    case OfflineReq(id, done, _) => [OfflineRsp(id, if done || s.phase.Offline? then 0 else SOCKET_ERROR)]
    case LogoutAnswer(id, rsp, _, _) => [LogoutRsp(id, rsp)]
    case OnlineReq(id) => if (s.phase.Offline? || s.phase.WaitDisconnect?) && !Obeys(s, e) then [OnlineRsp(id, NO_NUMBER)] else []
    case _ => []
  }

  /** The events after which a status is told. */
  predicate Announces(s: State, e: Event) {
    e.SocketClosed? || Obeys(s, e) || Answers(s, e) || e.InitRsp? || ((e.AuthRsp? || e.RegRsp?) && (Ok(e) ==> Awaited(s, e)))
  }

  /** What a step that led from `s` to a phase tells under the id of the client's Online_Req. */
  function Due(s: State, e: Event, id: uint32, after: Phase): seq<Indication> {
    Reply(s, e)
    + (if after.Online? && !s.phase.Online? && id != 0 then [OnlineRsp(id, 0)] else [])
    + (if Announces(s, e) && !after.WaitDisconnect? then [Status(id, StatusOf(after))] else [])
    + (if Unknown(e) then [RegistrationRequired(id, e.response.wrongCode)] else [])
  }

  /** The step tells what is due, and nothing else. */
  predicate Tells(s: State, e: Event, t: State, id: uint32) {
    t.outbox == s.outbox + Due(s, e, id, t.phase)
  }

  lemma InitTells(s: State, e: Event)
    requires e.InitRsp?
    ensures Tells(s, e, Do(s, e), Do(s, e).onlineId)
  {
  }

  lemma OkTells(s: State, e: Event)
    requires Ok(e)
    ensures Tells(s, e, Do(s, e), Do(s, e).onlineId)
  {
  }

  lemma NotOkTells(s: State, e: Event)
    requires (e.AuthRsp? || e.RegRsp?) && !Ok(e)
    ensures Tells(s, e, Do(s, e), Do(s, e).onlineId)
  {
  }

  lemma RequestTells(s: State, e: Event)
    requires e.OfflineReq? || e.LogoutAnswer? || e.SetSubscriber?
    ensures Tells(s, e, Do(s, e), Do(s, e).onlineId)
  {
  }

  lemma OnlineTells(s: State, e: Event)
    requires e.OnlineReq? && Safe(s)
    ensures Tells(s, e, Do(s, e), Do(s, e).onlineId)
  {
  }

  lemma StepTells(s: State, e: Event)
    requires Safe(s)
    ensures Tells(s, e, Do(s, e), Do(s, e).onlineId)
  {
    if e.Pass? {
      PassLeads(s, e, Online);
    } else if e.InitRsp? {
      InitTells(s, e);
    } else if Ok(e) {
      OkTells(s, e);
    } else if e.AuthRsp? || e.RegRsp? {
      NotOkTells(s, e);
    } else if e.OnlineReq? {
      OnlineTells(s, e);
    } else if e.OfflineReq? || e.LogoutAnswer? || e.SetSubscriber? {
      RequestTells(s, e);
    }
  }

  /**
   Every step tells the application exactly what is due: one answer to each request, in order and under its own
   id, Online_Rsp when the client comes online, the status of the phase it has come into, and that the number is
   not registered, these under the id of the last Online_Req that was obeyed.
   */
  lemma IndicationsAreDue(events: seq<Event>, n: nat)
    requires n < |events|
    ensures Tells(Run(events, n), events[n], Run(events, n + 1), OnlineId(events, n + 1))
  {
    RunSafe(events, n);
    var s, e, t := Run(events, n), events[n], Run(events, n + 1);
    assert t == Do(s, e);
    var id := OnlineId(events, n + 1);
    assert t.onlineId == id by {
      IdIsHistory(events, n + 1);
    }
    assert Tells(s, e, t, id) by {
      NextTells(s, e, t);
    }
  }

  lemma NextTells(s: State, e: Event, t: State)
    requires Safe(s) && t == Do(s, e)
    ensures Tells(s, e, t, t.onlineId)
  {
    StepTells(s, e);
  }

  lemma IdIsHistory(events: seq<Event>, n: nat)
    requires n <= |events|
    ensures Run(events, n).onlineId == OnlineId(events, n)
  {
    FieldsAreHistory(events, n);
  }
}
