/** The handlers of plib/plib/ClientImpl.cpp on the client's own fields, each proved to take the step of the session machine. */
module SessionClient {
  import opened Machine
  import opened Session
  import Md5
  import Registrar
  import Ticks = Clock

  class Client {
    const transform: Md5.Compress
    var on: bool
    var constate: Phase
    var info: Registrar.Subscriber   // number, host_name, UID, DevID and the user_* fields
    var code: Bytes
    var challenge: Registrar.Challenge   // realm, nonce and opaque
    var needUid: bool
    var requestOnlineId: uint32
    var regTick: uint32
    var outbox: seq<Indication>
    var stream: seq<Bytes>     // the messages handed to bin_stream and taken by it
    ghost var regAt: nat
    ghost var sent: seq<Registrar.Request>
    ghost var challenges: seq<Registrar.Challenge>
    ghost var given: seq<Bytes>

    /** The tick is that of the true time, and the stream has had the bytes of the requests. */
    ghost predicate Valid()
      reads this
    {
      && regTick == regAt % TWO_TO_THE_32
      && |stream| == |sent|
      && forall i {:trigger Registrar.Wire(transform, sent[i])} :: 0 <= i < |sent| ==> stream[i] == Registrar.Wire(transform, sent[i])
    }

    ghost function View(): State
      reads this
    {
      State(on, constate, info, code, challenge, needUid, requestOnlineId, regAt, outbox, sent, challenges, given)
    }

    constructor (f: Md5.Compress)
      ensures Valid() && View() == INITIAL && transform == f
    {
      transform := f;
      on, constate, info, code, challenge := false, Offline, NOBODY, [], Registrar.Challenge([], [], []);
      needUid, requestOnlineId, regTick, outbox, stream := false, 0, 0, [], [];
      regAt, sent, challenges, given := 0, [], [], [];
    }

    method ChangeConnectState(state: Phase)
      modifies this`constate
      ensures constate == state
    {
      constate := state;
    }

    method SendResp(i: Indication)
      modifies this`outbox
      ensures outbox == old(outbox) + [i]
    {
      outbox := outbox + [i];
    }

    method SetConnectStatus(status: ConnectStatus)
      modifies this`outbox
      ensures outbox == old(outbox) + [Status(requestOnlineId, status)]
    {
      SendResp(Status(requestOnlineId, status));
    }

    method SetRegTick(tick: uint32, ghost now: nat)
      requires tick == now % TWO_TO_THE_32
      modifies this`regTick, this`regAt
      ensures regTick == regAt % TWO_TO_THE_32 && regAt == now
    {
      regTick := tick;
      regAt := now;
    }

    method TakeCode(newCode: Bytes)
      modifies this`code, this`given
      ensures View() == Give(old(View()), newCode)
    {
      if |newCode| != 0 {
        code := newCode;
        given := given + [newCode];
      }
    }

    method OnSetSubscriberInfo(id: uint32, newInfo: Registrar.Subscriber, newCode: Bytes)
      requires Valid()
      modifies this
      ensures Valid() && View() == Do(old(View()), SetSubscriber(id, newInfo, newCode))
    {
      var userAgent := if |newInfo.userAgent| != 0 then newInfo.userAgent else info.userAgent;
      info := newInfo.(userAgent := userAgent);
      TakeCode(newCode);
      SendResp(SubscriberRsp(id));
    }

    method OnRequestOnline(id: uint32)
      requires Valid()
      modifies this
      ensures Valid() && View() == Do(old(View()), OnlineReq(id))
    {
      if constate.Offline? || constate.WaitDisconnect? {
        if |info.number| == 0 {
          SendResp(OnlineRsp(id, NO_NUMBER));
          return;
        }
        requestOnlineId := id;
        on := true;
        ChangeConnectState(Start);
        SetConnectStatus(IsConnecting);
      }
    }

    /** `done` is what sock_command(disconnect) returns. */
    method RequestOffline(done: bool, tick: uint32, ghost now: nat) returns (ok: bool)
      requires Valid() && tick == now % TWO_TO_THE_32
      modifies this
      ensures Valid() && View() == SwitchOff(old(View()), now)
      ensures ok <==> old(constate).Offline? || done
    {
      on := false;
      if constate.Offline? {
        return true;
      }
      SetRegTick(tick, now);
      ChangeConnectState(WaitDisconnect);
      ok := done;
    }

    method OnRequestOffline(id: uint32, done: bool, tick: uint32, ghost now: nat)
      requires Valid() && tick == now % TWO_TO_THE_32
      modifies this
      ensures Valid() && View() == Do(old(View()), OfflineReq(id, done, now))
    {
      var rsp := 0;
      var ok := RequestOffline(done, tick, now);
      if !ok {
        rsp := SOCKET_ERROR;
      }
      requestOnlineId := 0;
      SendResp(OfflineRsp(id, rsp));
    }

    method OnRegistrationRequiredCnf(newCode: Bytes)
      requires Valid()
      modifies this
      ensures Valid() && View() == Do(old(View()), RegistrationCnf(newCode))
    {
      code := [];
      TakeCode(newCode);
    }

    /** The message is built; `done` is what bin_stream returns, and a message it does not take is not sent. */
    method Stream(m: Registrar.Request, done: bool) returns (ok: bool)
      requires Valid()
      modifies this`stream, this`sent
      ensures Valid() && ok == done && sent == if done then old(sent) + [m] else old(sent)
    {
      var message := Registrar.Build(transform, m);
      if done {
        stream := stream + [message];
        sent := sent + [m];
      }
      ok := done;
    }

    method GenRegister(done: bool) returns (ok: bool)
      requires Valid()
      modifies this`stream, this`sent
      ensures Valid() && ok == done
      ensures sent == if done then old(sent) + [Registrar.InitReq(requestOnlineId, info)] else old(sent)
    {
      ok := Stream(Registrar.InitReq(requestOnlineId, info), done);
    }

    method GenRegisterNewReg(done: bool) returns (ok: bool)
      requires Valid()
      modifies this`stream, this`sent, this`code
      ensures Valid() && ok == done && code == if done then [] else old(code)
      ensures sent == if done then old(sent) + [Registrar.RegReq(requestOnlineId, info, old(code))] else old(sent)
    {
      ok := Stream(Registrar.RegReq(requestOnlineId, info, code), done);
      if ok {
        code := [];
      }
    }

    /** A challenge that asks for the uid gets it once. What the bytes carry is ChallengeIsCarriedIff and AnswerIsCarriedIff. */
    method GenRegisterAuth(done: bool) returns (ok: bool)
      requires Valid()
      modifies this`stream, this`sent, this`needUid
      ensures Valid() && ok == done && needUid == if done then false else old(needUid)
      ensures sent == if done then old(sent) + [Registrar.AuthReq(requestOnlineId, info, challenge, old(needUid))] else old(sent)
    {
      ok := Stream(Registrar.AuthReq(requestOnlineId, info, challenge, needUid), done);
      if ok {
        needUid := false;
      }
    }

    method GiveUp(state: Phase, ghost sock: bool, tick: uint32, ghost now: nat)
      requires Valid() && tick == now % TWO_TO_THE_32 && state == constate && Waiting(state) && on
      modifies this`constate
      ensures forall done :: View() == DoPass(old(View()), sock, done, now)
    {
      if Ticks.SignedDifference(tick, regTick) >= PATIENCE {
        if state.WaitConnect? {
          ChangeConnectState(Start);
        } else if state.WaitOpen? {
          ChangeConnectState(Connect);
        } else {
          ChangeConnectState(Open);
        }
      }
    }

    method BeginWait(state: Phase, tick: uint32, ghost now: nat)
      requires tick == now % TWO_TO_THE_32
      modifies this`regTick, this`regAt, this`constate
      ensures regTick == regAt % TWO_TO_THE_32 && View() == old(View()).(regAt := now, phase := state)
    {
      SetRegTick(tick, now);
      ChangeConnectState(state);
    }

    method PassBeforeOpen(done: bool, tick: uint32, ghost now: nat)
      requires Valid() && tick == now % TWO_TO_THE_32 && on && (constate.Start? || constate.Connect?)
      modifies this
      ensures Valid() && View() == DoPass(old(View()), true, done, now)
    {
      if constate.Start? {
        BeginWait(WaitConnect, tick, now);
        if !done {
          ChangeConnectState(Start);
        }
      } else {
        BeginWait(WaitOpen, tick, now);
        if !done {
          ChangeConnectState(Connect);
        }
      }
    }

    method PassOpen(done: bool, tick: uint32, ghost now: nat)
      requires Valid() && tick == now % TWO_TO_THE_32 && on && constate.Open?
      modifies this
      ensures Valid() && View() == DoPass(old(View()), true, done, now)
    {
      BeginWait(WaitReg, tick, now);
      var ok := GenRegister(done);
    }

    method PassNeedReq(done: bool, tick: uint32, ghost now: nat)
      requires Valid() && tick == now % TWO_TO_THE_32 && on && constate.NeedReq? && code != []
      modifies this
      ensures Valid() && View() == DoPass(old(View()), true, done, now)
    {
      BeginWait(WaitRegNewreg, tick, now);
      var ok := GenRegisterNewReg(done);
      if !ok {
        ChangeConnectState(Open);
      }
    }

    method PassNeedAuth(done: bool, tick: uint32, ghost now: nat)
      requires Valid() && tick == now % TWO_TO_THE_32 && on && constate.NeedAuth?
      modifies this
      ensures Valid() && View() == DoPass(old(View()), true, done, now)
    {
      BeginWait(WaitRegAuth, tick, now);
      var ok := GenRegisterAuth(done);
      if !ok {
        ChangeConnectState(Open);
      }
    }

    /** One pass of the loop of Procc over the state. */
    method Procc(sock: bool, done: bool, tick: uint32, ghost now: nat)
      requires Valid() && tick == now % TWO_TO_THE_32
      modifies this
      ensures Valid() && View() == Do(old(View()), Pass(sock, done, now))
    {
      if !on {
        return;
      }
      if Waiting(constate) {
        GiveUp(constate, sock, tick, now);
      } else if sock {
        match constate
        case Start => PassBeforeOpen(done, tick, now);
        case Connect => PassBeforeOpen(done, tick, now);
        case Open => PassOpen(done, tick, now);
        case NeedReq =>
          if |code| != 0 {
            PassNeedReq(done, tick, now);
          }
        case NeedAuth => PassNeedAuth(done, tick, now);
        case _ =>
      }
    }

    method OnConnect()
      requires Valid()
      modifies this
      ensures Valid() && View() == Do(old(View()), SocketConnected)
    {
      if constate.WaitConnect? {
        constate := Connect;
      }
    }

    method OnDisconnect()
      requires Valid()
      modifies this
      ensures Valid() && View() == Do(old(View()), SocketClosed)
    {
      if on {
        ChangeConnectState(Start);
        SetConnectStatus(IsConnecting);
      } else {
        ChangeConnectState(Offline);
        SetConnectStatus(IsOffline);
      }
    }

    method StrStream(str: string)
      requires Valid()
      modifies this
      ensures Valid() && View() == Do(old(View()), Text(str))
    {
      if |str| == 0 {
        return;
      }
      if constate.WaitOpen? {
        if str == "Open OK" {
          ChangeConnectState(Open);
          SetConnectStatus(IsRegistration);
        } else {
          ChangeConnectState(Connect);
          SetConnectStatus(IsConnecting);
        }
      }
    }

    method EnterNeedReq(wrongCode: bool)
      requires Valid()
      modifies this
      ensures Valid() && View() == NeedRegistration(old(View()), wrongCode)
    {
      ChangeConnectState(NeedReq);
      SetConnectStatus(IsRegistration);
      code := [];
      SendResp(RegistrationRequired(requestOnlineId, wrongCode));
    }

    method StoreChallenge(c: Registrar.Challenge, withUid: bool)
      modifies this`challenge, this`needUid, this`challenges
      ensures View() == old(View()).(challenge := c, needUid := withUid, challenges := old(challenges) + [c])
    {
      challenge, needUid := c, withUid;
      challenges := challenges + [c];
    }

    method OnRegister(r: Response)
      requires Valid()
      modifies this
      ensures Valid() && View() == Do(old(View()), InitRsp(r))
    {
      if r.rsp == NOT_FOUND {
        EnterNeedReq(r.wrongCode);
      } else if r.rsp == UNAUTHORIZED {
        StoreChallenge(r.challenge, r.needUid);
        ChangeConnectState(NeedAuth);
        SetConnectStatus(IsRegistration);
      } else {
        ChangeConnectState(Open);
        SetConnectStatus(IsRegistration);
      }
    }

    /** What OnRegisterAuth and OnRegisterReg do, each with its own wait state. */
    method OnFinalRsp(r: Response, own: Phase)
      requires Valid()
      modifies this
      ensures Valid() && View() == DoFinalRsp(old(View()), r, own)
    {
      if r.rsp == OK {
        if constate == own {
          ChangeConnectState(Online);
          if requestOnlineId != 0 {
            SendResp(OnlineRsp(requestOnlineId, 0));
          }
          SetConnectStatus(IsOnline);
        } else {
          ChangeConnectState(Open);
        }
      } else if r.rsp == NOT_FOUND {
        EnterNeedReq(r.wrongCode);
      } else {
        ChangeConnectState(Open);
        SetConnectStatus(IsRegistration);
      }
    }

    method OnRegisterAuth(r: Response)
      requires Valid()
      modifies this
      ensures Valid() && View() == Do(old(View()), AuthRsp(r))
    {
      OnFinalRsp(r, WaitRegAuth);
    }

    method OnRegisterReg(r: Response)
      requires Valid()
      modifies this
      ensures Valid() && View() == Do(old(View()), RegRsp(r))
    {
      OnFinalRsp(r, WaitRegNewreg);
    }

    method OnLogoutRsp(id: uint32, rsp: int, done: bool, tick: uint32, ghost now: nat)
      requires Valid() && tick == now % TWO_TO_THE_32
      modifies this
      ensures Valid() && View() == Do(old(View()), LogoutAnswer(id, rsp, done, now))
    {
      SendResp(LogoutRsp(id, rsp));
      if rsp == 0 {
        var ok := RequestOffline(done, tick, now);
      }
    }
  }
}
