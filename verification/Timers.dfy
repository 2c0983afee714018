/**
 The request timers of plib/plib/ClientImpl.cpp: a queue of deadlines beside a map of pending requests.
 Time is a natural number of milliseconds; the code sees it modulo 2^32.
 */
module Timers {
  import opened Machine

  const TIMEOUT := 15000

  /**
   The commands, by their number in MessengerAPI_Req, that a CASE of OnTimer answers; the others are dropped
   without a word.
   */
  predicate HasCase(command: int) {
    || 4 <= command <= 8 || 13 <= command <= 15 || 17 <= command <= 20
    || command == 22 || command == 24 || 26 <= command <= 58
  }

  /** The members of MessengerAPI_Req that start no timer: the four session commands, the confirmations, and Typing_Req. */
  const UNTIMED := {0, 1, 2, 3, 10, 12, 16, 21, 23, 25}
  const PING := 9
  const TEST_MSG := 11
  const MAX_REQ := 59

  /** Of the requests that start a timer exactly Ping and TestMsg time out without a response. */
  lemma SilentCommands(command: int)
    requires 0 <= command < MAX_REQ && command !in UNTIMED
    ensures HasCase(command) <==> command != PING && command != TEST_MSG
  {
  }

  datatype Item = Item(id: uint32, time: nat)

  /** A pending request: its command, and when it became pending. */
  datatype Request = Request(command: int, since: nat)

  /** A request that timed out: what was pending, the queue entry that ended it, and when. */
  datatype Timeout = Timeout(id: uint32, request: Request, entry: nat, at: nat)

  datatype State = State(
    queue: seq<Item>,
    pending: map<uint32, Request>,
    starts: seq<uint32>,      // the ids that became pending
    answers: seq<uint32>,     // the pending ids that a response took away
    fired: seq<Timeout>)      // the pending ids that timed out

  const EMPTY := State([], map[], [], [], [])

  /** map::emplace leaves an id that is already there as it is. */
  function Start(s: State, id: uint32, command: int, now: nat): State {
    var queue := s.queue + [Item(id, now)];
    if id in s.pending then s.(queue := queue)
    else s.(queue := queue, pending := s.pending[id := Request(command, now)], starts := s.starts + [id])
  }

  function Answer(s: State, id: uint32): State {
    if id in s.pending then s.(pending := s.pending - {id}, answers := s.answers + [id]) else s
  }

  /** The 32-bit age of a time, as the code computes it from two ticks. */
  function TickAge(time: nat, now: nat): nat {
    (now % TWO_TO_THE_32 - time % TWO_TO_THE_32) % TWO_TO_THE_32
  }

  function Pop(s: State, now: nat): State
    requires s.queue != []
  {
    var head := s.queue[0];
    if head.id in s.pending
    then s.(queue := s.queue[1..], pending := s.pending - {head.id},
            fired := s.fired + [Timeout(head.id, s.pending[head.id], head.time, now)])
    else s.(queue := s.queue[1..])
  }

  function Test(s: State, now: nat): State
    decreases |s.queue|
  {
    if s.queue == [] || TickAge(s.queue[0].time, now) < TIMEOUT then s else Test(Pop(s, now), now)
  }

  // What one test does.

  /** Entries are queued in time order, and every pending request still has the entry it came with. */
  ghost predicate Inv(s: State, now: nat) {
    && (forall i, j :: 0 <= i <= j < |s.queue| ==> s.queue[i].time <= s.queue[j].time)
    && (forall i :: 0 <= i < |s.queue| ==> s.queue[i].time <= now)
    && (forall id :: id in s.pending ==> Item(id, s.pending[id].since) in s.queue)
  }

  /** No entry is so old that its 32-bit age has wrapped. */
  ghost predicate Fresh(s: State, now: nat) {
    forall i :: 0 <= i < |s.queue| ==> now < s.queue[i].time + TWO_TO_THE_32
  }

  lemma TickAgeIsAge(time: nat, now: nat)
    requires time <= now < time + TWO_TO_THE_32
    ensures TickAge(time, now) == now - time
  {
    var a: int, b: int := now % TWO_TO_THE_32, time % TWO_TO_THE_32;
    assert now - time == a - b + TWO_TO_THE_32 * (now / TWO_TO_THE_32 - time / TWO_TO_THE_32);
  }

  predicate Expired(time: nat, now: nat) {
    now >= time + TIMEOUT
  }

  /** Some entry of the id has expired. */
  ghost predicate Due(queue: seq<Item>, id: uint32, now: nat) {
    exists i :: 0 <= i < |queue| && queue[i].id == id && Expired(queue[i].time, now)
  }

  /** A test pops exactly the expired entries: none hides behind the first young one. */
  lemma {:induction false} TestPops(s: State, now: nat) returns (n: nat)
    requires Inv(s, now) && Fresh(s, now)
    ensures n <= |s.queue| && Test(s, now).queue == s.queue[n..]
    ensures forall i :: 0 <= i < |s.queue| ==> (Expired(s.queue[i].time, now) <==> i < n)
    decreases |s.queue|
  {
    n := 0;
    if s.queue != [] {
      TickAgeIsAge(s.queue[0].time, now);
      if TickAge(s.queue[0].time, now) >= TIMEOUT {
        var p := Pop(s, now);
        assert forall i :: 0 < i < |s.queue| ==> s.queue[i] == p.queue[i - 1];
        n := TestPops(p, now);
        n := n + 1;
      }
    }
  }

  lemma {:induction false} TestInv(s: State, now: nat)
    requires Inv(s, now)
    ensures Inv(Test(s, now), now)
    ensures Test(s, now).starts == s.starts && Test(s, now).answers == s.answers
    decreases |s.queue|
  {
    if s.queue != [] && TickAge(s.queue[0].time, now) >= TIMEOUT {
      TestInv(Pop(s, now), now);
    }
  }

  lemma DueStep(queue: seq<Item>, id: uint32, now: nat)
    requires queue != [] && Expired(queue[0].time, now)
    ensures Due(queue, id, now) <==> id == queue[0].id || Due(queue[1..], id, now)
  {
    var rest := queue[1..];
    assert forall i :: 0 < i < |queue| ==> queue[i] == rest[i - 1];
    if Due(rest, id, now) {
      var i :| 0 <= i < |rest| && rest[i].id == id && Expired(rest[i].time, now);
      assert queue[i + 1] == rest[i];
    }
  }

  /** Exactly the pending requests with an expired entry time out; the others stay as they are. */
  lemma {:induction false} TestTimesOut(s: State, now: nat)
    requires Inv(s, now) && Fresh(s, now)
    ensures forall id :: id in Test(s, now).pending <==> id in s.pending && !Due(s.queue, id, now)
    ensures forall id :: id in Test(s, now).pending ==> Test(s, now).pending[id] == s.pending[id]
    decreases |s.queue|
  {
    if s.queue != [] {
      TickAgeIsAge(s.queue[0].time, now);
      if TickAge(s.queue[0].time, now) >= TIMEOUT {
        TestTimesOut(Pop(s, now), now);
        forall id {
          DueStep(s.queue, id, now);
        }
      }
    }
  }

  /** What the timeouts of one test say. */
  ghost predicate TrueTimeout(f: Timeout, s: State, now: nat) {
    && f.id in s.pending && f.request == s.pending[f.id] && Item(f.id, f.entry) in s.queue
    && f.at == now && Expired(f.entry, now)
  }

  lemma {:induction false} TestFires(s: State, now: nat)
    requires Inv(s, now) && Fresh(s, now)
    ensures s.fired <= Test(s, now).fired
    ensures forall k :: |s.fired| <= k < |Test(s, now).fired| ==> TrueTimeout(Test(s, now).fired[k], s, now)
    decreases |s.queue|
  {
    if s.queue != [] {
      TickAgeIsAge(s.queue[0].time, now);
      if TickAge(s.queue[0].time, now) >= TIMEOUT {
        var p, t := Pop(s, now), Test(s, now);
        TestFires(p, now);
        forall k | |s.fired| <= k < |t.fired| ensures TrueTimeout(t.fired[k], s, now) {
          if k < |p.fired| {
            assert t.fired[k] == p.fired[k];
          } else {
            assert TrueTimeout(t.fired[k], p, now);
          }
        }
      }
    }
  }

  // When a timeout comes early.

  /** The id has been started again while an older entry of it was still queued. */
  ghost predicate Reused(s: State, id: uint32)
    requires id in s.pending
  {
    exists i :: 0 <= i < |s.queue| && s.queue[i].id == id && s.queue[i].time < s.pending[id].since
  }

  /** A test at time `t` ends the request before its 15 seconds are over. */
  predicate EndsEarly(s: State, now: nat, id: uint32, t: nat)
    requires id in s.pending
  {
    now <= t < s.pending[id].since + TIMEOUT && id !in Test(s, t).pending
  }

  lemma EarlyMeansReused(s: State, now: nat, id: uint32, t: nat)
    requires Inv(s, now) && id in s.pending && EndsEarly(s, now, id, t)
    requires forall i :: 0 <= i < |s.queue| ==> s.pending[id].since + TIMEOUT <= s.queue[i].time + TWO_TO_THE_32
    ensures Reused(s, id)
  {
    TestTimesOut(s, t);
    var i :| 0 <= i < |s.queue| && s.queue[i].id == id && Expired(s.queue[i].time, t);
  }

  /**
   From now on some test can end a pending request before its 15 seconds are over if and only if they are not
   over yet and an older entry of its id is still queued.
   */
  lemma EarlyIffReused(s: State, now: nat, id: uint32)
    requires Inv(s, now) && id in s.pending
    requires forall i :: 0 <= i < |s.queue| ==> s.pending[id].since + TIMEOUT <= s.queue[i].time + TWO_TO_THE_32
    ensures (exists t :: EndsEarly(s, now, id, t)) <==> Reused(s, id) && now < s.pending[id].since + TIMEOUT
  {
    if t :| EndsEarly(s, now, id, t) {
      EarlyMeansReused(s, now, id, t);
    }
    if Reused(s, id) && now < s.pending[id].since + TIMEOUT {
      var i :| 0 <= i < |s.queue| && s.queue[i].id == id && s.queue[i].time < s.pending[id].since;
      var due := s.queue[i].time + TIMEOUT;
      var t := if now < due then due else now;
      TestTimesOut(s, t);
      assert EndsEarly(s, now, id, t);
    }
  }

  /** A request answered and started again under its old id: the second times out after 5 seconds. */
  lemma ReuseFiresEarly()
    ensures var s := Start(Answer(Start(EMPTY, 7, 4, 0), 7), 7, 4, 10000);
            Test(s, 15000).fired == [Timeout(7, Request(4, 10000), 0, 15000)]
  {
    var s := Start(Answer(Start(EMPTY, 7, 4, 0), 7), 7, 4, 10000);
    var p := Pop(s, 15000);
    assert p.queue == [Item(7, 10000)];
    assert Test(p, 15000) == p;
  }

  // Runs.

  datatype Op = StartOp(id: uint32, command: int, at: nat) | AnswerOp(id: uint32, at: nat) | TestOp(at: nat)

  function Do(s: State, op: Op): State {
    match op
    case StartOp(id, command, at) => Start(s, id, command, at)
    case AnswerOp(id, _) => Answer(s, id)
    case TestOp(at) => Test(s, at)
  }

  function Run(ops: seq<Op>, n: nat): State
    requires n <= |ops|
  {
    if n == 0 then EMPTY else Do(Run(ops, n - 1), ops[n - 1])
  }

  /** The time of the last operation, and of the last test; `began` before the first. */
  function Now(began: nat, ops: seq<Op>, n: nat): nat
    requires n <= |ops|
  {
    if n == 0 then began else ops[n - 1].at
  }

  function LastTest(began: nat, ops: seq<Op>, n: nat): nat
    requires n <= |ops|
  {
    if n == 0 then began else if ops[n - 1].TestOp? then ops[n - 1].at else LastTest(began, ops, n - 1)
  }

  /** The clock does not run back, and the client tests its timers at least once in 2^32 - 15000 ms. */
  ghost predicate Timed(began: nat, ops: seq<Op>) {
    forall n :: 0 <= n < |ops| ==> TimedAt(began, ops, n)
  }

  ghost predicate TimedAt(began: nat, ops: seq<Op>, n: nat)
    requires n < |ops|
  {
    Now(began, ops, n) <= ops[n].at <= LastTest(began, ops, n) + TWO_TO_THE_32 - TIMEOUT
  }

  /** The state between two operations, with the time of the last one and of the last test. */
  ghost predicate Sound(s: State, now: nat, tested: nat) {
    && Inv(s, now) && tested <= now
    && (forall i :: 0 <= i < |s.queue| ==> !Expired(s.queue[i].time, tested))
    && (forall k :: 0 <= k < |s.fired| ==> Expired(s.fired[k].entry, s.fired[k].at))
  }

  lemma StartSound(s: State, now: nat, tested: nat, id: uint32, command: int, at: nat)
    requires Sound(s, now, tested) && now <= at
    ensures Sound(Start(s, id, command, at), at, tested)
  {
    var t := Start(s, id, command, at);
    assert t.queue[|s.queue|] == Item(id, at);
    forall k | k in t.pending ensures Item(k, t.pending[k].since) in t.queue {
      if k in s.pending {
        assert Item(k, s.pending[k].since) in s.queue;
      }
    }
  }

  lemma TestSound(s: State, now: nat, tested: nat, at: nat)
    requires Sound(s, now, tested) && now <= at <= tested + TWO_TO_THE_32 - TIMEOUT
    ensures Sound(Test(s, at), at, at)
  {
    assert Inv(s, at) && Fresh(s, at);
    TestInv(s, at);
    TestFires(s, at);
    var n := TestPops(s, at);
    var t := Test(s, at);
    assert forall i :: 0 <= i < |t.queue| ==> t.queue[i] == s.queue[n + i];
    forall k | 0 <= k < |t.fired| ensures Expired(t.fired[k].entry, t.fired[k].at) {
      if k < |s.fired| {
        assert t.fired[k] == s.fired[k];
      } else {
        assert TrueTimeout(t.fired[k], s, at);
      }
    }
  }

  /** Over every run the pending ids are among the queued ids, and no 32-bit age has wrapped when a test looks. */
  lemma {:induction false} RunSound(began: nat, ops: seq<Op>, n: nat)
    requires n <= |ops| && Timed(began, ops)
    ensures Sound(Run(ops, n), Now(began, ops, n), LastTest(began, ops, n))
  {
    if n > 0 {
      RunSound(began, ops, n - 1);
      var s, now, tested := Run(ops, n - 1), Now(began, ops, n - 1), LastTest(began, ops, n - 1);
      assert TimedAt(began, ops, n - 1);
      match ops[n - 1]
      case StartOp(id, command, at) => StartSound(s, now, tested, id, command, at);
      case AnswerOp(id, at) =>
      case TestOp(at) => TestSound(s, now, tested, at);
    }
  }

  /** Completeness: no pending request outlives by 15 seconds the start that made it pending and then a test. */
  lemma TestedRequestsAreYoung(began: nat, ops: seq<Op>, n: nat, id: uint32)
    requires n <= |ops| && Timed(began, ops) && id in Run(ops, n).pending
    ensures LastTest(began, ops, n) < Run(ops, n).pending[id].since + TIMEOUT
  {
    RunSound(began, ops, n);
    var s := Run(ops, n);
    var i :| 0 <= i < |s.queue| && s.queue[i] == Item(id, s.pending[id].since);
  }

  /** So in every run whose last test is not too long ago. */
  lemma RunEarlyIff(began: nat, ops: seq<Op>, n: nat, id: uint32)
    requires n <= |ops| && Timed(began, ops) && id in Run(ops, n).pending
    requires Now(began, ops, n) + 2 * TIMEOUT <= LastTest(began, ops, n) + TWO_TO_THE_32
    ensures var s, now := Run(ops, n), Now(began, ops, n);
            (exists t :: EndsEarly(s, now, id, t)) <==> Reused(s, id) && now < s.pending[id].since + TIMEOUT
  {
    RunSound(began, ops, n);
    var s := Run(ops, n);
    assert Item(id, s.pending[id].since) in s.queue;
    EarlyIffReused(s, Now(began, ops, n), id);
  }

  /** No id is started while an older entry of it is queued. */
  ghost predicate NoReuse(ops: seq<Op>) {
    forall n :: 0 <= n < |ops| ==> StartsUnqueued(ops, n)
  }

  ghost predicate StartsUnqueued(ops: seq<Op>, n: nat)
    requires n < |ops|
  {
    ops[n].StartOp? ==> Unqueued(Run(ops, n), ops[n].id)
  }

  ghost predicate Unqueued(s: State, id: uint32) {
    forall i :: 0 <= i < |s.queue| ==> s.queue[i].id != id
  }

  /** The only entry of a pending id is its own, and every timeout so far came from its own entry. */
  ghost predicate OwnEntries(s: State) {
    && (forall i :: 0 <= i < |s.queue| && s.queue[i].id in s.pending ==> s.queue[i].time == s.pending[s.queue[i].id].since)
    && (forall k :: 0 <= k < |s.fired| ==> s.fired[k].entry == s.fired[k].request.since)
  }

  lemma StartOwn(s: State, was: nat, id: uint32, command: int, now: nat)
    requires Inv(s, was) && OwnEntries(s) && Unqueued(s, id)
    ensures OwnEntries(Start(s, id, command, now))
  {
    if id in s.pending {
    }
  }

  lemma {:induction false} TestOwn(s: State, now: nat)
    requires OwnEntries(s)
    ensures OwnEntries(Test(s, now))
    decreases |s.queue|
  {
    if s.queue != [] && TickAge(s.queue[0].time, now) >= TIMEOUT {
      var p := Pop(s, now);
      assert forall i :: 0 <= i < |p.queue| ==> p.queue[i] == s.queue[i + 1];
      TestOwn(p, now);
    }
  }

  lemma {:induction false} RunOwn(began: nat, ops: seq<Op>, n: nat)
    requires n <= |ops| && Timed(began, ops) && NoReuse(ops)
    ensures OwnEntries(Run(ops, n))
  {
    if n > 0 {
      RunOwn(began, ops, n - 1);
      RunSound(began, ops, n - 1);
      var s := Run(ops, n - 1);
      assert StartsUnqueued(ops, n - 1);
      match ops[n - 1]
      case StartOp(id, command, at) => StartOwn(s, Now(began, ops, n - 1), id, command, at);
      case AnswerOp(id, at) =>
      case TestOp(at) => TestOwn(s, at);
    }
  }

  /** Soundness: when no id is reused too soon, no request times out before its 15 seconds are over. */
  lemma TimeoutsAreTrue(began: nat, ops: seq<Op>, n: nat, k: nat)
    requires n <= |ops| && Timed(began, ops) && NoReuse(ops) && k < |Run(ops, n).fired|
    ensures var f := Run(ops, n).fired[k]; f.at >= f.request.since + TIMEOUT
  {
    RunSound(began, ops, n);
    RunOwn(began, ops, n);
  }

  // Requests and their answers, in time.

  /** A pending request that a test ends is among its timeouts. */
  lemma {:induction false} EndedIsFired(s: State, now: nat, id: uint32) returns (k: nat)
    requires id in s.pending && id !in Test(s, now).pending
    ensures |s.fired| <= k < |Test(s, now).fired| && Test(s, now).fired[k].id == id
    decreases |s.queue|
  {
    var p := Pop(s, now);
    if id == s.queue[0].id {
      k := |s.fired|;
      FiredStays(p, now);
    } else {
      k := EndedIsFired(p, now, id);
    }
  }

  lemma {:induction false} FiredStays(s: State, now: nat)
    ensures s.fired <= Test(s, now).fired
    decreases |s.queue|
  {
    if s.queue != [] && TickAge(s.queue[0].time, now) >= TIMEOUT {
      FiredStays(Pop(s, now), now);
    }
  }

  /** What is not pending does not time out. */
  lemma {:induction false} QuietTest(s: State, now: nat, id: uint32)
    requires id !in s.pending
    ensures var t := Test(s, now);
            id !in t.pending && s.fired <= t.fired && forall k :: |s.fired| <= k < |t.fired| ==> t.fired[k].id != id
    decreases |s.queue|
  {
    if s.queue != [] && TickAge(s.queue[0].time, now) >= TIMEOUT {
      var p, t := Pop(s, now), Test(s, now);
      QuietTest(p, now, id);
      assert forall k :: 0 <= k < |p.fired| ==> t.fired[k] == p.fired[k];
    }
  }

  predicate Starts(op: Op, id: uint32) {
    op.StartOp? && op.id == id
  }

  predicate Answers(op: Op, id: uint32) {
    op.AnswerOp? && op.id == id
  }

  /** Between an operation after which an id is not pending, an answer say, and its next start it does not time out. */
  lemma {:induction false} NoTimeoutUntilStart(ops: seq<Op>, m: nat, n: nat, id: uint32)
    requires m <= n <= |ops| && id !in Run(ops, m).pending
    requires forall k :: m <= k < n ==> !Starts(ops[k], id)
    ensures var s, t := Run(ops, m), Run(ops, n);
            id !in t.pending && s.fired <= t.fired && forall k :: |s.fired| <= k < |t.fired| ==> t.fired[k].id != id
    decreases n
  {
    if m < n {
      NoTimeoutUntilStart(ops, m, n - 1, id);
      var s := Run(ops, n - 1);
      match ops[n - 1]
      case StartOp(_, _, _) =>
      case AnswerOp(_, _) =>
      case TestOp(at) => QuietTest(s, at, id);
    }
  }

  /** A request that has been answered does not time out before its id is started again. */
  lemma NoTimeoutAfterAnswer(ops: seq<Op>, m: nat, n: nat, id: uint32)
    requires m < n <= |ops| && Answers(ops[m], id)
    requires forall k :: m < k < n ==> !Starts(ops[k], id)
    ensures var s, t := Run(ops, m), Run(ops, n);
            s.fired <= t.fired && forall k :: |s.fired| <= k < |t.fired| ==> t.fired[k].id != id
  {
    assert Run(ops, m + 1) == Answer(Run(ops, m), id);
    NoTimeoutUntilStart(ops, m + 1, n, id);
  }

  /** Operation `k` made the request pending, and it has been pending since. */
  ghost predicate PendingFrom(ops: seq<Op>, k: nat, n: nat, id: uint32) {
    && k < n <= |ops| && Starts(ops[k], id) && id !in Run(ops, k).pending
    && forall m :: k < m <= n ==> id in Run(ops, m).pending
  }

  /** A test leaves what it does not end as it is. */
  lemma {:induction false} TestKeeps(s: State, now: nat, id: uint32)
    requires id in Test(s, now).pending
    ensures id in s.pending && Test(s, now).pending[id] == s.pending[id]
    decreases |s.queue|
  {
    if s.queue != [] && TickAge(s.queue[0].time, now) >= TIMEOUT {
      TestKeeps(Pop(s, now), now, id);
    }
  }

  /**
   A pending request is the one that made its id pending, with that command and time: starts of an id that is
   pending already change nothing of it.
   */
  lemma {:induction false} FirstStartCounts(ops: seq<Op>, n: nat, id: uint32) returns (k: nat)
    requires n <= |ops| && id in Run(ops, n).pending
    ensures PendingFrom(ops, k, n, id) && Run(ops, n).pending[id] == Request(ops[k].command, ops[k].at)
  {
    var s, op := Run(ops, n - 1), ops[n - 1];
    if op.TestOp? {
      TestKeeps(s, op.at, id);
    }
    if id in s.pending {
      k := FirstStartCounts(ops, n - 1, id);
    } else {
      k := n - 1;
    }
  }

  /** Every entry of the id was queued at `since`. */
  ghost predicate OnlyAt(s: State, id: uint32, since: nat) {
    forall i :: 0 <= i < |s.queue| && s.queue[i].id == id ==> s.queue[i].time == since
  }

  ghost predicate Answered(ops: seq<Op>, k: nat, p: nat, id: uint32)
    requires p <= |ops|
  {
    exists m :: k < m < p && Answers(ops[m], id)
  }

  /** A request started by operation `k` alone, and no test since its 15 seconds were over. */
  ghost predicate Current(began: nat, ops: seq<Op>, k: nat, p: nat, id: uint32) {
    && k < p <= |ops| && Timed(began, ops)
    && Starts(ops[k], id) && Unqueued(Run(ops, k), id)
    && (forall m :: k < m < p ==> !Starts(ops[m], id))
    && (forall m :: k < m < p && ops[m].TestOp? ==> ops[m].at < ops[k].at + TIMEOUT)
  }

  lemma YoungTest(s: State, now: nat, id: uint32, since: nat)
    requires Inv(s, now) && Fresh(s, now) && OnlyAt(s, id, since) && now < since + TIMEOUT
    ensures OnlyAt(Test(s, now), id, since) && (id in Test(s, now).pending <==> id in s.pending)
    ensures id in s.pending ==> Test(s, now).pending[id] == s.pending[id]
  {
    TestTimesOut(s, now);
    var n := TestPops(s, now);
    assert forall i :: 0 <= i < |Test(s, now).queue| ==> Test(s, now).queue[i] == s.queue[n + i];
  }

  /** Such a request is pending until it is answered. */
  lemma {:induction false} PendingUntilAnswered(began: nat, ops: seq<Op>, k: nat, p: nat, id: uint32)
    requires Current(began, ops, k, p, id)
    ensures var s, since := Run(ops, p), ops[k].at;
            && OnlyAt(s, id, since)
            && (id in s.pending <==> !Answered(ops, k, p, id))
            && (id in s.pending ==> s.pending[id].since == since)
    decreases p
  {
    var s := Run(ops, p - 1);
    RunSound(began, ops, p - 1);
    assert TimedAt(began, ops, p - 1);
    if p == k + 1 {
      FirstEntry(s, Now(began, ops, p - 1), id, ops[k].command, ops[k].at);
    } else {
      PendingUntilAnswered(began, ops, k, p - 1, id);
      assert Answered(ops, k, p, id) <==> Answered(ops, k, p - 1, id) || Answers(ops[p - 1], id);
      NextOp(s, Now(began, ops, p - 1), ops[p - 1], id, ops[k].at);
    }
  }

  lemma FirstEntry(s: State, was: nat, id: uint32, command: int, now: nat)
    requires Inv(s, was) && Unqueued(s, id)
    ensures var t := Start(s, id, command, now); OnlyAt(t, id, now) && id in t.pending && t.pending[id].since == now
  {
    if id in s.pending {
    }
  }

  lemma NextOp(s: State, was: nat, op: Op, id: uint32, since: nat)
    requires Inv(s, was) && was <= op.at && OnlyAt(s, id, since) && !Starts(op, id)
    requires op.TestOp? ==> Fresh(s, op.at) && op.at < since + TIMEOUT
    ensures OnlyAt(Do(s, op), id, since)
    ensures id in Do(s, op).pending <==> id in s.pending && !Answers(op, id)
    ensures id in Do(s, op).pending ==> Do(s, op).pending[id] == s.pending[id]
  {
    if op.TestOp? {
      YoungTest(s, op.at, id, since);
    }
  }

  /**
   The first test after its 15 seconds times the request out if and only if no answer came since StartTimer.
   An answer that came before, between the sending of the request and StartTimer, is forgotten.
   */
  lemma TimesOutIffUnanswered(began: nat, ops: seq<Op>, k: nat, p: nat, id: uint32)
    requires Current(began, ops, k, p, id) && p < |ops| && ops[p].TestOp? && ops[p].at >= ops[k].at + TIMEOUT
    ensures var s, t := Run(ops, p), Run(ops, p + 1);
            (exists j :: |s.fired| <= j < |t.fired| && t.fired[j].id == id) <==> !Answered(ops, k, p, id)
  {
    var s, at := Run(ops, p), ops[p].at;
    PendingUntilAnswered(began, ops, k, p, id);
    RunSound(began, ops, p);
    assert TimedAt(began, ops, p);
    if id in s.pending {
      assert Item(id, ops[k].at) in s.queue;
      TestTimesOut(s, at);
      var j := EndedIsFired(s, at, id);
    } else {
      QuietTest(s, at, id);
    }
  }

  /** An answer at once, before the timer is started: the request times out although it was answered. */
  lemma EarlyAnswerIsForgotten()
    ensures var ops := [AnswerOp(7, 0), StartOp(7, 4, 0), TestOp(15000)];
            Run(ops, 3).fired == [Timeout(7, Request(4, 0), 0, 15000)]
  {
    var ops := [AnswerOp(7, 0), StartOp(7, 4, 0), TestOp(15000)];
    var s := Run(ops, 2);
    assert Run(ops, 1) == EMPTY;
    assert s == Start(EMPTY, 7, 4, 0);
    var p := Pop(s, 15000);
    assert p.queue == [] && Test(p, 15000) == p;
  }

  // Each start ends once.

  function Ids(fired: seq<Timeout>, n: nat): multiset<uint32>
    requires n <= |fired|
  {
    if n == 0 then multiset{} else Ids(fired, n - 1) + multiset{fired[n - 1].id}
  }

  lemma {:induction false} IdsPrefix(a: seq<Timeout>, b: seq<Timeout>, n: nat)
    requires n <= |a| && n <= |b| && a[..n] == b[..n]
    ensures Ids(a, n) == Ids(b, n)
  {
    if n > 0 {
      assert a[n - 1] == a[..n][n - 1] == b[..n][n - 1];
      assert a[..n - 1] == a[..n][..n - 1] == b[..n][..n - 1] == b[..n - 1];
      IdsPrefix(a, b, n - 1);
    }
  }

  ghost predicate Accounted(s: State) {
    multiset(s.starts) == multiset(s.answers) + Ids(s.fired, |s.fired|) + multiset(s.pending.Keys)
  }

  lemma StartAccounted(s: State, id: uint32, command: int, now: nat)
    requires Accounted(s)
    ensures Accounted(Start(s, id, command, now))
  {
    if id !in s.pending {
      var pending := s.pending[id := Request(command, now)];
      assert pending - {id} == s.pending;
    }
  }

  lemma AnswerAccounted(s: State, id: uint32)
    requires Accounted(s)
    ensures Accounted(Answer(s, id))
  {
    if id in s.pending {
    }
  }

  lemma {:induction false} TestAccounted(s: State, now: nat)
    requires Accounted(s)
    ensures Accounted(Test(s, now))
    decreases |s.queue|
  {
    if s.queue != [] && TickAge(s.queue[0].time, now) >= TIMEOUT {
      var p, id := Pop(s, now), s.queue[0].id;
      if id in s.pending {
        IdsPrefix(p.fired, s.fired, |s.fired|);
      }
      TestAccounted(p, now);
    }
  }

  /**
   Over every run, timed or not, each request that became pending has timed out once, or was answered
   once, or is still pending; so it times out at most once, and not if an answer took it away.
   */
  lemma {:induction false} StartsEndOnce(ops: seq<Op>, n: nat)
    requires n <= |ops|
    ensures var s := Run(ops, n);
            multiset(s.starts) == multiset(s.answers) + Ids(s.fired, |s.fired|) + multiset(s.pending.Keys)
  {
    if n > 0 {
      StartsEndOnce(ops, n - 1);
      var s := Run(ops, n - 1);
      match ops[n - 1]
      case StartOp(id, command, at) => StartAccounted(s, id, command, at);
      case AnswerOp(id, _) => AnswerAccounted(s, id);
      case TestOp(at) => TestAccounted(s, at);
    }
  }

  // The code's own queue and map.

  datatype TimerItem = TimerItem(id: uint32, tick: uint32)

  /** The responses with result 0xfffe that the timeouts send: to the ids whose command has a CASE. */
  function Responses(fired: seq<Timeout>, n: nat): seq<(uint32, int)>
    requires n <= |fired|
  {
    if n == 0 then []
    else if HasCase(fired[n - 1].request.command)
    then Responses(fired, n - 1) + [(fired[n - 1].id, fired[n - 1].request.command)]
    else Responses(fired, n - 1)
  }

  /** How many of the first `n` timeouts are of a command with a CASE. */
  function Answerable(fired: seq<Timeout>, n: nat): nat
    requires n <= |fired|
  {
    if n == 0 then 0 else Answerable(fired, n - 1) + if HasCase(fired[n - 1].request.command) then 1 else 0
  }

  lemma {:induction false} ResponsesCount(fired: seq<Timeout>, n: nat)
    requires n <= |fired|
    ensures |Responses(fired, n)| == Answerable(fired, n)
  {
    if n > 0 {
      ResponsesCount(fired, n - 1);
    }
  }

  /**
   As many responses are sent as there are timeouts of commands with a CASE, and the response to each of
   those, with its own id and command, comes after the responses to the ones before it.
   */
  lemma {:induction false} EachIsAnswered(fired: seq<Timeout>, n: nat, k: nat)
    requires k < n <= |fired| && HasCase(fired[k].request.command)
    ensures var sent := Responses(fired, n);
            && |sent| == Answerable(fired, n) && Answerable(fired, k) < |sent|
            && sent[Answerable(fired, k)] == (fired[k].id, fired[k].request.command)
    decreases n
  {
    ResponsesCount(fired, n - 1);
    if k < n - 1 {
      EachIsAnswered(fired, n - 1, k);
    }
  }

  lemma {:induction false} ResponsesPrefix(a: seq<Timeout>, b: seq<Timeout>, n: nat)
    requires n <= |a| && n <= |b| && a[..n] == b[..n]
    ensures Responses(a, n) == Responses(b, n)
  {
    if n > 0 {
      assert a[n - 1] == a[..n][n - 1] == b[..n][n - 1];
      assert a[..n - 1] == a[..n][..n - 1] == b[..n][..n - 1] == b[..n - 1];
      ResponsesPrefix(a, b, n - 1);
    }
  }

  class TimerTable {
    var itimers: seq<TimerItem>
    var timers: map<uint32, int>
    var sent: seq<(uint32, int)>

    /** The table shows the state `s`. */
    ghost predicate Shows(s: State)
      reads this
    {
      && |itimers| == |s.queue|
      && (forall i :: 0 <= i < |itimers| ==> itimers[i] == TimerItem(s.queue[i].id, s.queue[i].time % TWO_TO_THE_32))
      && timers == (map id | id in s.pending :: s.pending[id].command)
      && sent == Responses(s.fired, |s.fired|)
    }

    method StartTimer(reqId: uint32, command: int, now: nat, ghost s: State)
      requires Shows(s)
      modifies this
      ensures Shows(Start(s, reqId, command, now))
    {
      itimers := itimers + [TimerItem(reqId, now % TWO_TO_THE_32)];
      if reqId !in timers {
        timers := timers[reqId := command];
      }
    }

    /** The end of BinStream: the answered request is no longer pending. */
    method Erase(reqId: uint32, ghost s: State)
      requires Shows(s)
      modifies this
      ensures Shows(Answer(s, reqId))
    {
      if reqId in timers {
        timers := timers - {reqId};
      }
    }

    method OnTimer(reqId: uint32, command: int)
      modifies this`sent
      ensures sent == old(sent) + if HasCase(command) then [(reqId, command)] else []
    {
      if HasCase(command) {
        sent := sent + [(reqId, command)];
      }
    }

    method PopFront(now: nat, ghost s: State)
      requires Shows(s) && itimers != []
      modifies this
      ensures Shows(Pop(s, now))
    {
      var id := itimers[0].id;
      if id in timers {
        ResponsesPrefix(Pop(s, now).fired, s.fired, |s.fired|);
        OnTimer(id, timers[id]);
        timers := timers - {id};
      }
      itimers := itimers[1..];
    }

    method TestTimers(now: nat, ghost s: State)
      requires Shows(s)
      modifies this
      ensures Shows(Test(s, now))
    {
      var tick := now % TWO_TO_THE_32;
      ghost var t := s;
      while itimers != []
        invariant Shows(t) && Test(t, now) == Test(s, now)
        decreases |itimers|
      {
        if (tick - itimers[0].tick) % TWO_TO_THE_32 < TIMEOUT {
          break;
        }
        PopFront(now, t);
        t := Pop(t, now);
      }
    }
  }
}
