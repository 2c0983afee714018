/**
 The shared monotone clock of d-mon/dmain.h (compiled under FORCE_CLOCK_MONOTONIC): a compare-exchange
 loop on one 32-bit word, compared by signed difference. Threads interleave at every shared access.
 */
module Clock {
  import opened Machine

  /** std::int32_t(a - b) */
  function SignedDifference(a: uint32, b: uint32): int {
    var d := (a - b) % TWO_TO_THE_32;
    if d < 0x8000_0000 then d else d - TWO_TO_THE_32
  }

  /** How far `t` is past `base`, around the wrap. */
  function Age(base: uint32, t: uint32): nat {
    (t - base) % TWO_TO_THE_32
  }

  /** `t` lies in the window of 2^31 ticks that begins at `base`. */
  predicate InWindow(base: uint32, t: uint32) {
    Age(base, t) < 0x8000_0000
  }

  /** Inside one window the signed difference tells the later of two times. */
  lemma DifferenceIsOrder(base: uint32, a: uint32, b: uint32)
    requires InWindow(base, a) && InWindow(base, b)
    ensures SignedDifference(a, b) == Age(base, a) - Age(base, b)
    ensures Age(base, a) == Age(base, b) ==> a == b
  {
    var x: int, y: int := Age(base, a), Age(base, b);
    var u: int, v: int := a - base, b - base;
    var k := u / TWO_TO_THE_32 - v / TWO_TO_THE_32;
    assert a - b == TWO_TO_THE_32 * k + (x - y);
    if x >= y {
      ModUnique(a - b, TWO_TO_THE_32, k, x - y);
    } else {
      ModUnique(a - b, TWO_TO_THE_32, k - 1, x - y + TWO_TO_THE_32);
    }
  }

  /** Where a thread stands; the indices say when its call began, first loaded, and last read the store. */
  datatype Pc = Idle
    | Sampled(cur: uint32, beganAt: nat)
    | Looping(cur: uint32, prev: uint32, beganAt: nat, loadedAt: nat, readAt: nat)

  datatype Returned = Returned(thread: nat, raw: uint32, value: uint32, beganAt: nat, loadedAt: nat, readAt: nat, returnedAt: nat)

  datatype State = State(store: uint32, threads: seq<Pc>, results: seq<Returned>)

  /** A thread samples the raw clock; loads the store; goes once through the loop, perhaps failing spuriously. */
  datatype Action = Sample(thread: nat, raw: uint32) | Load(thread: nat) | Turn(thread: nat, spurious: bool)

  /** The `n`-th step, counting from 0. */
  function Do(s: State, a: Action, n: nat): State {
    if a.thread >= |s.threads| then s
    else
      match (a, s.threads[a.thread])
      case (Sample(i, raw), Idle) => s.(threads := s.threads[i := Sampled(raw, n)])
      case (Load(i), Sampled(cur, began)) => s.(threads := s.threads[i := Looping(cur, s.store, began, n, n)])
      case (Turn(i, spurious), Looping(cur, prev, began, loaded, read)) =>
        if SignedDifference(cur, prev) > 0 then
          if s.store == prev && !spurious then
            State(cur, s.threads[i := Idle], s.results + [Returned(i, cur, cur, began, loaded, n + 1, n + 1)])
          else s.(threads := s.threads[i := Looping(cur, s.store, began, loaded, n)])
        else s.(threads := s.threads[i := Idle], results := s.results + [Returned(i, cur, prev, began, loaded, read, n + 1)])
      case _ => s
  }

  function Run(s: State, actions: seq<Action>, n: nat): State
    requires n <= |actions|
  {
    if n == 0 then s else Do(Run(s, actions, n - 1), actions[n - 1], n - 1)
  }

  predicate Start(s: State) {
    s.results == [] && forall i :: 0 <= i < |s.threads| ==> s.threads[i].Idle?
  }

  /** Every time in play lies in the window. */
  ghost predicate Windowed(base: uint32, s: State) {
    && InWindow(base, s.store)
    && forall i :: 0 <= i < |s.threads| ==>
         match s.threads[i]
         case Idle => true
         case Sampled(cur, _) => InWindow(base, cur)
         case Looping(cur, prev, _, _, _) => InWindow(base, cur) && InWindow(base, prev)
  }

  ghost predicate WindowedActions(base: uint32, actions: seq<Action>) {
    forall k :: 0 <= k < |actions| && actions[k].Sample? ==> InWindow(base, actions[k].raw)
  }

  lemma StepForward(base: uint32, s: State, a: Action, n: nat)
    requires Windowed(base, s) && (a.Sample? ==> InWindow(base, a.raw))
    ensures Windowed(base, Do(s, a, n))
    ensures Age(base, s.store) <= Age(base, Do(s, a, n).store)
  {
    if a.Turn? && a.thread < |s.threads| && s.threads[a.thread].Looping? {
      DifferenceIsOrder(base, s.threads[a.thread].cur, s.threads[a.thread].prev);
    }
  }

  /** The store never moves back. */
  lemma {:induction false} StoreMonotone(base: uint32, s: State, actions: seq<Action>, m: nat, n: nat)
    requires Windowed(base, s) && WindowedActions(base, actions) && m <= n <= |actions|
    ensures Windowed(base, Run(s, actions, n))
    ensures Age(base, Run(s, actions, m).store) <= Age(base, Run(s, actions, n).store)
    decreases n
  {
    if n > 0 {
      StoreMonotone(base, s, actions, if m < n then m else n - 1, n - 1);
      StepForward(base, Run(s, actions, n - 1), actions[n - 1], n - 1);
    }
  }

  /** What the recorded indices mean, in the run that recorded them. */
  ghost predicate Recorded(s: State, actions: seq<Action>, n: nat)
    requires n <= |actions|
  {
    var t := Run(s, actions, n);
    && (forall i :: 0 <= i < |t.threads| && t.threads[i].Sampled? ==> t.threads[i].beganAt <= n)
    && (forall i :: 0 <= i < |t.threads| && t.threads[i].Looping? ==> LoopRecorded(s, actions, n, t.threads[i]))
    && (forall k :: 0 <= k < |t.results| ==> ResultRecorded(s, actions, n, t.results[k]))
  }

  ghost predicate LoopRecorded(s: State, actions: seq<Action>, n: nat, p: Pc)
    requires n <= |actions| && p.Looping?
  {
    p.beganAt <= p.loadedAt <= p.readAt <= n && Run(s, actions, p.readAt).store == p.prev
  }

  ghost predicate ResultRecorded(s: State, actions: seq<Action>, n: nat, r: Returned)
    requires n <= |actions|
  {
    r.beganAt <= r.loadedAt <= r.readAt <= r.returnedAt <= n && Run(s, actions, r.readAt).store == r.value
  }

  lemma {:induction false} RunRecorded(s: State, actions: seq<Action>, n: nat)
    requires Start(s) && n <= |actions|
    ensures Recorded(s, actions, n)
  {
    if n > 0 {
      RunRecorded(s, actions, n - 1);
      var t, t', a := Run(s, actions, n - 1), Run(s, actions, n), actions[n - 1];
      forall k | 0 <= k < |t'.results| ensures ResultRecorded(s, actions, n, t'.results[k]) {
        if k < |t.results| {
          assert t'.results[k] == t.results[k];
          assert ResultRecorded(s, actions, n - 1, t.results[k]);
        } else {
          assert LoopRecorded(s, actions, n - 1, t.threads[a.thread]);
        }
      }
      forall i | 0 <= i < |t'.threads| && t'.threads[i].Looping? ensures LoopRecorded(s, actions, n, t'.threads[i]) {
        if t'.threads[i] == t.threads[i] {
          assert LoopRecorded(s, actions, n - 1, t.threads[i]);
        } else if t.threads[i].Looping? {
          assert LoopRecorded(s, actions, n - 1, t.threads[i]);
        }
      }
    }
  }

  /** What a thread holds, and what it returned, goes back to its own actions. */
  ghost predicate Owned(s: State, actions: seq<Action>, n: nat)
    requires n <= |actions|
  {
    var t := Run(s, actions, n);
    && (forall i :: 0 <= i < |t.threads| ==> PcOwned(actions, n, i, t.threads[i]))
    && (forall k :: 0 <= k < |t.results| ==> ResultOwned(actions, n, t.results[k]))
  }

  ghost predicate PcOwned(actions: seq<Action>, n: nat, i: nat, p: Pc)
    requires n <= |actions|
  {
    match p
    case Idle => true
    case Sampled(cur, began) => began < n && actions[began] == Sample(i, cur)
    case Looping(cur, _, began, loaded, _) => began < loaded < n && actions[began] == Sample(i, cur) && actions[loaded] == Load(i)
  }

  ghost predicate ResultOwned(actions: seq<Action>, n: nat, r: Returned)
    requires n <= |actions|
  {
    && r.beganAt < r.loadedAt < r.returnedAt - 1 < n
    && actions[r.beganAt] == Sample(r.thread, r.raw) && actions[r.loadedAt] == Load(r.thread)
    && actions[r.returnedAt - 1].Turn? && actions[r.returnedAt - 1].thread == r.thread
  }

  lemma {:induction false} RunOwned(s: State, actions: seq<Action>, n: nat)
    requires Start(s) && n <= |actions|
    ensures Owned(s, actions, n)
  {
    if n > 0 {
      RunOwned(s, actions, n - 1);
      var t, t' := Run(s, actions, n - 1), Run(s, actions, n);
      forall i | 0 <= i < |t'.threads| ensures PcOwned(actions, n, i, t'.threads[i]) {
        assert PcOwned(actions, n - 1, i, t.threads[i]);
      }
      forall k | 0 <= k < |t'.results| ensures ResultOwned(actions, n, t'.results[k]) {
        if k < |t.results| {
          assert t'.results[k] == t.results[k] && ResultOwned(actions, n - 1, t.results[k]);
        } else {
          assert PcOwned(actions, n - 1, actions[n - 1].thread, t.threads[actions[n - 1].thread]);
        }
      }
    }
  }

  /** Each result was in the store during its call, and is no earlier than the store at the call's first load. */
  lemma ResultsAreCurrent(base: uint32, s: State, actions: seq<Action>, n: nat, k: nat)
    requires Start(s) && Windowed(base, s) && WindowedActions(base, actions) && n <= |actions|
    requires k < |Run(s, actions, n).results|
    ensures var r := Run(s, actions, n).results[k];
            && r.beganAt <= r.loadedAt <= r.readAt <= r.returnedAt <= n
            && Run(s, actions, r.readAt).store == r.value
            && Age(base, Run(s, actions, r.loadedAt).store) <= Age(base, r.value)
  {
    RunRecorded(s, actions, n);
    var r := Run(s, actions, n).results[k];
    assert ResultRecorded(s, actions, n, r);
    StoreMonotone(base, s, actions, r.loadedAt, r.readAt);
  }

  /** A call that begins after another has returned yields no earlier time. */
  lemma CallsAreMonotone(base: uint32, s: State, actions: seq<Action>, n: nat, j: nat, k: nat)
    requires Start(s) && Windowed(base, s) && WindowedActions(base, actions) && n <= |actions|
    requires j < |Run(s, actions, n).results| && k < |Run(s, actions, n).results|
    requires Run(s, actions, n).results[j].returnedAt <= Run(s, actions, n).results[k].beganAt
    ensures Age(base, Run(s, actions, n).results[j].value) <= Age(base, Run(s, actions, n).results[k].value)
  {
    RunRecorded(s, actions, n);
    var x, y := Run(s, actions, n).results[j], Run(s, actions, n).results[k];
    assert ResultRecorded(s, actions, n, x) && ResultRecorded(s, actions, n, y);
    StoreMonotone(base, s, actions, x.readAt, y.readAt);
  }

  /** No result so far is below its raw time. */
  ghost predicate AboveRaw(base: uint32, s: State) {
    forall k :: 0 <= k < |s.results| ==> Age(base, s.results[k].raw) <= Age(base, s.results[k].value)
  }

  lemma StepAboveRaw(base: uint32, s: State, a: Action, n: nat)
    requires Windowed(base, s) && (a.Sample? ==> InWindow(base, a.raw)) && AboveRaw(base, s)
    ensures AboveRaw(base, Do(s, a, n))
  {
    if a.Turn? && a.thread < |s.threads| && s.threads[a.thread].Looping? {
      DifferenceIsOrder(base, s.threads[a.thread].cur, s.threads[a.thread].prev);
    }
  }

  lemma {:induction false} RunAboveRaw(base: uint32, s: State, actions: seq<Action>, n: nat)
    requires Start(s) && Windowed(base, s) && WindowedActions(base, actions) && n <= |actions|
    ensures AboveRaw(base, Run(s, actions, n))
  {
    if n > 0 {
      RunAboveRaw(base, s, actions, n - 1);
      StoreMonotone(base, s, actions, n - 1, n - 1);
      StepAboveRaw(base, Run(s, actions, n - 1), actions[n - 1], n - 1);
    }
  }

  /**
   Every call that returned began by sampling a raw time, then loaded the store, then turned until its last
   turn, all of them its own thread's actions; and it returned no less than that raw time.
   */
  lemma NeverBelowRaw(base: uint32, s: State, actions: seq<Action>, n: nat, k: nat)
    requires Start(s) && Windowed(base, s) && WindowedActions(base, actions) && n <= |actions|
    requires k < |Run(s, actions, n).results|
    ensures var r := Run(s, actions, n).results[k];
            && ResultOwned(actions, n, r) && Age(base, actions[r.beganAt].raw) <= Age(base, r.value)
  {
    RunOwned(s, actions, n);
    RunAboveRaw(base, s, actions, n);
  }

  /** Some raw time sampled so far, or the time the store began with. */
  ghost predicate IsTime(s: State, actions: seq<Action>, n: nat, time: uint32)
    requires n <= |actions|
  {
    time == s.store || exists k :: 0 <= k < n && actions[k].Sample? && actions[k].raw == time
  }

  lemma {:induction false} StoreIsTime(s: State, actions: seq<Action>, n: nat)
    requires Start(s) && n <= |actions|
    ensures IsTime(s, actions, n, Run(s, actions, n).store)
  {
    if n > 0 {
      StoreIsTime(s, actions, n - 1);
      RunOwned(s, actions, n - 1);
      var t, a := Run(s, actions, n - 1), actions[n - 1];
      if Run(s, actions, n).store != t.store {
        assert PcOwned(actions, n - 1, a.thread, t.threads[a.thread]);
      }
    }
  }

  /** No call makes a time up: it returns what the store began with, or a raw time some call has sampled. */
  lemma ResultsAreTimes(s: State, actions: seq<Action>, n: nat, k: nat)
    requires Start(s) && n <= |actions| && k < |Run(s, actions, n).results|
    ensures IsTime(s, actions, n, Run(s, actions, n).results[k].value)
  {
    RunRecorded(s, actions, n);
    var r := Run(s, actions, n).results[k];
    assert ResultRecorded(s, actions, n, r);
    StoreIsTime(s, actions, r.readAt);
  }

  /** A compare-exchange that fails without being spurious fails because the store has moved on. */
  lemma FailureIsProgress(base: uint32, s: State, actions: seq<Action>, n: nat, i: nat)
    requires Start(s) && Windowed(base, s) && WindowedActions(base, actions) && n <= |actions|
    requires var t := Run(s, actions, n);
             i < |t.threads| && t.threads[i].Looping? && t.store != t.threads[i].prev
    ensures var t := Run(s, actions, n); Age(base, t.threads[i].prev) < Age(base, t.store)
  {
    RunRecorded(s, actions, n);
    var t := Run(s, actions, n);
    assert LoopRecorded(s, actions, n, t.threads[i]);
    StoreMonotone(base, s, actions, t.threads[i].readAt, n);
    StoreMonotone(base, s, actions, n, n);
    DifferenceIsOrder(base, t.threads[i].prev, t.store);
  }

  // One call that nobody interrupts.

  function Later(raw: uint32, stored: uint32): uint32 {
    if SignedDifference(raw, stored) > 0 then raw else stored
  }

  /** A call of thread `i`, with a turn for each spurious failure and one that is none. */
  function Call(i: nat, raw: uint32, spurious: seq<bool>): seq<Action> {
    [Sample(i, raw), Load(i)] + seq(|spurious|, k requires 0 <= k < |spurious| => Turn(i, spurious[k])) + [Turn(i, false)]
  }

  /** The thread still loops over what it first loaded, or has returned the later time. */
  ghost predicate Underway(s: State, t: State, i: nat, raw: uint32)
    requires i < |s.threads|
  {
    && |t.threads| == |s.threads|
    && match t.threads[i] {
         case Looping(cur, prev, _, _, _) =>
           cur == raw && prev == t.store == s.store && SignedDifference(raw, prev) > 0
           && t.results == s.results && t.threads[i := Idle] == s.threads
         case Sampled(_, _) => false
         case Idle => Ended(s, t, raw)
       }
  }

  ghost predicate Ended(s: State, t: State, raw: uint32) {
    && t.store == Later(raw, s.store) && t.threads == s.threads
    && |t.results| == |s.results| + 1 && t.results[..|s.results|] == s.results
    && t.results[|s.results|].value == Later(raw, s.store)
  }

  lemma {:induction false} TurnsAlone(s: State, i: nat, raw: uint32, spurious: seq<bool>, n: nat)
    requires i < |s.threads| && s.threads[i].Idle? && n <= |spurious|
    ensures var t := Run(s, Call(i, raw, spurious), n + 3);
            Underway(s, t, i, raw) && (t.threads[i].Looping? ==> n < |spurious|)
  {
    var actions := Call(i, raw, spurious);
    if n == 0 {
      assert Run(s, actions, 1) == s.(threads := s.threads[i := Sampled(raw, 0)]);
      assert Run(s, actions, 2) == s.(threads := s.threads[i := Looping(raw, s.store, 0, 1, 1)]);
    } else {
      TurnsAlone(s, i, raw, spurious, n - 1);
    }
  }

  /** The steps of one call, uninterrupted, store the later time and return it. */
  lemma CallAlone(s: State, i: nat, raw: uint32, spurious: seq<bool>)
    requires i < |s.threads| && s.threads[i].Idle?
    ensures Ended(s, Run(s, Call(i, raw, spurious), |spurious| + 3), raw)
  {
    TurnsAlone(s, i, raw, spurious, |spurious|);
  }

  class TimeStore {
    var time: uint32

    method CompareExchangeWeak(expected: uint32, desired: uint32, spurious: bool) returns (ok: bool, seen: uint32)
      modifies this
      ensures ok == (old(time) == expected && !spurious)
      ensures seen == (if ok then expected else old(time)) && time == if ok then desired else old(time)
    {
      ok := time == expected && !spurious;
      seen := if ok then expected else time;
      if ok {
        time := desired;
      }
    }

    /** The later of the sampled and the stored time is stored and returned, after any number of spurious failures. */
    method GetTickCount(raw: uint32, spurious: seq<bool>) returns (cur: uint32)
      modifies this
      ensures cur == time == Later(raw, old(time))
    {
      cur := raw;
      var prev, k := time, 0;
      while SignedDifference(cur, prev) > 0
        invariant k <= |spurious| && cur == raw && prev == time == old(time)
        decreases |spurious| - k
      {
        var ok, seen := CompareExchangeWeak(prev, cur, k < |spurious| && spurious[k]);
        if ok {
          prev := cur;
          break;
        }
        prev, k := seen, k + 1;
      }
      cur := prev;
    }
  }
}
