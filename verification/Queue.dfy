/**
 The multi-producer, single-consumer queue of plib/utils/MpscPollableQueue.h over the spin lock of
 plib/utils/SpinLock.h, and the two loops of plib/plib/ClientImpl.cpp that read from it. Every access to
 shared memory is a step of its own; any number of writers and the reader interleave in any way.
 */
module Queue {
  import opened Machine

  /** Where a writer stands in writer_put; the value it carries until it is pushed. */
  datatype WriterPc<T> = Idle | Trying(value: T) | Locked(value: T) | Pushed | Woken

  /** Where the reader stands in reader_wait_nonblock, or between two calls. */
  datatype ReaderPc = Ready | Spinning | Holding | Clearing | Cleared | Reset | Swapped | Leaving(count: nat) | Stopped

  datatype State<T> = State(
    flag: bool,               // SpinLock::flag_
    wait: bool,               // wait_event_fd_
    wv: seq<T>,               // writer_vector_
    rv: seq<T>,               // reader_vector_
    pos: nat,                 // reader_pos_
    writers: seq<WriterPc<T>>,
    reader: ReaderPc,
    cached: nat,              // the count the reading loop still has to its credit
    puts: seq<(nat, T)>,      // the values pushed so far and by whom, in the order of the pushes
    gets: seq<T>,             // the values read so far
    calls: seq<seq<T>>)       // the values each writer has called writer_put with

  /** One step of one thread. A step that is not enabled, a failed try_lock among them, changes nothing. */
  datatype Action<T> = Call(writer: nat, value: T) | Write(writer: nat) | Wait | Read | Stop

  ghost function Initial<T>(writers: nat): State<T> {
    State(false, false, [], [], 0, seq(writers, i => Idle), Ready, 0, [], [], seq(writers, i => []))
  }

  function DoCall<T>(s: State<T>, i: nat, v: T): State<T> {
    if i < |s.writers| && i < |s.calls| && s.writers[i].Idle?
    then s.(writers := s.writers[i := Trying(v)], calls := s.calls[i := s.calls[i] + [v]])
    else s
  }

  function DoWrite<T>(s: State<T>, i: nat): State<T> {
    if i >= |s.writers| then s
    else
      match s.writers[i]
      case Idle => s
      case Trying(v) => if s.flag then s else s.(flag := true, writers := s.writers[i := Locked(v)])
      case Locked(v) => s.(wv := s.wv + [v], puts := s.puts + [(i, v)], writers := s.writers[i := Pushed])
      case Pushed => s.(wait := false, writers := s.writers[i := Woken])
      case Woken => s.(flag := false, writers := s.writers[i := Idle])
  }

  function DoWait<T>(s: State<T>): State<T> {
    match s.reader
    case Ready =>
      if s.cached != 0 then s
      else if |s.rv| > s.pos then s.(cached := |s.rv| - s.pos)
      else s.(reader := Spinning)
    case Spinning => if s.flag then s else s.(flag := true, reader := Holding)
    case Holding => if s.wv == [] then s.(wait := true, reader := Leaving(0)) else s.(reader := Clearing)
    case Clearing => s.(rv := [], reader := Cleared)
    case Cleared => s.(pos := 0, reader := Reset)
    case Reset => s.(wv := s.rv, rv := s.wv, reader := Swapped)
    case Swapped => s.(reader := Leaving(|s.rv|))
    case Leaving(n) => s.(flag := false, cached := n, reader := Ready)
    case Stopped => s
  }

  /** The loops read while their cached count lasts; that the unchecked index is then in bounds is CountsAreSafe. */
  function DoRead<T>(s: State<T>): State<T> {
    if s.reader.Ready? && s.cached > 0 && s.pos < |s.rv|
    then s.(gets := s.gets + [s.rv[s.pos]], pos := s.pos + 1, cached := s.cached - 1)
    else s
  }

  function Do<T>(s: State<T>, a: Action<T>): State<T> {
    match a
    case Call(i, v) => DoCall(s, i, v)
    case Write(i) => DoWrite(s, i)
    case Wait => DoWait(s)
    case Read => DoRead(s)
    case Stop => if s.reader.Ready? then s.(reader := Stopped) else s
  }

  /** The state after the first `n` actions. */
  ghost function Run<T>(s: State<T>, actions: seq<Action<T>>, n: nat): State<T>
    requires n <= |actions|
  {
    if n == 0 then s else Do(Run(s, actions, n - 1), actions[n - 1])
  }

  // The invariant.

  predicate WriterInside<T>(pc: WriterPc<T>) {
    pc.Locked? || pc.Pushed? || pc.Woken?
  }

  predicate ReaderInside(pc: ReaderPc) {
    pc.Holding? || pc.Clearing? || pc.Cleared? || pc.Reset? || pc.Swapped? || pc.Leaving?
  }

  /** The lock is held exactly when somebody is inside, and by no more than one. */
  ghost predicate Exclusion<T>(s: State<T>) {
    && (s.flag <==> ReaderInside(s.reader) || exists i :: 0 <= i < |s.writers| && WriterInside(s.writers[i]))
    && (forall i :: 0 <= i < |s.writers| && WriterInside(s.writers[i]) ==> !ReaderInside(s.reader))
    && (forall i, j :: 0 <= i < |s.writers| && 0 <= j < |s.writers| && WriterInside(s.writers[i]) && WriterInside(s.writers[j]) ==> i == j)
  }

  function Values<T>(puts: seq<(nat, T)>): (vs: seq<T>)
    ensures |vs| == |puts| && forall i :: 0 <= i < |puts| ==> vs[i] == puts[i].1
  {
    if puts == [] then [] else Values(puts[..|puts| - 1]) + [puts[|puts| - 1].1]
  }

  /** What is in the reader's vector and not yet read; nothing while the vector is being exchanged. */
  function Unread<T>(s: State<T>): seq<T> {
    if s.reader.Cleared? || s.pos > |s.rv| then [] else s.rv[s.pos..]
  }

  /** Everything pushed is read, or waits in one of the two vectors, in order and once. */
  ghost predicate Conserved<T>(s: State<T>) {
    Values(s.puts) == s.gets + Unread(s) + s.wv
  }

  /** What the reader's position, its vector and its cached count say of each other. */
  ghost predicate ReaderSound<T>(s: State<T>) {
    && (!s.reader.Cleared? ==> s.pos <= |s.rv|)
    && s.cached <= |Unread(s)|
    && (s.reader.Ready? ==> s.cached == |Unread(s)|)
    && (s.reader.Spinning? || s.reader.Holding? || s.reader.Clearing? ==> Unread(s) == [])
    && (s.reader.Cleared? || s.reader.Reset? ==> s.rv == [])
    && (s.reader.Reset? || s.reader.Swapped? ==> s.pos == 0)
    && (s.reader.Clearing? || s.reader.Cleared? || s.reader.Reset? ==> s.wv != [])
    && (s.reader.Swapped? ==> s.wv == [] && s.rv != [])
    && (s.reader.Leaving? ==> s.wv == [] && s.reader.count == |Unread(s)|)
    && (!s.reader.Ready? && !s.reader.Stopped? ==> s.cached == 0)
  }

  ghost predicate Inv<T>(s: State<T>) {
    && Exclusion(s) && Conserved(s) && ReaderSound(s)
    && |s.calls| == |s.writers|
  }

  lemma InitialInv<T>(n: nat)
    ensures Inv(Initial<T>(n))
  {
  }

  lemma ValuesSnoc<T>(puts: seq<(nat, T)>, p: (nat, T))
    ensures Values(puts + [p]) == Values(puts) + [p.1]
  {
    assert (puts + [p])[..|puts|] == puts;
  }

  lemma CallInv<T>(s: State<T>, i: nat, v: T)
    requires Inv(s)
    ensures Inv(DoCall(s, i, v))
  {
    var s' := DoCall(s, i, v);
    assert forall k :: 0 <= k < |s.writers| ==> WriterInside(s'.writers[k]) == WriterInside(s.writers[k]);
    assert Unread(s') == Unread(s);
  }

  lemma WriteExclusion<T>(s: State<T>, i: nat)
    requires Exclusion(s)
    ensures Exclusion(DoWrite(s, i))
  {
    var s' := DoWrite(s, i);
    if i < |s.writers| {
      forall k | 0 <= k < |s.writers| && k != i ensures s'.writers[k] == s.writers[k] {
      }
      assert WriterInside(s.writers[i]) ==> s.flag;
      if WriterInside(s'.writers[i]) {
        assert s'.flag;
      }
    }
  }

  lemma PushSound<T>(s: State<T>, i: nat, v: T, writers: seq<WriterPc<T>>)
    requires ReaderSound(s) && Conserved(s) && !ReaderInside(s.reader)
    ensures var t := s.(wv := s.wv + [v], puts := s.puts + [(i, v)], writers := writers);
            ReaderSound(t) && Conserved(t)
  {
    var t := s.(wv := s.wv + [v], puts := s.puts + [(i, v)], writers := writers);
    ValuesSnoc(s.puts, (i, v));
    assert Unread(t) == Unread(s);
    ConcatAssociates(s.gets + Unread(s), s.wv, [v]);
  }

  lemma UnseenSound<T>(s: State<T>, flag: bool, wait: bool, writers: seq<WriterPc<T>>)
    requires ReaderSound(s) && Conserved(s)
    ensures var t := s.(flag := flag, wait := wait, writers := writers); ReaderSound(t) && Conserved(t)
  {
    assert Unread(s.(flag := flag, wait := wait, writers := writers)) == Unread(s);
  }

  lemma WriteSound<T>(s: State<T>, i: nat)
    requires ReaderSound(s) && Conserved(s)
    requires i < |s.writers| && (WriterInside(s.writers[i]) ==> !ReaderInside(s.reader))
    ensures ReaderSound(DoWrite(s, i)) && Conserved(DoWrite(s, i))
  {
    var t := DoWrite(s, i);
    match s.writers[i]
    case Locked(v) => PushSound(s, i, v, t.writers);
    case _ => UnseenSound(s, t.flag, t.wait, t.writers);
  }

  lemma WriteInv<T>(s: State<T>, i: nat)
    requires Inv(s)
    ensures Inv(DoWrite(s, i))
  {
    WriteExclusion(s, i);
    if i < |s.writers| {
      WriteSound(s, i);
    }
  }

  lemma WaitExclusion<T>(s: State<T>)
    requires Exclusion(s)
    ensures Exclusion(DoWait(s))
  {
    assert DoWait(s).writers == s.writers;
  }

  lemma WaitSound<T>(s: State<T>)
    requires ReaderSound(s) && Conserved(s)
    ensures ReaderSound(DoWait(s)) && Conserved(DoWait(s))
  {
    var s' := DoWait(s);
    if s.reader.Clearing? || s.reader.Cleared? {
      assert Unread(s') == Unread(s) == [];
    } else if s.reader.Reset? {
      assert Unread(s') == s.wv;
      assert s.gets + [] + s.wv == s.gets + s.wv + [];
    }
  }

  lemma WaitInv<T>(s: State<T>)
    requires Inv(s)
    ensures Inv(DoWait(s))
  {
    WaitExclusion(s);
    WaitSound(s);
  }

  lemma ReadSound<T>(s: State<T>)
    requires ReaderSound(s) && Conserved(s)
    ensures ReaderSound(DoRead(s)) && Conserved(DoRead(s))
  {
    var t := DoRead(s);
    if s.reader.Ready? && s.cached > 0 && s.pos < |s.rv| {
      var v := s.rv[s.pos];
      assert Unread(s) == [v] + Unread(t);
      ConcatAssociates(s.gets, [v], Unread(t));
    }
  }

  lemma ReadInv<T>(s: State<T>)
    requires Inv(s)
    ensures Inv(DoRead(s))
  {
    assert DoRead(s).writers == s.writers;
    ReadSound(s);
  }

  lemma {:induction false} RunInv<T>(s: State<T>, actions: seq<Action<T>>, n: nat)
    requires Inv(s) && n <= |actions|
    ensures Inv(Run(s, actions, n))
  {
    if n > 0 {
      RunInv(s, actions, n - 1);
      var t := Run(s, actions, n - 1);
      match actions[n - 1]
      case Call(i, v) => CallInv(t, i, v);
      case Write(i) => WriteInv(t, i);
      case Wait => WaitInv(t);
      case Read => ReadInv(t);
      case Stop =>
    }
  }

  // What follows, for every run from the empty queue.

  /** At most one thread is between a successful try_lock and its unlock. */
  lemma MutualExclusion<T>(writers: nat, actions: seq<Action<T>>, n: nat)
    requires n <= |actions|
    ensures var s := Run(Initial(writers), actions, n);
            && (forall i, j :: 0 <= i < |s.writers| && 0 <= j < |s.writers| && WriterInside(s.writers[i]) && WriterInside(s.writers[j]) ==> i == j)
            && (ReaderInside(s.reader) ==> forall i :: 0 <= i < |s.writers| ==> !WriterInside(s.writers[i]))
  {
    InitialInv<T>(writers);
    RunInv(Initial(writers), actions, n);
  }

  /** Reads are first in, first out: what has been read is the beginning of what has been pushed. */
  lemma Fifo<T>(writers: nat, actions: seq<Action<T>>, n: nat)
    requires n <= |actions|
    ensures var s := Run(Initial(writers), actions, n);
            Values(s.puts) == s.gets + Unread(s) + s.wv && s.gets <= Values(s.puts)
  {
    InitialInv<T>(writers);
    RunInv(Initial(writers), actions, n);
    var s := Run(Initial(writers), actions, n);
    assert s.gets + Unread(s) + s.wv == s.gets + (Unread(s) + s.wv);
  }

  /** The cached counts never let reader_get_unsafe run past the vector. */
  lemma CountsAreSafe<T>(writers: nat, actions: seq<Action<T>>, n: nat)
    requires n <= |actions|
    ensures var s := Run(Initial(writers), actions, n);
            s.reader.Ready? ==> s.pos + s.cached <= |s.rv|
  {
    InitialInv<T>(writers);
    RunInv(Initial(writers), actions, n);
  }

  /** When the reader is told that nothing is there, everything pushed so far has been read. */
  lemma EmptyMeansAllRead<T>(writers: nat, actions: seq<Action<T>>, n: nat)
    requires n <= |actions|
    ensures var s := Run(Initial(writers), actions, n);
            s.reader == Leaving(0) ==> s.gets == Values(s.puts)
  {
    InitialInv<T>(writers);
    RunInv(Initial(writers), actions, n);
  }

  // The flag by which the reader waits.

  ghost predicate SomePushed<T>(s: State<T>) {
    exists i :: 0 <= i < |s.writers| && s.writers[i].Pushed?
  }

  /** Where the flag is set while something waits, its writer is about to clear it; the reader is told of nothing with it set. */
  ghost predicate Wakeful<T>(s: State<T>) {
    && (s.wait && s.wv != [] ==> SomePushed(s))
    && (s.reader == Leaving(0) ==> s.wait)
  }

  lemma WriteWakeful<T>(s: State<T>, i: nat)
    requires Exclusion(s) && Wakeful(s)
    ensures Wakeful(DoWrite(s, i))
  {
    var t := DoWrite(s, i);
    if i < |s.writers| && s.writers[i].Locked? {
      assert t.writers[i].Pushed?;
    } else if SomePushed(s) {
      var k :| 0 <= k < |s.writers| && s.writers[k].Pushed?;
      assert k != i ==> t.writers[k].Pushed?;
    }
  }

  lemma StepWakeful<T>(s: State<T>, a: Action<T>)
    requires Inv(s) && Wakeful(s)
    ensures Wakeful(Do(s, a))
  {
    match a
    case Call(i, v) =>
      if SomePushed(s) {
        var k :| 0 <= k < |s.writers| && s.writers[k].Pushed?;
        assert DoCall(s, i, v).writers[k].Pushed?;
      }
    case Write(i) => WriteWakeful(s, i);
    case Wait => assert DoWait(s).writers == s.writers;
    case _ => assert Do(s, a).writers == s.writers;
  }

  lemma {:induction false} RunWakeful<T>(writers: nat, actions: seq<Action<T>>, n: nat)
    requires n <= |actions|
    ensures Wakeful(Run(Initial(writers), actions, n))
  {
    if n > 0 {
      RunWakeful(writers, actions, n - 1);
      InitialInv<T>(writers);
      RunInv(Initial(writers), actions, n - 1);
      StepWakeful(Run(Initial<T>(writers), actions, n - 1), actions[n - 1]);
    }
  }

  /** No value waits unannounced: with the lock free, the flag is set only over an empty vector. */
  lemma FlagMeansEmpty<T>(writers: nat, actions: seq<Action<T>>, n: nat)
    requires n <= |actions|
    ensures var s := Run(Initial(writers), actions, n); s.wait && !s.flag ==> s.wv == []
  {
    RunWakeful(writers, actions, n);
    InitialInv<T>(writers);
    RunInv(Initial(writers), actions, n);
  }

  /** Since the reader was told of nothing, either nothing was pushed and the flag stands, or something was. */
  ghost predicate Told<T>(s: State<T>, t: State<T>) {
    s.puts < t.puts || (t.puts == s.puts && t.wait && !SomePushed(t))
  }

  lemma StepTold<T>(s: State<T>, t: State<T>, a: Action<T>)
    requires Told(s, t)
    ensures Told(s, Do(t, a))
  {
    assert t.puts <= Do(t, a).puts;
  }

  lemma ToldNow<T>(s: State<T>)
    requires Inv(s) && Wakeful(s) && s.reader == Leaving(0)
    ensures Told(s, s)
  {
    assert forall i :: 0 <= i < |s.writers| ==> !WriterInside(s.writers[i]);
  }

  lemma {:induction false} StaysTold<T>(start: State<T>, actions: seq<Action<T>>, s: State<T>, m: nat, n: nat)
    requires m <= n <= |actions| && Told(s, Run(start, actions, m))
    ensures Told(s, Run(start, actions, n))
    decreases n
  {
    if m < n {
      StaysTold(start, actions, s, m, n - 1);
      StepTold(s, Run(start, actions, n - 1), actions[n - 1]);
    }
  }

  /** A reader that was told of nothing keeps the flag set until something is pushed. */
  lemma FlagUntilPush<T>(writers: nat, actions: seq<Action<T>>, m: nat, n: nat)
    requires m <= n <= |actions| && Run(Initial(writers), actions, m).reader == Leaving(0)
    ensures Told(Run(Initial(writers), actions, m), Run(Initial(writers), actions, n))
  {
    RunWakeful(writers, actions, m);
    InitialInv<T>(writers);
    RunInv(Initial(writers), actions, m);
    ToldNow(Run(Initial(writers), actions, m));
    StaysTold(Initial(writers), actions, Run(Initial(writers), actions, m), m, n);
  }

  // Each writer's own order.

  /** The values pushed by writer `i`. */
  function By<T>(puts: seq<(nat, T)>, i: nat): seq<T> {
    if puts == [] then []
    else By(puts[..|puts| - 1], i) + if puts[|puts| - 1].0 == i then [puts[|puts| - 1].1] else []
  }

  lemma BySnoc<T>(puts: seq<(nat, T)>, p: (nat, T), i: nat)
    ensures By(puts + [p], i) == By(puts, i) + if p.0 == i then [p.1] else []
  {
    assert (puts + [p])[..|puts|] == puts;
  }

  /** A writer has pushed the values of its calls, save the one it is still carrying. */
  ghost predicate InOrder<T>(s: State<T>) {
    |s.calls| == |s.writers| &&
    forall i :: 0 <= i < |s.writers| ==>
      match s.writers[i]
      case Trying(v) => s.calls[i] == By(s.puts, i) + [v]
      case Locked(v) => s.calls[i] == By(s.puts, i) + [v]
      case _ => s.calls[i] == By(s.puts, i)
  }

  lemma StepInOrder<T>(s: State<T>, a: Action<T>)
    requires InOrder(s)
    ensures InOrder(Do(s, a))
  {
    if a.Write? && a.writer < |s.writers| && s.writers[a.writer].Locked? {
      PushInOrder(s, a.writer);
    }
  }

  lemma PushInOrder<T>(s: State<T>, w: nat)
    requires InOrder(s) && w < |s.writers| && s.writers[w].Locked?
    ensures InOrder(DoWrite(s, w))
  {
    var v := s.writers[w].value;
    var puts := s.puts + [(w, v)];
    forall i | 0 <= i < |s.writers| ensures By(puts, i) == if i == w then By(s.puts, i) + [v] else By(s.puts, i) {
      BySnoc(s.puts, (w, v), i);
    }
  }

  /** Every writer's values are pushed in the order of its calls, each once. */
  lemma {:induction false} ProgramOrder<T>(writers: nat, actions: seq<Action<T>>, n: nat)
    requires n <= |actions|
    ensures InOrder(Run(Initial(writers), actions, n))
  {
    if n > 0 {
      ProgramOrder(writers, actions, n - 1);
      StepInOrder(Run(Initial<T>(writers), actions, n - 1), actions[n - 1]);
    }
  }

  // Calls that nobody interrupts, and the sequential queue.

  /** The effect of a writer_put from beginning to end. */
  ghost function Put<T>(s: State<T>, i: nat, v: T): State<T>
    requires i < |s.writers| == |s.calls|
  {
    s.(wv := s.wv + [v], wait := false, puts := s.puts + [(i, v)], calls := s.calls[i := s.calls[i] + [v]])
  }

  lemma PutAlone<T>(s: State<T>, i: nat, v: T)
    requires i < |s.writers| == |s.calls| && s.writers[i].Idle? && !s.flag
    ensures Run(s, [Call(i, v), Write(i), Write(i), Write(i), Write(i)], 5) == Put(s, i, v)
  {
    var actions := [Call(i, v), Write(i), Write(i), Write(i), Write(i)];
    var s1 := Do(s, actions[0]);
    var s2 := Do(s1, actions[1]);
    var s3 := Do(s2, actions[2]);
    var s4 := Do(s3, actions[3]);
    var s5 := Do(s4, actions[4]);
    assert s5.writers == s.writers;
    assert Run(s, actions, 1) == s1;
    assert Run(s, actions, 2) == s2;
    assert Run(s, actions, 3) == s3;
    assert Run(s, actions, 4) == s4;
  }

  /** The effect of a reader_wait_nonblock from beginning to end. */
  ghost function Waited<T>(s: State<T>): State<T>
    requires s.pos <= |s.rv|
  {
    if |s.rv| > s.pos then s.(cached := |s.rv| - s.pos)
    else if s.wv == [] then s.(wait := true, cached := 0)
    else s.(rv := s.wv, wv := [], pos := 0, cached := |s.wv|)
  }

  function Waits<T>(s: State<T>, n: nat): State<T> {
    if n == 0 then s else DoWait(Waits(s, n - 1))
  }

  lemma {:induction false} RunWaits<T>(s: State<T>, m: nat, n: nat)
    requires n <= m
    ensures Run(s, seq(m, i => Wait), n) == Waits(s, n)
  {
    if n > 0 {
      RunWaits(s, m, n - 1);
    }
  }

  lemma WaitsForNothing<T>(s: State<T>)
    requires s.reader.Ready? && s.cached == 0 && s.pos == |s.rv| && !s.flag && s.wv == []
    ensures Waits(s, 4) == s.(wait := true)
  {
    assert Waits(s, 1) == s.(reader := Spinning);
    assert Waits(s, 2) == s.(flag := true, reader := Holding);
    assert Waits(s, 3) == s.(flag := true, wait := true, reader := Leaving(0));
  }

  lemma WaitsForExchange<T>(s: State<T>)
    requires s.reader.Ready? && s.cached == 0 && s.pos == |s.rv| && !s.flag && s.wv != []
    ensures Waits(s, 8) == s.(rv := s.wv, wv := [], pos := 0, cached := |s.wv|)
  {
    assert Waits(s, 1) == s.(reader := Spinning);
    assert Waits(s, 2) == s.(flag := true, reader := Holding);
    assert Waits(s, 3) == s.(flag := true, reader := Clearing);
    assert Waits(s, 4) == s.(flag := true, rv := [], reader := Cleared);
    assert Waits(s, 5) == s.(flag := true, rv := [], pos := 0, reader := Reset);
    assert Waits(s, 6) == s.(flag := true, rv := s.wv, wv := [], pos := 0, reader := Swapped);
    assert Waits(s, 7) == s.(flag := true, rv := s.wv, wv := [], pos := 0, reader := Leaving(|s.wv|));
  }

  lemma WaitAlone<T>(s: State<T>) returns (steps: nat)
    requires s.reader.Ready? && s.cached == 0 && s.pos <= |s.rv| && !s.flag
    ensures Run(s, seq(steps, i => Wait), steps) == Waited(s)
  {
    steps := if |s.rv| > s.pos then 1 else if s.wv == [] then 4 else 8;
    RunWaits(s, steps, steps);
    if steps == 1 {
      assert Waits(s, 1) == DoWait(s);
    } else if steps == 4 {
      WaitsForNothing(s);
    } else {
      WaitsForExchange(s);
    }
  }

  function AfterReads<T>(s: State<T>, k: nat): State<T>
    requires s.pos + s.cached <= |s.rv| && k <= s.cached
  {
    s.(gets := s.gets + s.rv[s.pos..s.pos + k], pos := s.pos + k, cached := s.cached - k)
  }

  /** Reading on while the count lasts takes what is unread, in order. */
  lemma {:induction false} ReadsAlone<T>(s: State<T>, k: nat)
    requires s.reader.Ready? && s.pos + s.cached <= |s.rv| && k <= s.cached
    ensures Run(s, seq(k, i => Read), k) == AfterReads(s, k)
  {
    if k == 0 {
      assert s.gets + [] == s.gets;
    } else {
      ReadsAlone(s, k - 1);
      RunSame(s, seq(k, i => Read), seq(k - 1, i => Read), k - 1);
      ReadMore(s, k - 1);
    }
  }

  lemma ReadMore<T>(s: State<T>, k: nat)
    requires s.reader.Ready? && s.pos + s.cached <= |s.rv| && k < s.cached
    ensures DoRead(AfterReads(s, k)) == AfterReads(s, k + 1)
  {
    var v := s.rv[s.pos + k];
    assert s.rv[s.pos..s.pos + (k + 1)] == s.rv[s.pos..s.pos + k] + [v];
    ConcatAssociates(s.gets, s.rv[s.pos..s.pos + k], [v]);
  }

  lemma {:induction false} RunSame<T>(s: State<T>, a: seq<Action<T>>, b: seq<Action<T>>, n: nat)
    requires n <= |a| && n <= |b| && forall i :: 0 <= i < n ==> a[i] == b[i]
    ensures Run(s, a, n) == Run(s, b, n)
  {
    if n > 0 {
      RunSame(s, a, b, n - 1);
    }
  }

  /**
   Nothing is lost: from any sound state with the lock free and the reader between calls, the reader
   alone gets everything pushed, by reading its count, waiting once, and reading its count.
   */
  lemma LeftAlone<T>(s: State<T>) returns (first: nat, waits: nat, second: nat, t: State<T>)
    requires Inv(s) && s.reader.Ready? && !s.flag
    ensures var s1 := Run(s, seq(first, i => Read), first);
            var s2 := Run(s1, seq(waits, i => Wait), waits);
            t == Run(s2, seq(second, i => Read), second)
    ensures t.puts == s.puts && t.gets == Values(s.puts)
  {
    first := s.cached;
    ReadsAlone(s, first);
    var s1 := Run(s, seq(first, i => Read), first);
    assert s1.gets == s.gets + Unread(s);
    waits := WaitAlone(s1);
    var s2 := Run(s1, seq(waits, i => Wait), waits);
    second := s2.cached;
    ReadsAlone(s2, second);
    t := Run(s2, seq(second, i => Read), second);
    assert t.gets == s1.gets + s.wv;
  }

  class MpscPollableQueue<T> {
    var flag: bool
    var wait_event_fd: bool
    var writer_vector: seq<T>
    var reader_vector: seq<T>
    var reader_pos: nat

    /** The fields are those of `s`. */
    ghost predicate Shows(s: State<T>)
      reads this
    {
      && flag == s.flag && wait_event_fd == s.wait
      && writer_vector == s.wv && reader_vector == s.rv && reader_pos == s.pos
    }

    method TryLock() returns (ok: bool)
      modifies this`flag
      ensures flag && ok == !old(flag)
    {
      ok := !flag;
      flag := true;
    }

    /** Called while the lock is free, the first try succeeds; it is the interleaved steps that may spin. */
    method WriterPut(value: T, ghost s: State<T>, ghost i: nat)
      requires Shows(s) && !flag && i < |s.writers| == |s.calls|
      modifies this
      ensures Shows(Put(s, i, value))
    {
      var locked := TryLock();
      assert locked;
      writer_vector := writer_vector + [value];
      if wait_event_fd {
        wait_event_fd := false;
      }
      flag := false;
    }

    method ReaderWaitNonblock(ghost s: State<T>) returns (count: nat)
      requires Shows(s) && !flag && reader_pos <= |reader_vector|
      modifies this
      ensures Shows(Waited(s)) && count == Waited(s).cached
    {
      var ready := |reader_vector| - reader_pos;
      if ready != 0 {
        return ready;
      }
      var locked := TryLock();
      assert locked;
      if writer_vector == [] {
        wait_event_fd := true;
        count := 0;
      } else {
        reader_vector := [];
        reader_pos := 0;
        writer_vector, reader_vector := reader_vector, writer_vector;
        count := |reader_vector|;
      }
      flag := false;
    }

    method ReaderGetUnsafe() returns (value: T)
      requires reader_pos < |reader_vector|
      modifies this`reader_pos
      ensures value == reader_vector[old(reader_pos)] && reader_pos == old(reader_pos) + 1
    {
      value := reader_vector[reader_pos];
      reader_pos := reader_pos + 1;
    }
  }
}
