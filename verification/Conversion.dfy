/**
 A resumable converter reads one character at a time from a source, writes its image to a target of
 limited room, and reports where and why it stopped. The laws here hold of any such converter whose
 reading of one character depends only on the units from the cursor on.
 */
module Conversion {
  import opened Machine
  import opened Codepoints

  datatype Result = ConversionOk | SourceExhausted | TargetExhausted | SourceIllegal

  /** What stands at a cursor. */
  datatype Head = End | Stop(why: Result) | Char(c: Scalar, width: nat)

  datatype Outcome<T> = Outcome(result: Result, taken: nat, out: seq<T>)

  /** What `next` finds in a source at a cursor. */
  type Reader<!S> = (seq<S>, nat) -> Head

  ghost predicate Proper<S(!new)>(next: Reader<S>) {
    forall s, i: nat {:trigger next(s, i)} :: i <= |s| ==>
      match next(s, i)
      case End => i == |s|
      case Stop(why) => i < |s| && (why == SourceExhausted || why == SourceIllegal)
      case Char(_, width) => 0 < width && i + width <= |s|
  }

  /** The units before the cursor do not matter. */
  ghost predicate Local<S(!new)>(next: Reader<S>) {
    forall s, k: nat, i: nat {:trigger next(s[k..], i)} :: k + i <= |s| ==> next(s[k..], i) == next(s, k + i)
  }

  /** Only an exhausted head may read differently once more source arrives. */
  ghost predicate Stable<S(!new)>(next: Reader<S>) {
    forall a, b: seq<S>, i: nat {:trigger next(a + b, i)} :: i <= |a| ==>
      next(a, i).Char? || next(a, i) == Stop(SourceIllegal) ==> next(a + b, i) == next(a, i)
  }

  /** A character needs no units beyond its own. */
  ghost predicate SelfContained<S(!new)>(next: Reader<S>) {
    forall s, n: nat, i: nat {:trigger next(s[..n], i)} :: n <= |s| && i <= n ==>
      next(s, i).Char? && i + next(s, i).width <= n ==> next(s[..n], i) == next(s, i)
  }

  /** The rest of a run that stands at `pos` and has written `out`. */
  ghost function From<S(!new), T>(next: Reader<S>, emit: Scalar -> seq<T>,
                                  src: seq<S>, pos: nat, out: seq<T>, room: nat): (o: Outcome<T>)
    requires Proper(next) && pos <= |src|
    ensures pos <= o.taken <= |src| && |out| <= |o.out|
    ensures |out| <= room ==> |o.out| <= room
    ensures o.result == ConversionOk <==> o.taken == |src|
    decreases |src| - pos
  {
    match next(src, pos)
    case End => Outcome(ConversionOk, pos, out)
    case Stop(why) => Outcome(why, pos, out)
    case Char(c, w) =>
      if |out + emit(c)| > room then Outcome(TargetExhausted, pos, out)
      else From(next, emit, src, pos + w, out + emit(c), room)
  }

  /** The run `goal`, when it stands at `pos` and has written `out`. */
  ghost predicate Stands<S(!new), T>(next: Reader<S>, emit: Scalar -> seq<T>,
                                     src: seq<S>, pos: nat, out: seq<T>, room: nat, goal: Outcome<T>) {
    Proper(next) && pos <= |src| && From(next, emit, src, pos, out, room) == goal
  }

  lemma Proceeds<S(!new), T>(next: Reader<S>, emit: Scalar -> seq<T>, src: seq<S>, pos: nat, out: seq<T>, room: nat, goal: Outcome<T>)
    requires Stands(next, emit, src, pos, out, room, goal)
    ensures match next(src, pos)
            case End => goal == Outcome(ConversionOk, pos, out)
            case Stop(why) => goal == Outcome(why, pos, out)
            case Char(c, w) => if |out| + |emit(c)| > room then goal == Outcome(TargetExhausted, pos, out)
                               else Stands(next, emit, src, pos + w, out + emit(c), room, goal)
  {
  }

  ghost function Convert<S(!new), T>(next: Reader<S>, emit: Scalar -> seq<T>,
                                     src: seq<S>, room: nat): Outcome<T>
    requires Proper(next)
  {
    From(next, emit, src, 0, [], room)
  }

  /** The result tells what stands at the cursor that comes back: nothing, a character without room, or no character. */
  lemma {:induction false} WhyItStopped<S(!new), T>(next: Reader<S>, emit: Scalar -> seq<T>,
                                                    src: seq<S>, pos: nat, out: seq<T>, room: nat)
    requires Proper(next) && pos <= |src|
    ensures var o := From(next, emit, src, pos, out, room);
            match next(src, o.taken)
            case End => o.result == ConversionOk
            case Stop(why) => o.result == why
            case Char(c, _) => o.result == TargetExhausted && |o.out| + |emit(c)| > room
    decreases |src| - pos
  {
    var head := next(src, pos);
    if head.Char? && |out + emit(head.c)| <= room {
      WhyItStopped(next, emit, src, pos + head.width, out + emit(head.c), room);
    }
  }

  /** The outcome of continuing `a` with `b`, a run over what `a` left. */
  ghost function Then<T>(a: Outcome<T>, b: Outcome<T>): Outcome<T> {
    Outcome(b.result, a.taken + b.taken, a.out + b.out)
  }

  /** `rest` reads as `src` does `d` units further on. */
  ghost predicate ReadsAlike<S(!new)>(next: Reader<S>, src: seq<S>, d: nat, rest: seq<S>) {
    d + |rest| == |src| && forall i: nat {:trigger next(rest, i)} :: i <= |rest| ==> next(rest, i) == next(src, d + i)
  }

  ghost predicate GoesOn<S(!new), T>(next: Reader<S>, emit: Scalar -> seq<T>, src: seq<S>, rest: seq<S>,
                                     done: Outcome<T>, pos: nat, out: seq<T>, room: nat)
    requires Proper(next) && done.taken + pos <= |src| && pos <= |rest|
  {
    From(next, emit, src, done.taken + pos, done.out + out, |done.out| + room)
    == Then(done, From(next, emit, rest, pos, out, room))
  }

  lemma {:induction false} Shift<S(!new), T>(next: Reader<S>, emit: Scalar -> seq<T>, src: seq<S>, rest: seq<S>,
                                             done: Outcome<T>, pos: nat, out: seq<T>, room: nat)
    requires Proper(next) && ReadsAlike(next, src, done.taken, rest) && pos <= |rest|
    ensures GoesOn(next, emit, src, rest, done, pos, out, room)
    decreases |rest| - pos
  {
    var head := next(rest, pos);
    if head.Char? && |out + emit(head.c)| <= room {
      Shift(next, emit, src, rest, done, pos + head.width, out + emit(head.c), room);
      ShiftStep(next, emit, src, rest, done, pos, out, room);
    }
  }

  lemma ShiftStep<S(!new), T>(next: Reader<S>, emit: Scalar -> seq<T>, src: seq<S>, rest: seq<S>,
                              done: Outcome<T>, pos: nat, out: seq<T>, room: nat)
    requires Proper(next) && done.taken + pos <= |src| && pos <= |rest|
    requires next(src, done.taken + pos) == next(rest, pos) && next(rest, pos).Char?
    requires var c, w := next(rest, pos).c, next(rest, pos).width;
             |out + emit(c)| <= room && GoesOn(next, emit, src, rest, done, pos + w, out + emit(c), room)
    ensures GoesOn(next, emit, src, rest, done, pos, out, room)
  {
    ConcatAssociates(done.out, out, emit(next(rest, pos).c));
  }

  /** A run that has gone some way goes on like a fresh run over what is left. */
  lemma {:induction false} Rejoin<S(!new), T>(next: Reader<S>, emit: Scalar -> seq<T>,
                                              src: seq<S>, done: Outcome<T>, room: nat)
    requires Proper(next) && Local(next) && done.taken <= |src| && |done.out| <= room
    ensures From(next, emit, src, done.taken, done.out, room)
         == Then(done, Convert(next, emit, src[done.taken..], room - |done.out|))
  {
    assert ReadsAlike(next, src, done.taken, src[done.taken..]);
    Shift(next, emit, src, src[done.taken..], done, 0, [], room - |done.out|);
    assert done.out + [] == done.out;
  }

  /** A larger target changes nothing, unless it was the target that ran out; then the run goes on. */
  lemma {:induction false} MoreRoom<S(!new), T>(next: Reader<S>, emit: Scalar -> seq<T>,
                                                src: seq<S>, pos: nat, out: seq<T>, room: nat, more: nat)
    requires Proper(next) && pos <= |src| && |From(next, emit, src, pos, out, room).out| <= more
    ensures var o := From(next, emit, src, pos, out, room);
            From(next, emit, src, pos, out, more) ==
            if o.result == TargetExhausted then From(next, emit, src, o.taken, o.out, more) else o
    decreases |src| - pos
  {
    match next(src, pos)
    case End =>
    case Stop(_) =>
    case Char(c, w) =>
      if |out + emit(c)| <= room {
        MoreRoom(next, emit, src, pos + w, out + emit(c), room, more);
      }
  }

  /** Resuming into a fresh target after an exhausted one is the same as having had a larger target. */
  lemma ResumeTarget<S(!new), T>(next: Reader<S>, emit: Scalar -> seq<T>, src: seq<S>, room: nat, more: nat)
    requires Proper(next) && Local(next)
    requires Convert(next, emit, src, room).result == TargetExhausted
    ensures var o := Convert(next, emit, src, room);
            Convert(next, emit, src, |o.out| + more) == Then(o, Convert(next, emit, src[o.taken..], more))
  {
    var o := Convert(next, emit, src, room);
    MoreRoom(next, emit, src, 0, [], room, |o.out| + more);
    Rejoin(next, emit, src, o, |o.out| + more);
  }

  lemma {:induction false} MoreSource<S(!new), T>(next: Reader<S>, emit: Scalar -> seq<T>,
                                                  a: seq<S>, b: seq<S>, pos: nat, out: seq<T>, room: nat)
    requires Proper(next) && Stable(next) && pos <= |a|
    ensures var o := From(next, emit, a, pos, out, room);
            From(next, emit, a + b, pos, out, room) ==
            if o.result in {ConversionOk, SourceExhausted} then From(next, emit, a + b, o.taken, o.out, room) else o
    decreases |a| - pos
  {
    var head := next(a, pos);
    assert head.Char? || head == Stop(SourceIllegal) ==> next(a + b, pos) == head;
    if head.Char? && |out + emit(head.c)| <= room {
      MoreSource(next, emit, a, b, pos + head.width, out + emit(head.c), room);
    }
  }

  /** Feeding the source in two pieces, the unread end of the first before the second, changes nothing. */
  lemma ResumeSource<S(!new), T>(next: Reader<S>, emit: Scalar -> seq<T>, a: seq<S>, b: seq<S>, room: nat)
    requires Proper(next) && Local(next) && Stable(next)
    ensures var o := Convert(next, emit, a, room);
            Convert(next, emit, a + b, room) ==
            if o.result in {ConversionOk, SourceExhausted}
            then Then(o, Convert(next, emit, a[o.taken..] + b, room - |o.out|))
            else o
  {
    var o := Convert(next, emit, a, room);
    MoreSource(next, emit, a, b, 0, [], room);
    Rejoin(next, emit, a + b, o, room);
    assert (a + b)[o.taken..] == a[o.taken..] + b;
  }

  /** What a run consumed converts by itself, completely. */
  lemma {:induction false} Prefix<S(!new), T>(next: Reader<S>, emit: Scalar -> seq<T>,
                                              src: seq<S>, pos: nat, out: seq<T>, room: nat)
    requires Proper(next) && SelfContained(next) && pos <= |src|
    ensures var o := From(next, emit, src, pos, out, room);
            From(next, emit, src[..o.taken], pos, out, room) == Outcome(ConversionOk, o.taken, o.out)
    decreases |src| - pos
  {
    var o := From(next, emit, src, pos, out, room);
    var head := next(src, pos);
    if head.Char? && |out + emit(head.c)| <= room {
      Prefix(next, emit, src, pos + head.width, out + emit(head.c), room);
      assert next(src[..o.taken], pos) == head;
    }
  }

  /** Converting into one target after another, going on only while the target was what ran out. */
  ghost function Runs<S(!new), T>(next: Reader<S>, emit: Scalar -> seq<T>,
                                  src: seq<S>, rooms: seq<nat>): (o: Outcome<T>)
    requires Proper(next) && rooms != []
    ensures o.taken <= |src|
    decreases |rooms|
  {
    var o := Convert(next, emit, src, rooms[0]);
    if o.result != TargetExhausted || |rooms| == 1 then o
    else Then(o, Runs(next, emit, src[o.taken..], rooms[1..]))
  }

  /** Any split of the target gives what one large target would have given. */
  lemma {:induction false} RunsAreOneShot<S(!new), T>(next: Reader<S>, emit: Scalar -> seq<T>,
                                                      src: seq<S>, rooms: seq<nat>, large: nat)
    requires Proper(next) && Local(next) && rooms != []
    requires Runs(next, emit, src, rooms).result != TargetExhausted
    requires |Runs(next, emit, src, rooms).out| <= large
    ensures Convert(next, emit, src, large) == Runs(next, emit, src, rooms)
    decreases |rooms|
  {
    var o := Convert(next, emit, src, rooms[0]);
    if o.result == TargetExhausted {
      RunsAreOneShot(next, emit, src[o.taken..], rooms[1..], large - |o.out|);
      ResumeTarget(next, emit, src, rooms[0], large - |o.out|);
    } else {
      MoreRoom(next, emit, src, 0, [], rooms[0], large);
    }
  }

  /** Targets that each hold one character make progress: more of them than source units suffice. */
  lemma {:induction false} RunsFinish<S(!new), T>(next: Reader<S>, emit: Scalar -> seq<T>,
                                                  src: seq<S>, rooms: seq<nat>, widest: nat)
    requires Proper(next)
    requires forall c :: |emit(c)| <= widest
    requires forall i :: 0 <= i < |rooms| ==> rooms[i] >= widest
    requires |rooms| > |src|
    ensures Runs(next, emit, src, rooms).result != TargetExhausted
    decreases |rooms|
  {
    var o := Convert(next, emit, src, rooms[0]);
    if o.result == TargetExhausted {
      assert [] + emit(next(src, 0).c) == emit(next(src, 0).c);
      assert o.taken > 0;
      RunsFinish(next, emit, src[o.taken..], rooms[1..], widest);
    }
  }

  /** `next` reads back every image written by `image`, whatever stands around it. */
  ghost predicate Inverts<S(!new)>(next: Reader<S>, image: Scalar -> seq<S>) {
    forall a, c, b {:trigger next(a + image(c) + b, |a|)} :: next(a + image(c) + b, |a|) == Char(c, |image(c)|)
  }

  /** A source made of images is converted, one character at a time, as far as the target allows. */
  lemma {:induction false} ConvertText<S(!new), T>(next: Reader<S>, image: Scalar -> seq<S>,
                                                   emit: Scalar -> seq<T>, cs: seq<Scalar>, i: nat, room: nat)
    returns (k: nat)
    requires Proper(next) && Inverts(next, image)
    requires i <= |cs| && |Text(emit, cs[..i])| <= room
    ensures i <= k <= |cs|
    ensures |Text(image, cs[..i])| <= |Text(image, cs)|
    ensures From(next, emit, Text(image, cs), |Text(image, cs[..i])|, Text(emit, cs[..i]), room)
         == Outcome(if k == |cs| then ConversionOk else TargetExhausted,
                    |Text(image, cs[..k])|, Text(emit, cs[..k]))
    ensures k < |cs| ==> |Text(emit, cs[..k + 1])| > room
    decreases |cs| - i
  {
    TextSplit(image, cs, i);
    k := i;
    if i == |cs| {
      assert cs[..i] == cs;
    } else {
      TextStep(image, cs, i);
      TextStep(emit, cs, i);
      assert Text(image, cs) == Text(image, cs[..i]) + image(cs[i]) + Text(image, cs[i + 1..]);
      if |Text(emit, cs[..i + 1])| <= room {
        k := ConvertText(next, image, emit, cs, i + 1, room);
      }
    }
  }

  /** One character after another can be read from `pos` to the end. */
  ghost predicate Readable<S(!new)>(next: Reader<S>, src: seq<S>, pos: nat)
    requires Proper(next) && pos <= |src|
    decreases |src| - pos
  {
    pos == |src| || (next(src, pos).Char? && Readable(next, src, pos + next(src, pos).width))
  }

  ghost function Characters<S(!new)>(next: Reader<S>, src: seq<S>, pos: nat): seq<Scalar>
    requires Proper(next) && pos <= |src| && Readable(next, src, pos)
    decreases |src| - pos
  {
    if pos == |src| then [] else [next(src, pos).c] + Characters(next, src, pos + next(src, pos).width)
  }

  /** A run with room enough ends well exactly on a readable source, and writes its characters. */
  lemma {:induction false} ReadThrough<S(!new), T>(next: Reader<S>, emit: Scalar -> seq<T>, src: seq<S>,
                                                   pos: nat, a: seq<Scalar>, room: nat)
    requires Proper(next) && pos <= |src|
    requires From(next, emit, src, pos, Text(emit, a), room).result != TargetExhausted
    ensures var o := From(next, emit, src, pos, Text(emit, a), room);
            && (o.result == ConversionOk <==> Readable(next, src, pos))
            && (Readable(next, src, pos) ==> o.out == Text(emit, a + Characters(next, src, pos)))
    decreases |src| - pos
  {
    var head := next(src, pos);
    if head.Char? {
      var w, b := pos + head.width, a + [head.c];
      TextSnoc(emit, a, head.c);
      assert From(next, emit, src, pos, Text(emit, a), room) == From(next, emit, src, w, Text(emit, b), room);
      ReadThrough(next, emit, src, w, b, room);
      if Readable(next, src, w) {
        assert Characters(next, src, pos) == [head.c] + Characters(next, src, w);
        ConcatAssociates(a, [head.c], Characters(next, src, w));
      }
    } else if pos == |src| {
      assert a + [] == a;
    }
  }

  /** From `pos` on every character reads as the units of its own image. */
  ghost predicate Canonical<S(!new)>(next: Reader<S>, image: Scalar -> seq<S>, src: seq<S>, pos: nat)
    requires Proper(next) && pos <= |src|
    decreases |src| - pos
  {
    next(src, pos).Char? ==>
      && src[pos..pos + next(src, pos).width] == image(next(src, pos).c)
      && Canonical(next, image, src, pos + next(src, pos).width)
  }

  /** Readable units are the images of their characters exactly when each of them is. */
  lemma {:induction false} ImagesOfCharacters<S(!new)>(next: Reader<S>, image: Scalar -> seq<S>, src: seq<S>, pos: nat)
    requires Proper(next) && pos <= |src| && Readable(next, src, pos)
    requires forall i: nat {:trigger next(src, i)} :: i <= |src| && next(src, i).Char? ==> |image(next(src, i).c)| == next(src, i).width
    ensures Text(image, Characters(next, src, pos)) == src[pos..] <==> Canonical(next, image, src, pos)
    decreases |src| - pos
  {
    var head := next(src, pos);
    if pos < |src| {
      var w := pos + head.width;
      ImagesOfCharacters(next, image, src, w);
      var rest := Text(image, Characters(next, src, w));
      assert Characters(next, src, pos)[1..] == Characters(next, src, w);
      assert src[pos..] == src[pos..w] + src[w..];
      SplitEqual(image(head.c), rest, src[pos..w], src[w..]);
    }
  }

  lemma SplitEqual<T>(a: seq<T>, b: seq<T>, x: seq<T>, y: seq<T>)
    requires |a| == |x|
    ensures a + b == x + y <==> a == x && b == y
  {
    if a + b == x + y {
      assert a == (a + b)[..|a|] == x;
      assert b == (a + b)[|a|..] == y;
    }
  }

  /** The characters a run consumed: what it wrote is their image. */
  lemma {:induction false} Consumed<S(!new), T>(next: Reader<S>, emit: Scalar -> seq<T>, src: seq<S>,
                                                pos: nat, a: seq<Scalar>, room: nat) returns (cs: seq<Scalar>)
    requires Proper(next) && pos <= |src|
    ensures From(next, emit, src, pos, Text(emit, a), room).out == Text(emit, cs)
    decreases |src| - pos
  {
    cs := a;
    var head := next(src, pos);
    if head.Char? {
      TextSnoc(emit, a, head.c);
      if |Text(emit, a + [head.c])| <= room {
        cs := Consumed(next, emit, src, pos + head.width, a + [head.c], room);
      }
    }
  }
}
