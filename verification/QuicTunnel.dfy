/** The HTTP/3 CONNECT tunnel: bytes fed by events wait in a stream reader, and
    a counter limits how many may wait.

    A receive that finds nothing sleeps in the reader.  Feeding bytes or the end
    wakes it; from then on an exception set on the reader no longer reaches it,
    since the reader looks at the exception only when a read begins.  One task
    receives at a time. */
module QuicTunnel {
  import opened Bytes

  const CAP: nat := 131072

  /** The receive under way: asleep in the reader, woken but not yet resumed,
      or woken by an exception. */
  datatype Reading = Idle | Asleep(max: nat) | Woken(max: nat) | Doomed

  datatype State = State(queue: Bytes, buffered: int, failed: bool, eof: bool, reading: Reading)

  /** What a step gives to the receiving task, if anything. */
  datatype Outcome = Nothing | Got(data: Bytes) | EndOfStream | Raised

  /** Call and Resume are the two halves of a receive, before and after it sleeps. */
  datatype Step = Feed(data: Bytes) | FeedEof | Fail | Call(max: nat) | Resume | Cancel

  const START := State([], 0, false, false, Idle)

  function Wake(reading: Reading): Reading {
    if reading.Asleep? then Woken(reading.max) else reading
  }

  function Doom(reading: Reading): Reading {
    if reading.Asleep? then Doomed else reading
  }

  function Front(queue: Bytes, max: nat): Outcome {
    if queue == [] || max == 0 then EndOfStream
    else Got(queue[..if |queue| <= max then |queue| else max])
  }

  function Answer(s: State, step: Step): Outcome {
    match step
    case Call(max) =>
      if !s.reading.Idle? then Nothing
      else if s.failed then Raised
      else if max > 0 && s.queue == [] && !s.eof then Nothing
      else Front(s.queue, max)
    case Resume =>
      (match s.reading
       case Woken(max) => Front(s.queue, max)
       case Doomed => Raised
       case _ => Nothing)
    case _ => Nothing
  }

  function Delivered(s: State, outcome: Outcome): State
    requires outcome.Got? ==> |outcome.data| <= |s.queue|
  {
    match outcome
    case Got(data) => s.(queue := s.queue[|data|..], buffered := s.buffered - |data|)
    case _ => s
  }

  function Next(s: State, step: Step): State {
    match step
    case Feed(data) =>
      var s' := s.(buffered := s.buffered + |data|);
      if s'.buffered > CAP then s'.(failed := true, reading := Doom(s.reading))
      // The reader refuses data behind its end.
      else if s.eof || data == [] then s'
      else s'.(queue := s.queue + data, reading := Wake(s.reading))
    case FeedEof => s.(eof := true, reading := Wake(s.reading))
    case Fail => s.(failed := true, reading := Doom(s.reading))
    case Call(max) =>
      if !s.reading.Idle? then s
      else if Answer(s, step).Nothing? then s.(reading := Asleep(max))
      else Delivered(s, Answer(s, step))
    case Resume =>
      if s.reading.Woken? || s.reading.Doomed? then Delivered(s, Answer(s, step)).(reading := Idle) else s
    case Cancel => s.(reading := Idle)
  }

  function Run(steps: seq<Step>): State {
    if steps == [] then START else Next(Run(steps[..|steps| - 1]), steps[|steps| - 1])
  }

  function Output(s: State, step: Step): Bytes {
    if Answer(s, step).Got? then Answer(s, step).data else []
  }

  /** The bytes of a step that count as fed, and the number of those behind the end. */
  function Input(s: State, step: Step): Bytes {
    if step.Feed? && !s.eof then step.data else []
  }

  function Behind(s: State, step: Step): nat {
    if step.Feed? && s.eof then |step.data| else 0
  }

  /** Everything fed in a run before the end of the stream. */
  function Fed(steps: seq<Step>): Bytes {
    if steps == [] then []
    else Fed(steps[..|steps| - 1]) + Input(Run(steps[..|steps| - 1]), steps[|steps| - 1])
  }

  /** How many bytes were fed behind the end, against the rules of the protocol. */
  function Late(steps: seq<Step>): nat {
    if steps == [] then 0
    else Late(steps[..|steps| - 1]) + Behind(Run(steps[..|steps| - 1]), steps[|steps| - 1])
  }

  /** Everything a run's reads returned. */
  function Returned(steps: seq<Step>): Bytes {
    if steps == [] then []
    else Returned(steps[..|steps| - 1]) + Output(Run(steps[..|steps| - 1]), steps[|steps| - 1])
  }

  // ---- Conservation ------------------------------------------------------------------

  /** A woken read has something to find, and asks for something. */
  predicate Sound(s: State) {
    && (s.reading.Asleep? || s.reading.Woken? ==> s.reading.max > 0)
    && (s.reading.Woken? ==> s.queue != [] || s.eof)
    && (s.reading.Asleep? ==> !s.failed && s.queue == [] && !s.eof)
  }

  predicate Balanced(s: State, fed: Bytes, returned: Bytes, late: nat) {
    returned + s.queue == fed && s.buffered == |s.queue| + late <= CAP
  }

  /** As long as a read can still deliver, what it can deliver comes next. */
  predicate InOrder(s: State, fed: Bytes, returned: Bytes) {
    && returned <= fed
    && (!s.failed || s.reading.Woken? ==> returned + s.queue <= fed)
    && (s.failed && s.reading.Woken? ==> returned + s.queue == fed || s.buffered > CAP)
  }

  lemma StepIsSound(s: State, step: Step)
    requires Sound(s)
    ensures Sound(Next(s, step))
  {
  }

  lemma StepBalances(s: State, step: Step, fed: Bytes, returned: Bytes, late: nat)
    requires !s.failed && Balanced(s, fed, returned, late)
    ensures var s', fed', returned', late' :=
              Next(s, step), fed + Input(s, step), returned + Output(s, step), late + Behind(s, step);
            if s'.failed then step.Fail? || |fed'| - |returned'| + late' > CAP
            else Balanced(s', fed', returned', late')
  {
    if step.Feed? {
      assert returned + (s.queue + step.data) == (returned + s.queue) + step.data;
      assert returned + [] == returned && fed + [] == fed;
    } else if Answer(s, step).Got? {
      TakenInOrder(s.queue, Answer(s, step).data, returned);
    } else {
      assert fed + [] == fed && returned + [] == returned;
    }
  }

  predicate HasFailure(steps: seq<Step>) {
    exists i :: 0 <= i < |steps| && steps[i].Fail?
  }

  predicate PassesCap(steps: seq<Step>) {
    |Fed(steps)| - |Returned(steps)| + Late(steps) > 131072
  }

  predicate PassedCap(steps: seq<Step>) {
    exists i :: 0 < i <= |steps| && PassesCap(steps[..i])
  }

  /** Main result.  In every run, as long as the reader has not failed: what
      was returned and what waits are together exactly what was fed, in order,
      and the counter is the number of bytes fed less those returned, within the
      cap.  The reader fails only when told to or when that number would exceed
      the cap. */
  lemma {:induction false} FedIsReturnedOrWaiting(steps: seq<Step>)
    ensures var s := Run(steps);
            if s.failed then HasFailure(steps) || PassedCap(steps)
            else
              Returned(steps) + s.queue == Fed(steps)
              && s.buffered == |s.queue| + Late(steps) == |Fed(steps)| - |Returned(steps)| + Late(steps) <= 131072
  {
    hide Next, Input, Output, Behind, PassesCap;
    if steps != [] {
      var front, last := steps[..|steps| - 1], steps[|steps| - 1];
      FedIsReturnedOrWaiting(front);
      if Run(front).failed {
        FailedStays(Run(front), last);
        FailureIsExplained(front, steps);
      } else {
        StepBalances(Run(front), last, Fed(front), Returned(front), Late(front));
        assert steps[..|steps|] == steps;
        if Run(steps).failed && !last.Fail? {
          CapPassed(steps);
        }
      }
    }
  }

  lemma CapPassed(steps: seq<Step>)
    requires steps != [] && |Fed(steps)| - |Returned(steps)| + Late(steps) > CAP
    ensures PassedCap(steps)
  {
    assert steps[..|steps|] == steps;
    assert PassesCap(steps[..|steps|]);
  }

  lemma FailedStays(s: State, step: Step)
    requires s.failed
    ensures Next(s, step).failed
  {
  }

  lemma FailureIsExplained(front: seq<Step>, steps: seq<Step>)
    requires |front| <= |steps| && steps[..|front|] == front
    requires HasFailure(front) || PassedCap(front)
    ensures HasFailure(steps) || PassedCap(steps)
  {
    hide PassesCap;
    if HasFailure(front) {
      var i :| 0 <= i < |front| && front[i].Fail?;
      assert steps[i] == front[i];
    } else {
      var i :| 0 < i <= |front| && PassesCap(front[..i]);
      assert steps[..i] == front[..i];
    }
  }

  lemma {:induction false} RunIsSound(steps: seq<Step>)
    ensures Sound(Run(steps))
  {
    hide Next, Sound;
    if steps == [] {
      assert Sound(START) by { StartIsSound(); }
    } else {
      RunIsSound(steps[..|steps| - 1]);
      StepIsSound(Run(steps[..|steps| - 1]), steps[|steps| - 1]);
    }
  }

  lemma StartIsSound()
    ensures Sound(START)
  {
  }

  // ---- Failures ----------------------------------------------------------------------

  /** A read was woken by data and has not yet resumed. */
  predicate Owed(s: State) {
    s.reading.Woken? && s.queue != []
  }

  /** What a step of a failed tunnel can do. */
  lemma FailedStep(s: State, step: Step)
    requires s.failed && Sound(s)
    ensures var s' := Next(s, step);
            && s'.failed
            && (Answer(s, step).Got? <==> step == Resume && Owed(s))
            && (s'.reading.Woken? ==> s.reading.Woken? && step != Resume && step != Cancel)
            && (s.queue == [] && s.eof ==> s'.queue == [] && s'.eof)
  {
  }

  predicate LeavesReader(steps: seq<Step>) {
    forall i :: 0 <= i < |steps| ==> steps[i] != Resume && steps[i] != Cancel
  }

  /** After a failure a read is owed data only if it was owed some at the time. */
  lemma {:induction false} StillOwed(before: seq<Step>, after: seq<Step>)
    requires Run(before).failed
    ensures Run(before + after).failed
    ensures Run(before + after).reading.Woken? ==> Run(before).reading.Woken? && LeavesReader(after)
    ensures Owed(Run(before + after)) ==> Owed(Run(before))
    ensures Run(before).queue == [] && Run(before).eof ==> Run(before + after).queue == [] && Run(before + after).eof
    decreases |after|
  {
    hide Run, Returned, Next, Answer, Sound;
    if after == [] {
      assert before + after == before;
    } else {
      var front, last := after[..|after| - 1], after[|after| - 1];
      StillOwed(before, front);
      RunNext(before, front, last);
      RunIsSound(before + front);
      RunIsSound(before);
      FailedStep(Run(before + front), last);
      assert after == front + [last];
      WokenFinds(Run(before));
    }
  }

  lemma WokenFinds(s: State)
    requires Sound(s)
    ensures s.reading.Woken? && !Owed(s) ==> s.queue == [] && s.eof
  {
  }

  lemma RunNext(before: seq<Step>, front: seq<Step>, last: Step)
    ensures before + (front + [last]) == before + front + [last]
    ensures Run(before + front + [last]) == Next(Run(before + front), last)
    ensures Returned(before + front + [last]) == Returned(before + front) + Output(Run(before + front), last)
  {
    assert (before + front + [last])[..|before + front|] == before + front;
  }

  /** Main result.  After a failure only the one read that was woken by data
      before it, and has not resumed since, still delivers. */
  lemma {:induction false} OnlyTheWokenReadDelivers(before: seq<Step>, after: seq<Step>, step: Step)
    requires Run(before).failed
    ensures Answer(Run(before + after), step).Got? <==>
              step == Resume && Owed(Run(before)) && LeavesReader(after)
  {
    hide Run, Next, Answer;
    StillOwed(before, after);
    RunIsSound(before + after);
    FailedStep(Run(before + after), step);
    if Owed(Run(before)) && LeavesReader(after) {
      StaysOwed(before, after);
    }
  }

  lemma {:induction false} StaysOwed(before: seq<Step>, after: seq<Step>)
    requires Run(before).failed && Owed(Run(before)) && LeavesReader(after)
    ensures Owed(Run(before + after))
    decreases |after|
  {
    hide Run, Next, Answer;
    if after == [] {
      assert before + after == before;
    } else {
      var front, last := after[..|after| - 1], after[|after| - 1];
      StaysOwed(before, front);
      RunNext(before, front, last);
      assert after == front + [last];
      OwedStep(Run(before + front), last);
    }
  }

  lemma OwedStep(s: State, step: Step)
    requires Owed(s) && step != Resume && step != Cancel
    ensures Owed(Next(s, step))
  {
  }

  /** Main result.  A failed tunnel delivers nothing more, whatever happens, if
      and only if no read is owed data. */
  lemma {:induction false} NothingAfterFailure(before: seq<Step>)
    requires Run(before).failed
    ensures (forall after :: Returned(before + after) == Returned(before)) <==> !Owed(Run(before))
  {
    hide Run, Returned, Next, Answer;
    if Owed(Run(before)) {
      OnlyTheWokenReadDelivers(before, [], Resume);
      RunNext(before, [], Resume);
      assert before + [] == before;
      OwedIsSome(Run(before));
      assert Returned(before + [Resume]) != Returned(before);
    } else {
      forall after
        ensures Returned(before + after) == Returned(before)
      {
        NothingReturned(before, after);
      }
    }
  }

  lemma OwedIsSome(s: State)
    requires Answer(s, Resume).Got?
    ensures Output(s, Resume) != []
  {
  }

  lemma {:induction false} NothingReturned(before: seq<Step>, after: seq<Step>)
    requires Run(before).failed && !Owed(Run(before))
    ensures Returned(before + after) == Returned(before)
    decreases |after|
  {
    hide Run, Returned, Next, Answer;
    if after == [] {
      assert before + after == before;
    } else {
      var front, last := after[..|after| - 1], after[|after| - 1];
      NothingReturned(before, front);
      OnlyTheWokenReadDelivers(before, front, last);
      RunNext(before, front, last);
      assert after == front + [last];
      assert Returned(before + front) + [] == Returned(before + front);
    }
  }

  /** A sleeping receive, data, and then a failure in the same turn of the loop. */
  lemma WokenReadOutrunsFailure()
    ensures var steps := [Call(10), Feed([7]), Fail];
            Run(steps).failed && Returned(steps) == [] && Returned(steps + [Resume]) == [7]
  {
    hide Run, Returned, Next, Output;
    NothingRun();
    RunNext([], [], Call(10));
    RunNext([], [Call(10)], Feed([7]));
    RunNext([], [Call(10), Feed([7])], Fail);
    RunNext([], [Call(10), Feed([7]), Fail], Resume);
    assert [] + [] + [Call(10)] == [] + [Call(10)] == [Call(10)];
    assert [] + [Call(10)] + [Feed([7])] == [] + [Call(10), Feed([7])] == [Call(10), Feed([7])];
    assert [] + [Call(10), Feed([7])] + [Fail] == [] + [Call(10), Feed([7]), Fail] == [Call(10), Feed([7]), Fail];
    FailedWoken();
  }

  lemma NothingRun()
    ensures Run([] + []) == START && Returned([] + []) == []
  {
  }

  lemma FailedWoken()
    ensures var asleep := Next(START, Call(10));
            var woken := Next(asleep, Feed([7]));
            var failed := Next(woken, Fail);
            && Output(START, Call(10)) == Output(asleep, Feed([7])) == Output(woken, Fail) == []
            && failed.failed && Output(failed, Resume) == [7]
  {
    assert Next(START, Call(10)) == State([], 0, false, false, Asleep(10));
    assert Next(State([], 0, false, false, Asleep(10)), Feed([7])) == State([7], 1, false, false, Woken(10));
  }

  // ---- Order -------------------------------------------------------------------------

  lemma StepInOrder(s: State, step: Step, fed: Bytes, returned: Bytes)
    requires Sound(s) && InOrder(s, fed, returned)
    requires !s.failed ==> returned + s.queue == fed
    ensures InOrder(Next(s, step), fed + Input(s, step), returned + Output(s, step))
  {
    if step.Feed? {
      FedInOrder(s, step.data, fed, returned);
    } else if Answer(s, step).Got? {
      TakenInOrder(s.queue, Answer(s, step).data, returned);
    } else {
      assert fed + [] == fed && returned + [] == returned;
    }
  }

  lemma FedInOrder(s: State, data: Bytes, fed: Bytes, returned: Bytes)
    requires Sound(s) && InOrder(s, fed, returned)
    requires !s.failed ==> returned + s.queue == fed
    ensures InOrder(Next(s, Feed(data)), fed + Input(s, Feed(data)), returned + Output(s, Feed(data)))
  {
    assert returned + (s.queue + data) == (returned + s.queue) + data;
    assert returned + [] == returned && fed + [] == fed;
    assert fed <= fed + data;
  }

  lemma TakenInOrder(queue: Bytes, data: Bytes, returned: Bytes)
    requires |data| <= |queue| && data == queue[..|data|]
    ensures (returned + data) + queue[|data|..] == returned + queue
  {
    assert queue == data + queue[|data|..];
  }

  lemma {:induction false} RunInOrder(steps: seq<Step>)
    ensures InOrder(Run(steps), Fed(steps), Returned(steps))
  {
    hide Next, Input, Output, InOrder;
    if steps == [] {
      assert InOrder(START, [], []) by { StartInOrder(); }
    } else {
      var front, last := steps[..|steps| - 1], steps[|steps| - 1];
      RunInOrder(front);
      RunIsSound(front);
      FedIsReturnedOrWaiting(front);
      StepInOrder(Run(front), last, Fed(front), Returned(front));
    }
  }

  lemma StartInOrder()
    ensures InOrder(START, [], [])
  {
  }

  /** Main result.  In every run, failed or not, what was returned is a prefix
      of what was fed: a read that outruns a failure returns no bytes out of
      order, and none behind those the failure dropped. */
  lemma ReturnedIsPrefixOfFed(steps: seq<Step>)
    ensures Returned(steps) <= Fed(steps)
  {
    hide Run, Returned, Fed;
    RunInOrder(steps);
  }

  // ---- Answers -----------------------------------------------------------------------

  lemma {:induction false} EndedWhenToldSo(steps: seq<Step>)
    ensures Run(steps).eof <==> FeedEof in steps
  {
    if steps != [] {
      hide Run, Next;
      var front, last := steps[..|steps| - 1], steps[|steps| - 1];
      EndedWhenToldSo(front);
      assert FeedEof in steps <==> FeedEof in front || last == FeedEof by { InFront(steps); }
      RunLast(steps);
      EofNext(Run(front), last);
    }
  }

  lemma InFront(steps: seq<Step>)
    requires steps != []
    ensures FeedEof in steps <==> FeedEof in steps[..|steps| - 1] || steps[|steps| - 1] == FeedEof
  {
    assert steps == steps[..|steps| - 1] + [steps[|steps| - 1]];
  }

  lemma RunLast(steps: seq<Step>)
    requires steps != []
    ensures Run(steps) == Next(Run(steps[..|steps| - 1]), steps[|steps| - 1])
  {
    hide Next;
  }

  lemma EofNext(s: State, step: Step)
    ensures Next(s, step).eof <==> s.eof || step == FeedEof
  {
  }

  /** Main result.  In every run the tunnel has failed if and only if it was
      told to, or at some moment more than the cap had been fed and not returned. */
  lemma {:induction false} FailsExactly(steps: seq<Step>)
    ensures Run(steps).failed <==> HasFailure(steps) || PassedCap(steps)
  {
    hide Run, PassesCap, Fed, Returned, Late;
    FedIsReturnedOrWaiting(steps);
    if i :| 0 <= i < |steps| && steps[i].Fail? {
      TakeOne(steps, i);
      FailNext(Run(steps[..i]));
      assert Run(steps[..i + 1]).failed;
      FailureLasts(steps[..i + 1], steps[i + 1..]);
      assert steps[..i + 1] + steps[i + 1..] == steps;
    }
    if i :| 0 < i <= |steps| && PassesCap(steps[..i]) {
      OverCapFails(steps[..i]);
      FailureLasts(steps[..i], steps[i..]);
      assert steps[..i] + steps[i..] == steps;
    }
  }

  lemma TakeOne(steps: seq<Step>, i: nat)
    requires i < |steps|
    ensures Run(steps[..i + 1]) == Next(Run(steps[..i]), steps[i])
  {
    hide Next;
    assert steps[..i + 1][..i] == steps[..i];
  }

  lemma FailNext(s: State)
    ensures Next(s, Fail).failed
  {
  }

  lemma OverCapFails(steps: seq<Step>)
    requires PassesCap(steps)
    ensures Run(steps).failed
  {
    hide Run, Fed, Returned, Late;
    FedIsReturnedOrWaiting(steps);
  }

  lemma FailureLasts(before: seq<Step>, after: seq<Step>)
    requires Run(before).failed
    ensures Run(before + after).failed
  {
    hide Run;
    StillOwed(before, after);
  }

  /** The next bytes for a read: what was fed behind what was returned, up to
      as many as it asks for. */
  function Due(steps: seq<Step>, max: nat): Bytes {
    var behind := if |Returned(steps)| <= |Fed(steps)| then Fed(steps)[|Returned(steps)|..] else [];
    if |behind| <= max then behind else behind[..max]
  }

  lemma DueIsFront(steps: seq<Step>, max: nat)
    requires !Run(steps).failed
    ensures var queue := Run(steps).queue;
            Due(steps, max) == queue[..if |queue| <= max then |queue| else max]
    ensures Returned(steps) == Fed(steps) <==> Run(steps).queue == []
  {
    hide Run, Fed, Returned, Late;
    FedIsReturnedOrWaiting(steps);
    var queue := Run(steps).queue;
    assert Fed(steps)[|Returned(steps)|..] == queue;
    assert queue[..|queue|] == queue;
    if queue == [] {
      assert Returned(steps) + [] == Returned(steps);
    }
  }

  /** Main result.  What a receive gives at once, in every run: nothing but an
      exception after a failure, else the next bytes if any wait, else the end
      if the stream was ended; without all of these it sleeps for as many bytes
      as it was asked for. */
  lemma {:induction false} CallAnswers(steps: seq<Step>, max: nat)
    requires Run(steps).reading.Idle? && max > 0
    ensures var answer, s' := Answer(Run(steps), Call(max)), Next(Run(steps), Call(max));
            if Run(steps).failed then answer == Raised && s' == Run(steps)
            else if Returned(steps) != Fed(steps) then answer == Got(Due(steps, max)) && Due(steps, max) != []
            else if FeedEof in steps then answer == EndOfStream
            else answer == Nothing && s'.reading == Asleep(max)
  {
    hide Run, Fed, Returned, Due;
    EndedWhenToldSo(steps);
    if !Run(steps).failed {
      DueIsFront(steps, max);
    }
  }

  /** Main result.  What a woken receive gives when it resumes, unless the tunnel
      has failed in between: the next bytes if any wait, else the end, and that
      only if the stream was ended. */
  lemma {:induction false} ResumeAnswers(steps: seq<Step>)
    requires Run(steps).reading.Woken? && !Run(steps).failed
    ensures var answer, max := Answer(Run(steps), Resume), Run(steps).reading.max;
            && max > 0 && Next(Run(steps), Resume).reading == Idle
            && if Returned(steps) != Fed(steps) then answer == Got(Due(steps, max)) && Due(steps, max) != []
               else answer == EndOfStream && FeedEof in steps
  {
    hide Run, Fed, Returned, Due;
    EndedWhenToldSo(steps);
    RunIsSound(steps);
    DueIsFront(steps, Run(steps).reading.max);
  }

  /** Main result.  In every run the end is reported only when the stream was
      ended and everything fed was returned, unless the tunnel has failed. */
  lemma {:induction false} EndComesLast(steps: seq<Step>, step: Step)
    requires !Run(steps).failed && Answer(Run(steps), step) == EndOfStream && step != Call(0)
    ensures FeedEof in steps && Returned(steps) == Fed(steps)
  {
    hide Run, Fed, Returned, Due, Next;
    if step.Call? {
      assert Run(steps).reading.Idle?;
      CallAnswers(steps, step.max);
    } else {
      assert Run(steps).reading.Woken?;
      ResumeAnswers(steps);
    }
  }

  /** A sleeping receive keeps asking for what it was called with. */
  lemma {:induction false} SleepsForAsMuch(before: seq<Step>, max: nat, after: seq<Step>)
    requires Run(before).reading == Asleep(max) && LeavesReader(after)
    ensures Run(before + after).reading in {Asleep(max), Woken(max), Doomed}
    decreases |after|
  {
    hide Run, Next, LeavesReader;
    if after == [] {
      assert before + after == before;
    } else {
      var front, last := after[..|after| - 1], after[|after| - 1];
      LeavesInFront(after);
      SleepsForAsMuch(before, max, front);
      RunNext(before, front, last);
      assert after == front + [last];
      ReadingNext(Run(before + front), last);
    }
  }

  /** Main result.  A receive that is asleep when the tunnel fails raises when
      it resumes, whatever comes in between. */
  lemma {:induction false} SleeperRaises(before: seq<Step>, step: Step, after: seq<Step>)
    requires Run(before).reading.Asleep? && step != Resume && step != Cancel && LeavesReader(after)
    requires Run(before + [step]).failed
    ensures Answer(Run(before + [step] + after), Resume) == Raised
    decreases |after|
  {
    hide Run;
    RunIsSound(before);
    RunNext(before, [], step);
    assert before + [] == before;
    assert Run(before + [step]).reading.Doomed?;
    StaysDoomed(before + [step], after);
  }

  lemma {:induction false} StaysDoomed(before: seq<Step>, after: seq<Step>)
    requires Run(before).reading.Doomed? && LeavesReader(after)
    ensures Run(before + after).reading.Doomed?
    decreases |after|
  {
    hide Run, Next, LeavesReader;
    if after == [] {
      assert before + after == before;
    } else {
      var front, last := after[..|after| - 1], after[|after| - 1];
      LeavesInFront(after);
      StaysDoomed(before, front);
      RunNext(before, front, last);
      assert after == front + [last];
      ReadingNext(Run(before + front), last);
    }
  }

  lemma LeavesInFront(steps: seq<Step>)
    requires steps != [] && LeavesReader(steps)
    ensures LeavesReader(steps[..|steps| - 1])
    ensures steps[|steps| - 1] != Resume && steps[|steps| - 1] != Cancel
  {
  }

  lemma ReadingNext(s: State, step: Step)
    requires !s.reading.Idle?
    requires step != Resume && step != Cancel
    ensures s.reading.Doomed? ==> Next(s, step).reading.Doomed?
    ensures !s.reading.Doomed? ==> Next(s, step).reading in {Asleep(s.reading.max), Woken(s.reading.max), Doomed}
  {
  }

  /** The tunnel as the program has it, its methods cut where they sleep. */
  class Tunnel {
    var queue: Bytes
    var buffered: int
    var failed: bool
    var eof: bool
    var reading: Reading

    ghost function View(): State
      reads this
    {
      State(queue, buffered, failed, eof, reading)
    }

    constructor ()
      ensures View() == START
    {
      queue, buffered, failed, eof, reading := [], 0, false, false, Idle;
    }

    method Feed(data: Bytes)
      modifies this
      ensures View() == Next(old(View()), Step.Feed(data))
    {
      buffered := buffered + |data|;
      if buffered > CAP {
        SetException();
      } else if !eof && data != [] {
        queue := queue + data;
        reading := Wake(reading);
      }
    }

    method FeedEof()
      modifies this
      ensures View() == Next(old(View()), Step.FeedEof)
    {
      eof := true;
      reading := Wake(reading);
    }

    method SetException()
      modifies this
      ensures View() == Next(old(View()), Fail)
    {
      failed := true;
      reading := Doom(reading);
    }

    /** A receive up to where it returns, raises or sleeps. */
    method Receive(max: nat) returns (outcome: Outcome)
      requires reading.Idle?
      modifies this
      ensures outcome == Answer(old(View()), Call(max))
      ensures View() == Next(old(View()), Call(max))
    {
      if failed {
        return Raised;
      }
      if max > 0 && queue == [] && !eof {
        reading := Asleep(max);
        return Nothing;
      }
      outcome := Deliver(max);
    }

    /** The rest of a receive that slept and was woken. */
    method Continue() returns (outcome: Outcome)
      requires reading.Woken? || reading.Doomed?
      modifies this
      ensures outcome == Answer(old(View()), Resume)
      ensures View() == Next(old(View()), Resume)
    {
      if reading.Doomed? {
        reading := Idle;
        return Raised;
      }
      var max := reading.max;
      reading := Idle;
      outcome := Deliver(max);
    }

    method Deliver(max: nat) returns (outcome: Outcome)
      modifies this`queue, this`buffered
      ensures outcome == Front(old(queue), max)
      ensures View() == Delivered(old(View()), outcome)
    {
      var data := queue[..if |queue| <= max then |queue| else max];
      if data == [] {
        return EndOfStream;
      }
      queue := queue[|data|..];
      buffered := buffered - |data|;
      return Got(data);
    }
  }
}
