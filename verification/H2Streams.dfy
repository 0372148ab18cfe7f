/** Nothing is lost between the connection and the callers of the tunnel, in
    each operation and in every interleaving of sending and receiving. */
module H2Streams {
  import opened Bytes
  import opened H2Flow

  /** The input read between two states. */
  function Consumed(t: Tunnel, t': Tunnel): seq<Incoming>
    requires |t'.input| <= |t.input|
  {
    t.input[..|t.input| - |t'.input|]
  }

  predicate EndsIn(input: seq<Incoming>) {
    exists i :: 0 <= i < |input| && input[i].Batch? && Ended in input[i].events
  }

  /** What was read is what was taken and what is still in the buffer, in
      order; the buffer is within its cap; the stream counts as ended exactly
      when its end was read. */
  ghost predicate Conserves(t: Tunnel, t': Tunnel, taken: Bytes) {
    && |t'.input| <= |t.input| && t'.input == t.input[|t.input| - |t'.input|..]
    && taken + t'.pending == t.pending + AllData(Consumed(t, t'))
    && (t'.ended <==> t.ended || EndsIn(Consumed(t, t')))
    && |t'.pending| <= CAP
  }

  lemma AllDataFirst(input: seq<Incoming>)
    requires input != []
    ensures AllData(input) == (if input[0].Batch? then DataOf(input[0].events) else []) + AllData(input[1..])
  {
  }

  lemma {:induction false} AllDataAppend(a: seq<Incoming>, b: seq<Incoming>)
    ensures AllData(a + b) == AllData(a) + AllData(b)
    ensures EndsIn(a + b) <==> EndsIn(a) || EndsIn(b)
    decreases |a|
  {
    hide EndsIn, DataOf;
    EndsInEither(a, b);
    ShiftAppend(a, b);
    if a != [] {
      hide AllData;
      AllDataAppend(a[1..], b);
      AllDataFirst(a + b);
      AllDataFirst(a);
      Regroup(if a[0].Batch? then DataOf(a[0].events) else [], AllData(a[1..]), AllData(b));
    }
  }

  lemma EndsInEither(a: seq<Incoming>, b: seq<Incoming>)
    ensures EndsIn(a + b) <==> EndsIn(a) || EndsIn(b)
  {
    var all := a + b;
    assert forall i :: 0 <= i < |a| ==> all[i] == a[i];
    assert forall i :: 0 <= i < |b| ==> all[|a| + i] == b[i];
    if i :| 0 <= i < |all| && all[i].Batch? && Ended in all[i].events {
      assert all[i] == if i < |a| then a[i] else b[i - |a|];
    }
  }

  lemma ConservesNothing(t: Tunnel)
    requires |t.pending| <= CAP
    ensures Conserves(t, t, [])
  {
    assert Consumed(t, t) == [];
    assert [] + t.pending == t.pending == t.pending + AllData([]);
  }

  lemma ConservesThen(t: Tunnel, m: Tunnel, t': Tunnel, first: Bytes, second: Bytes)
    requires Conserves(t, m, first) && Conserves(m, t', second)
    ensures Conserves(t, t', first + second)
  {
    hide AllData, EndsIn;
    var a, b := Consumed(t, m), Consumed(m, t');
    assert Consumed(t, t') == a + b;
    AllDataAppend(a, b);
    assert first + second + t'.pending == first + (second + t'.pending);
    assert t.pending + (AllData(a) + AllData(b)) == (t.pending + AllData(a)) + AllData(b);
    assert first + (m.pending + AllData(b)) == (first + m.pending) + AllData(b);
  }

  lemma ThenConserves(t: Tunnel, m: Tunnel, t': Tunnel, taken: Bytes)
    requires Conserves(t, m, []) && Conserves(m, t', taken)
    ensures Conserves(t, t', taken)
  {
    hide Conserves;
    ConservesThen(t, m, t', [], taken);
    assert [] + taken == taken;
  }

  /** One read that does not overfill the buffer. */
  lemma PumpConserves(t: Tunnel)
    requires |t.pending| <= CAP && Pumped(t).outcome != TooLarge
    ensures Conserves(t, Pumped(t).tunnel, [])
  {
    hide Absorb, DataOf;
    var t' := Pumped(t).tunnel;
    if t.input == [] {
      ConservesNothing(t);
    } else {
      var consumed := Consumed(t, t');
      assert consumed == [t.input[0]] && consumed[1..] == [];
      assert AllData(consumed) == (if t.input[0].Batch? then DataOf(t.input[0].events) else []);
      if t.input[0].Batch? {
        AbsorbFacts(t.pending, t.ended, t.input[0].events);
        if Ended in t.input[0].events {
          assert consumed[0].Batch? && Ended in consumed[0].events;
        }
      }
      assert [] + t'.pending == t'.pending;
      assert t.pending + [] == t.pending;
    }
  }

  lemma TakeConserves(t: Tunnel, max: nat)
    requires |t.pending| <= CAP
    ensures Conserves(t, Taken(t, max).tunnel, Taken(t, max).data)
  {
    assert Consumed(t, Taken(t, max).tunnel) == [];
    assert t.pending + AllData([]) == t.pending;
  }

  /** Main result.  Receiving loses nothing; it returns some data, at most what
      was asked for, or reports the end, which it does only when the buffer is
      empty and the stream or the connection has ended. */
  lemma {:induction false} ReceiveConserves(t: Tunnel, max: nat)
    requires |t.pending| <= CAP
    ensures var receipt := Received(t, max);
            && (receipt.outcome != TooLarge ==> Conserves(t, receipt.tunnel, receipt.data))
            && (receipt.outcome == Done ==> |receipt.data| <= max && (max > 0 ==> |receipt.data| > 0))
            && (receipt.outcome != Done ==> receipt.data == [])
            && (receipt.outcome == EndOfStream ==>
                  receipt.tunnel.pending == [] && (receipt.tunnel.ended || receipt.tunnel.input == []))
    decreases |t.input|
  {
    hide Conserves, Pumped;
    PumpOutcome(t);
    if t.pending != [] {
      TakeConserves(t, max);
    } else if t.ended {
      ConservesNothing(t);
    } else if Pumped(t).outcome != TooLarge {
      PumpConserves(t);
      if Pumped(t).outcome == Done {
        PumpedWithinCap(t);
        ReceiveConserves(Pumped(t).tunnel, max);
        var receipt := Received(Pumped(t).tunnel, max);
        if receipt.outcome != TooLarge {
          ThenConserves(t, Pumped(t).tunnel, receipt.tunnel, receipt.data);
        }
      }
    }
  }

  lemma PumpedWithinCap(t: Tunnel)
    requires |t.pending| <= CAP && Pumped(t).outcome != TooLarge
    ensures |Pumped(t).tunnel.pending| <= CAP
  {
    hide Pumped;
    PumpConserves(t);
  }

  lemma PumpOutcome(t: Tunnel)
    ensures Pumped(t).outcome == Done ==> |Pumped(t).tunnel.input| < |t.input|
    ensures Pumped(t).outcome == EndOfStream ==> t.input == [] && Pumped(t).tunnel == t
    ensures Pumped(t).outcome != Refused
  {
    hide Absorb;
  }

  /** Main result.  Waiting for credit while sending loses no received data. */
  lemma {:induction false} SendConserves(t: Tunnel, item: Bytes, offset: nat)
    requires Usable(t) && |t.pending| <= CAP
    ensures SentFrom(t, item, offset).outcome != TooLarge ==> Conserves(t, SentFrom(t, item, offset).tunnel, [])
    decreases |t.input|, |item| - offset
  {
    hide Slice, Conserves, Pumped, Usable, SentFrom;
    if offset >= |item| {
      SentDone(t, item, offset);
      ConservesNothing(t);
    } else {
      SentNext(t, item, offset);
      PumpStaysUsable(t);
      ConservesNothing(t);
      var progress := SentFrom(t, item, offset);
      if t.window == 0 && !t.ended && Pumped(t).outcome != TooLarge {
        PumpConserves(t);
        if Pumped(t).outcome == Done {
          PumpedWithinCap(t);
          SendConserves(Pumped(t).tunnel, item, offset);
          if progress.outcome != TooLarge {
            ThenConserves(t, Pumped(t).tunnel, progress.tunnel, []);
          }
        }
      } else if t.window > 0 {
        var allowed := Min(t.window, t.maxFrame);
        var sent := Emitted(t, Slice(item, offset, offset + allowed));
        EmittedStaysUsable(t, Slice(item, offset, offset + allowed));
        EmitConserves(t, Slice(item, offset, offset + allowed));
        SendConserves(sent, item, offset + allowed);
        if progress.outcome != TooLarge {
          ThenConserves(t, sent, progress.tunnel, []);
        }
      }
    }
  }

  lemma EmitConserves(t: Tunnel, chunk: Bytes)
    requires |t.pending| <= CAP
    ensures Conserves(t, Emitted(t, chunk), [])
  {
    ConservesNothing(t);
    assert Consumed(t, Emitted(t, chunk)) == Consumed(t, t);
  }

  // ---- The CONNECT response ------------------------------------------------------

  datatype Connecting = Answered(tunnel: Tunnel, status: nat) | Failed(tunnel: Tunnel, outcome: Outcome)

  /** The status of the first response among the events. */
  function FirstStatus(events: seq<Event>): seq<nat> {
    if events == [] then []
    else if events[0].Response? then [events[0].status]
    else FirstStatus(events[1..])
  }

  /** Read until a batch brings a response, or the stream ends first. */
  function Awaited(t: Tunnel): Connecting
    decreases |t.input|
  {
    var pump := Pumped(t);
    if pump.outcome != Done then Failed(pump.tunnel, pump.outcome)
    else
      var status := FirstStatus(t.input[0].events);
      if status != [] then Answered(pump.tunnel, status[0])
      else if pump.tunnel.ended then Failed(pump.tunnel, EndOfStream)
      else Awaited(pump.tunnel)
  }

  /** Main result.  Data that arrive before or together with the response stay
      in the buffer for the first receive. */
  lemma {:induction false} AwaitConserves(t: Tunnel)
    requires |t.pending| <= CAP
    ensures var awaited := Awaited(t);
            awaited.Answered? || awaited.outcome != TooLarge ==> Conserves(t, awaited.tunnel, [])
    decreases |t.input|
  {
    hide Conserves, Pumped, FirstStatus;
    PumpOutcome(t);
    if Pumped(t).outcome != TooLarge {
      PumpConserves(t);
      if Pumped(t).outcome == Done {
        PumpedWithinCap(t);
        AwaitNext(t);
        if Awaited(t) == Awaited(Pumped(t).tunnel) {
          AwaitConserves(Pumped(t).tunnel);
          var awaited := Awaited(t);
          if awaited.Answered? || awaited.outcome != TooLarge {
            ThenConserves(t, Pumped(t).tunnel, awaited.tunnel, []);
          }
        }
      }
    }
  }

  lemma AwaitNext(t: Tunnel)
    requires Pumped(t).outcome == Done
    ensures Awaited(t).tunnel == Pumped(t).tunnel || Awaited(t) == Awaited(Pumped(t).tunnel)
    ensures Awaited(t) != Awaited(Pumped(t).tunnel) ==> Awaited(t).Answered? || Awaited(t).outcome == EndOfStream
  {
    hide FirstStatus, Absorb;
  }

  // ---- Interleaving ----------------------------------------------------------------

  datatype Task = Receiver | Sender

  /** Where a task stands with the reader of the connection: waiting for its own
      writes to drain before it reads, asleep in a read, woken by an arrival but
      not yet resumed, woken but robbed of the arrival by the other task, or
      asleep and forgotten by the reader. */
  datatype Wait = Idle | Draining | Asleep | Woken | Robbed | Deaf

  /** A report of the end of stream to the receiver, with what it knew. */
  datatype End = End(taken: Bytes, tunnel: Tunnel, overfull: bool, robbed: bool)

  /** A tunnel with one receiving task and one sending task in the middle of an
      item.  `ready` says that the next read of the connection does not sleep;
      `asked` is everything given to it to send, `taken` everything received. */
  datatype Session = Session(
    tunnel: Tunnel,
    ready: bool,
    receiver: Wait,
    sender: Wait,
    item: Bytes,
    offset: nat,
    asked: Bytes,
    taken: Bytes,
    overfull: bool,
    stopped: bool,
    ends: seq<End>)

  /** What runs between two awaits: bytes or the end of the connection arrive,
      the receiver goes once around its loop, the sender is given an item, goes
      once around its loop, or reads after draining, a woken task resumes, and a
      task is cancelled. */
  datatype Step =
    | Arrive
    | Receive(max: nat)
    | Begin(item: Bytes)
    | Push
    | Poll
    | Resume(task: Task)
    | Cancel(task: Task)

  function WaitOf(s: Session, task: Task): Wait {
    if task == Receiver then s.receiver else s.sender
  }

  function WithWait(s: Session, task: Task, wait: Wait): Session {
    if task == Receiver then s.(receiver := wait) else s.(sender := wait)
  }

  function Other(task: Task): Task {
    if task == Receiver then Sender else Receiver
  }

  /** An exception or a cancellation stops the sender, which is then given no other item; the
      receiver may call again. */
  function Raised(s: Session, task: Task): Session {
    if task == Sender then s.(stopped := true) else s
  }

  function EndRaised(s: Session, task: Task, robbed: bool): Session {
    if task == Sender then s.(stopped := true)
    else s.(ends := s.ends + [End(s.taken, s.tunnel, s.overfull, robbed)])
  }

  /** Taking bytes from the reader leaves nothing for a task they had woken. */
  function Rob(s: Session, task: Task): Session {
    if s.tunnel.input != [] && WaitOf(s, task).Woken? then WithWait(s, task, Robbed) else s
  }

  /** A read that does not sleep, up to where the task goes on or raises. */
  function Reads(s: Session, task: Task, robbed: bool): Session {
    var pump := Pumped(s.tunnel);
    var s' := Rob(s, Other(task)).(tunnel := pump.tunnel, ready := s.tunnel.input == [],
                                   overfull := s.overfull || pump.outcome == TooLarge);
    match pump.outcome
    case Done => s'
    case EndOfStream => EndRaised(s', task, robbed)
    case _ => Raised(s', task)
  }

  /** The reader lets one task sleep and raises for a second one. */
  function ReadCalled(s: Session, task: Task): Session {
    if s.ready then Reads(WithWait(s, task, Idle), task, false)
    else if WaitOf(s, Other(task)).Asleep? then Raised(WithWait(s, task, Idle), task)
    else WithWait(s, task, Asleep)
  }

  /** A woken read takes what is there; nothing counts as the end.  It also
      forgets whoever fell asleep in the meantime. */
  function Resumed(s: Session, task: Task): Session {
    var robbed := WaitOf(s, task).Robbed?;
    if s.ready then Reads(Awake(s, task), task, robbed) else EndRaised(Awake(s, task), task, robbed)
  }

  function Awake(s: Session, task: Task): Session {
    var s' := WithWait(s, task, Idle);
    if WaitOf(s, Other(task)).Asleep? then WithWait(s', Other(task), Deaf) else s'
  }

  /** A cancelled read leaves what woke it in the reader; unless it was still
      asleep on its own account, it forgets a sleeper as well. */
  function Cancelled(s: Session, task: Task): Session {
    if WaitOf(s, task) in {Woken, Robbed, Deaf} then Awake(s, task) else WithWait(s, task, Idle)
  }

  function Next(s: Session, step: Step): Session {
    match step
    case Arrive =>
      if s.ready then s
      else
        s.(ready := true,
           receiver := if s.receiver.Asleep? then Woken else s.receiver,
           sender := if s.sender.Asleep? then Woken else s.sender)
    case Receive(max) =>
      if !s.receiver.Idle? then s
      else if s.tunnel.pending != [] then
        s.(tunnel := Taken(s.tunnel, max).tunnel, taken := s.taken + Taken(s.tunnel, max).data)
      else if s.tunnel.ended then EndRaised(s, Receiver, false)
      else ReadCalled(s, Receiver)
    case Begin(item) =>
      if s.stopped || s.offset < |s.item| then s else s.(item := item, offset := 0, asked := s.asked + item)
    case Push =>
      var allowed := Min(s.tunnel.window, s.tunnel.maxFrame);
      if s.stopped || !s.sender.Idle? || s.offset >= |s.item| then s
      else if allowed == 0 then (if s.tunnel.ended then s.(stopped := true) else s.(sender := Draining))
      else if allowed < 0 then s.(stopped := true)
      else
        s.(tunnel := Emitted(s.tunnel, Slice(s.item, s.offset, s.offset + allowed)), offset := s.offset + allowed)
    case Poll => if s.sender.Draining? then ReadCalled(s, Sender) else s
    case Resume(task) => if WaitOf(s, task) in {Woken, Robbed} then Resumed(s, task) else s
    case Cancel(task) =>
      if task == Receiver then Cancelled(s, Receiver)
      else if s.offset < |s.item| then Cancelled(s, Sender).(stopped := true)
      else s
  }

  function Run(s: Session, steps: seq<Step>): Session {
    if steps == [] then s else Next(Run(s, steps[..|steps| - 1]), steps[|steps| - 1])
  }

  function Opened(t: Tunnel): Session {
    Session(t, false, Idle, Idle, [], 0, [], [], false, false, [])
  }

  // ---- What every interleaving keeps -------------------------------------------------

  predicate SendsInOrder(s: Session) {
    Emission(s.tunnel.frames) + From(s.item, s.offset) == s.asked && WithinCredit(s.tunnel.frames)
  }

  /** A receiver asleep or woken found nothing before, and nothing was read since. */
  predicate Waits(s: Session) {
    && (s.receiver.Asleep? || s.receiver.Woken? ==> s.tunnel.pending == [] && !s.tunnel.ended)
    && (s.receiver.Asleep? || s.sender.Asleep? ==> !s.ready)
    && (s.receiver.Woken? || s.sender.Woken? ==> s.ready)
    && !s.receiver.Draining?
  }

  /** Nothing is left for the receiver: the buffer is empty, and the stream has
      ended or the connection has. */
  predicate Drained(t: Tunnel) {
    t.pending == [] && (t.ended || t.input == [])
  }

  /** An end that is told in time: all that arrived was received before. */
  ghost predicate Timely(t: Tunnel, end: End) {
    end.overfull || end.robbed || (Drained(end.tunnel) && Conserves(t, end.tunnel, end.taken))
  }

  ghost predicate TimelyEnds(t: Tunnel, ends: seq<End>) {
    forall i :: 0 <= i < |ends| ==> Timely(t, ends[i])
  }

  ghost predicate Intact(t: Tunnel, s: Session) {
    SendsInOrder(s) && Waits(s) && (s.overfull || Conserves(t, s.tunnel, s.taken)) && TimelyEnds(t, s.ends)
  }

  lemma PumpKeepsFrames(t: Tunnel)
    ensures Pumped(t).tunnel.frames == t.frames
  {
    hide Absorb;
  }

  /** The parts of a session a read changes, or an exception. */
  lemma ReadsParts(s: Session, task: Task, robbed: bool)
    ensures var s', pump := Reads(s, task, robbed), Pumped(s.tunnel);
            && s'.tunnel == pump.tunnel && s'.tunnel.frames == s.tunnel.frames
            && s'.item == s.item && s'.offset == s.offset && s'.asked == s.asked && s'.taken == s.taken
            && s'.overfull == (s.overfull || pump.outcome == TooLarge)
            && s'.ready == (s.tunnel.input == [])
            && s'.receiver == Rob(s, Other(task)).receiver && s'.sender == Rob(s, Other(task)).sender
            && s'.ends == (if pump.outcome == EndOfStream && task == Receiver
                           then s.ends + [End(s.taken, s.tunnel, s.overfull, robbed)] else s.ends)
            && (pump.outcome == EndOfStream ==> s.tunnel.input == [] && pump.tunnel == s.tunnel)
  {
    hide Pumped;
    PumpKeepsFrames(s.tunnel);
    PumpOutcome(s.tunnel);
  }

  lemma ReadConserves(t: Tunnel, s: Session, task: Task, robbed: bool)
    requires s.overfull || Conserves(t, s.tunnel, s.taken)
    ensures var s' := Reads(s, task, robbed);
            s'.overfull || Conserves(t, s'.tunnel, s'.taken)
  {
    hide Conserves, Pumped, Reads;
    ReadsParts(s, task, robbed);
    if !s.overfull && Pumped(s.tunnel).outcome != TooLarge {
      ConservedCap(t, s.tunnel, s.taken);
      PumpConserves(s.tunnel);
      ConservesThen(t, s.tunnel, Pumped(s.tunnel).tunnel, s.taken, []);
      assert s.taken + [] == s.taken;
    }
  }

  lemma ConservedCap(t: Tunnel, t': Tunnel, taken: Bytes)
    requires Conserves(t, t', taken)
    ensures |t'.pending| <= CAP
  {
  }

  lemma EndAppended(t: Tunnel, ends: seq<End>, end: End)
    requires TimelyEnds(t, ends) && Timely(t, end)
    ensures TimelyEnds(t, ends + [end])
  {
    hide Timely;
  }

  /** A read keeps a session intact; before a read that is not robbed the
      receiver had found nothing. */
  lemma IntactRead(t: Tunnel, s: Session, task: Task, robbed: bool)
    requires Intact(t, s) && s.ready && WaitOf(s, task).Idle?
    requires task == Receiver && !robbed ==> s.tunnel.pending == []
    ensures Intact(t, Reads(s, task, robbed))
  {
    hide Conserves, Reads, Emission, From, WithinCredit, Pumped;
    ReadsParts(s, task, robbed);
    ReadConserves(t, s, task, robbed);
    var end := End(s.taken, s.tunnel, s.overfull, robbed);
    if Pumped(s.tunnel).outcome == EndOfStream && task == Receiver {
      assert Timely(t, end);
      EndAppended(t, s.ends, end);
    }
    ReadWaits(s, task, robbed);
  }

  lemma ReadWaits(s: Session, task: Task, robbed: bool)
    requires Waits(s) && s.ready && WaitOf(s, task).Idle?
    ensures Waits(Reads(s, task, robbed))
  {
    hide Reads, Pumped;
    ReadsParts(s, task, robbed);
    PumpOnEmpty(s.tunnel);
  }

  lemma PumpOnEmpty(t: Tunnel)
    ensures t.input == [] ==> Pumped(t) == Pump(t, EndOfStream)
  {
  }

  lemma IntactReadCalled(t: Tunnel, s: Session, task: Task)
    requires Intact(t, s) && WaitOf(s, task) == (if task == Receiver then Idle else Draining)
    requires task == Receiver ==> s.tunnel.pending == [] && !s.tunnel.ended
    ensures Intact(t, ReadCalled(s, task))
  {
    hide Conserves, Reads, Emission, From, WithinCredit, TimelyEnds;
    var idle := WithWait(s, task, Idle);
    if s.ready {
      IntactRead(t, idle, task, false);
    }
  }

  lemma {:induction false} IntactResume(t: Tunnel, s: Session, task: Task)
    requires Intact(t, s) && WaitOf(s, task) in {Woken, Robbed}
    ensures Intact(t, Resumed(s, task))
  {
    hide Conserves, Reads, Emission, From, WithinCredit;
    var robbed, s' := WaitOf(s, task).Robbed?, Awake(s, task);
    assert Intact(t, s');
    if s.ready {
      IntactRead(t, s', task, robbed);
    } else if task == Receiver {
      EndAppended(t, s.ends, End(s'.taken, s'.tunnel, s'.overfull, robbed));
    }
  }

  lemma {:induction false} IntactReceive(t: Tunnel, s: Session, max: nat)
    requires Intact(t, s)
    ensures Intact(t, Next(s, Receive(max)))
  {
    hide Emission, From, WithinCredit, Conserves;
    if s.receiver.Idle? {
      if s.tunnel.pending != [] {
        if !s.overfull {
          ConservedCap(t, s.tunnel, s.taken);
          TakeConserves(s.tunnel, max);
          ConservesThen(t, s.tunnel, Taken(s.tunnel, max).tunnel, s.taken, Taken(s.tunnel, max).data);
        }
      } else if s.tunnel.ended {
        EndAppended(t, s.ends, End(s.taken, s.tunnel, s.overfull, false));
      } else {
        hide ReadCalled;
        IntactReadCalled(t, s, Receiver);
      }
    }
  }

  lemma {:induction false} IntactPush(t: Tunnel, s: Session)
    requires Intact(t, s)
    ensures Intact(t, Next(s, Push))
  {
    hide Emission, WithinCredit, Slice, Conserves, From, TimelyEnds;
    var allowed := Min(s.tunnel.window, s.tunnel.maxFrame);
    if !s.stopped && s.sender.Idle? && s.offset < |s.item| && allowed > 0 {
      PieceMoves(s.tunnel, s.item, s.offset);
      PieceIsWithinCredit(s.tunnel, s.item, s.offset);
      var chunk := Slice(s.item, s.offset, s.offset + allowed);
      if !s.overfull {
        ConservedCap(t, s.tunnel, s.taken);
        EmitConserves(s.tunnel, chunk);
        ConservesThen(t, s.tunnel, Emitted(s.tunnel, chunk), s.taken, []);
        assert s.taken + [] == s.taken;
      }
    }
  }

  lemma IntactBegin(t: Tunnel, s: Session, item: Bytes)
    requires Intact(t, s)
    ensures Intact(t, Next(s, Begin(item)))
  {
    hide Emission, WithinCredit, Conserves, TimelyEnds;
    if !s.stopped && s.offset >= |s.item| {
      var sent := Emission(s.tunnel.frames);
      assert sent + [] == s.asked;
      assert From(item, 0) == item;
    }
  }

  lemma IntactCancel(t: Tunnel, s: Session, task: Task)
    requires Intact(t, s)
    ensures Intact(t, Next(s, Cancel(task)))
  {
    hide Emission, From, WithinCredit, Conserves, TimelyEnds;
  }

  lemma IntactArrive(t: Tunnel, s: Session)
    requires Intact(t, s)
    ensures Intact(t, Next(s, Arrive))
  {
    hide Emission, From, WithinCredit, Conserves, TimelyEnds;
  }

  lemma {:induction false} RunIsIntact(t: Tunnel, steps: seq<Step>)
    requires |t.pending| <= CAP && t.frames == []
    ensures Intact(t, Run(Opened(t), steps))
  {
    if steps == [] {
      ConservesNothing(t);
    } else {
      hide Intact, Resumed, ReadCalled, Cancelled, Run;
      var s, last := Run(Opened(t), steps[..|steps| - 1]), steps[|steps| - 1];
      RunIsIntact(t, steps[..|steps| - 1]);
      RunNext(Opened(t), steps);
      match last
      case Arrive => IntactArrive(t, s);
      case Receive(max) => IntactReceive(t, s, max);
      case Begin(item) => IntactBegin(t, s, item);
      case Push => IntactPush(t, s);
      case Poll =>
        if s.sender.Draining? {
          IntactReadCalled(t, s, Sender);
        }
      case Resume(task) =>
        if WaitOf(s, task) in {Woken, Robbed} {
          IntactResume(t, s, task);
        }
      case Cancel(task) => IntactCancel(t, s, task);
    }
  }

  lemma RunNext(s: Session, steps: seq<Step>)
    requires steps != []
    ensures Run(s, steps) == Next(Run(s, steps[..|steps| - 1]), steps[|steps| - 1])
  {
    hide Next;
  }

  /** Main result.  In every interleaving of a sending and a receiving task,
      also after the connection has ended, broken its protocol or refused data:
      the data sent so far are a prefix of what was given to send, every frame
      was within its credit; and unless a batch overfilled the buffer, what was
      received and what is buffered are together exactly what was buffered
      before, as by waiting for the response, and what arrived. */
  lemma {:induction false} EveryInterleavingIsIntact(t: Tunnel, steps: seq<Step>)
    requires |t.pending| <= CAP && t.frames == []
    ensures var s := Run(Opened(t), steps);
            && Prefix(Emission(s.tunnel.frames), s.asked) && WithinCredit(s.tunnel.frames)
            && (!s.overfull ==>
                  && |s.tunnel.input| <= |t.input| && |s.tunnel.pending| <= CAP
                  && s.taken + s.tunnel.pending == t.pending + AllData(Consumed(t, s.tunnel))
                  && (s.tunnel.ended <==> t.ended || EndsIn(Consumed(t, s.tunnel))))
  {
    hide Run, Emission, WithinCredit, From, AllData, EndsIn, TimelyEnds;
    RunIsIntact(t, steps);
  }

  // ---- After the response ---------------------------------------------------------------

  lemma {:induction false} AwaitedKeepsFrames(t: Tunnel)
    ensures Awaited(t).tunnel.frames == t.frames
    decreases |t.input|
  {
    hide Pumped, FirstStatus;
    PumpOutcome(t);
    PumpKeepsFrames(t);
    if Pumped(t).outcome == Done {
      AwaitNext(t);
      AwaitedKeepsFrames(Pumped(t).tunnel);
    }
  }

  lemma EndsSince(t: Tunnel, m: Tunnel, ends: seq<End>)
    requires Conserves(t, m, []) && TimelyEnds(m, ends)
    ensures TimelyEnds(t, ends)
  {
    hide Conserves, Drained;
    forall i | 0 <= i < |ends|
      ensures Timely(t, ends[i])
    {
      assert Timely(m, ends[i]);
      if !ends[i].overfull && !ends[i].robbed {
        ThenConserves(t, m, ends[i].tunnel, ends[i].taken);
      }
    }
  }

  /** Main result.  From the wait for the response to CONNECT through every
      interleaving of sending and receiving behind it: what arrived with or
      before the response, and everything since, is received or buffered, in
      order; and every report of the end to a receiver that was not robbed comes
      after all of it. */
  lemma {:induction false} NothingIsLostSinceConnect(t: Tunnel, steps: seq<Step>)
    requires |t.pending| <= CAP && t.frames == [] && Awaited(t).Answered?
    ensures var s := Run(Opened(Awaited(t).tunnel), steps);
            && Prefix(Emission(s.tunnel.frames), s.asked) && WithinCredit(s.tunnel.frames)
            && (!s.overfull ==> Conserves(t, s.tunnel, s.taken))
            && TimelyEnds(t, s.ends)
  {
    hide Run, Emission, WithinCredit, Conserves, TimelyEnds, From, Awaited;
    var m := Awaited(t).tunnel;
    AwaitConserves(t);
    AwaitedKeepsFrames(t);
    assert |m.pending| <= CAP by { ConservedCap(t, m, []); }
    RunIsIntact(m, steps);
    var s := Run(Opened(m), steps);
    EndsSince(t, m, s.ends);
    if !s.overfull {
      ThenConserves(t, m, s.tunnel, s.taken);
    }
  }

  // ---- Forgotten sleepers ---------------------------------------------------------------

  /** The other task, robbed or forgotten itself, leaves its read while this one sleeps. */
  predicate Deafens(s: Session, step: Step, task: Task) {
    && WaitOf(s, task).Asleep?
    && (|| (step == Resume(Other(task)) && WaitOf(s, Other(task)).Robbed?)
        || (step == Cancel(Other(task)) && WaitOf(s, Other(task)) in {Robbed, Deaf}
            && (task == Receiver ==> s.offset < |s.item|)))
  }

  /** A read makes nobody deaf, and what it gives goes to the task that reads. */
  lemma ReadsLeaveDeaf(s: Session, task: Task, robbed: bool)
    ensures Reads(s, task, robbed).receiver.Deaf? <==> s.receiver.Deaf?
    ensures Reads(s, task, robbed).sender.Deaf? <==> s.sender.Deaf?
    ensures Reads(s, task, robbed).taken == s.taken
    ensures Reads(s, task, robbed).tunnel.frames == s.tunnel.frames
    ensures task == Sender ==> Reads(s, task, robbed).ends == s.ends
  {
    hide Reads, Pumped;
    ReadsParts(s, task, robbed);
  }

  /** Where tasks stand after a read. */
  lemma ReadsWaits(s: Session, task: Task, robbed: bool)
    ensures Reads(s, task, robbed).receiver == Rob(s, Other(task)).receiver
    ensures Reads(s, task, robbed).sender == Rob(s, Other(task)).sender
  {
    hide Reads, Pumped;
    ReadsParts(s, task, robbed);
  }

  /** Calling for a read makes nobody deaf. */
  lemma CallLeavesDeaf(s: Session, caller: Task, task: Task)
    requires !WaitOf(s, caller).Deaf?
    ensures WaitOf(ReadCalled(s, caller), task).Deaf? <==> WaitOf(s, task).Deaf?
  {
    hide Reads;
    ReadsLeaveDeaf(WithWait(s, caller, Idle), caller, false);
  }

  lemma AwakeDeafens(s: Session, other: Task, task: Task)
    requires !WaitOf(s, other).Deaf?
    ensures WaitOf(Awake(s, other), task).Deaf? <==>
              WaitOf(s, task).Deaf? || (task != other && WaitOf(s, task).Asleep?)
  {
  }

  /** Resuming from a read makes the other task deaf if it sleeps. */
  lemma ResumeDeafens(s: Session, other: Task, task: Task)
    requires WaitOf(s, other) in {Woken, Robbed}
    ensures WaitOf(Resumed(s, other), task).Deaf? <==>
              WaitOf(s, task).Deaf? || (task != other && WaitOf(s, task).Asleep?)
  {
    hide Reads, Awake;
    AwakeDeafens(s, other, task);
    ReadsLeaveDeaf(Awake(s, other), other, WaitOf(s, other).Robbed?);
  }

  lemma {:induction false} DeafNext(s: Session, step: Step, task: Task)
    requires Waits(s) && !WaitOf(s, task).Deaf?
    ensures WaitOf(Next(s, step), task).Deaf? <==> Deafens(s, step, task)
  {
    hide ReadCalled, Resumed, Taken, Emitted, Slice, Min;
    match step
    case Receive(_) =>
      if s.receiver.Idle? {
        CallLeavesDeaf(s, Receiver, task);
      }
    case Poll =>
      if s.sender.Draining? {
        CallLeavesDeaf(s, Sender, task);
      }
    case Resume(other) =>
      if WaitOf(s, other) in {Woken, Robbed} {
        ResumeDeafens(s, other, task);
      }
    case _ =>
  }

  /** Nothing reaches a deaf task: a receiver gets neither data nor an end, a
      sender sends nothing. */
  predicate StillDeaf(s: Session, s': Session, task: Task) {
    && WaitOf(s', task).Deaf?
    && if task == Receiver then s'.taken == s.taken && s'.ends == s.ends else s'.tunnel.frames == s.tunnel.frames
  }

  lemma CallLeavesRest(s: Session, caller: Task, task: Task)
    requires WaitOf(s, task).Deaf? && caller != task
    ensures StillDeaf(s, ReadCalled(s, caller), task)
  {
    hide Reads;
    ReadsLeaveDeaf(WithWait(s, caller, Idle), caller, false);
  }

  lemma ResumeLeavesRest(s: Session, other: Task, task: Task)
    requires WaitOf(s, task).Deaf? && other != task
    ensures StillDeaf(s, Resumed(s, other), task)
  {
    hide Reads;
    ReadsLeaveDeaf(Awake(s, other), other, WaitOf(s, other).Robbed?);
  }

  lemma {:induction false} DeafStays(s: Session, step: Step, task: Task)
    requires WaitOf(s, task).Deaf? && step != Cancel(task)
    ensures StillDeaf(s, Next(s, step), task)
  {
    hide ReadCalled, Resumed, Emitted, Slice, Min;
    match step
    case Receive(_) =>
      if task == Sender {
        CallLeavesRest(s, Receiver, task);
      }
    case Poll =>
      if task == Receiver {
        CallLeavesRest(s, Sender, task);
      }
    case Resume(other) =>
      if other != task {
        ResumeLeavesRest(s, other, task);
      }
    case _ =>
  }

  /** In every run, exactly what makes a task deaf. */
  lemma {:induction false} DeafExactly(t: Tunnel, steps: seq<Step>, step: Step, task: Task)
    requires |t.pending| <= CAP && t.frames == []
    ensures var s := Run(Opened(t), steps);
            !WaitOf(s, task).Deaf? ==> (WaitOf(Next(s, step), task).Deaf? <==> Deafens(s, step, task))
  {
    hide Run, Next, Waits, Deafens;
    RunWaits(t, steps);
    if !WaitOf(Run(Opened(t), steps), task).Deaf? {
      DeafNext(Run(Opened(t), steps), step, task);
    }
  }

  /** Main result.  A deaf task stays deaf until it is cancelled, whatever arrives. */
  lemma {:induction false} DeafForever(s: Session, steps: seq<Step>, task: Task)
    requires WaitOf(s, task).Deaf? && Cancel(task) !in steps
    ensures StillDeaf(s, Run(s, steps), task)
    decreases |steps|
  {
    if steps != [] {
      hide Run, Next;
      var front, last := steps[..|steps| - 1], steps[|steps| - 1];
      RunNext(s, steps);
      DeafForever(s, front, task);
      DeafStays(Run(s, front), last, task);
    }
  }

  // ---- Reports of the end --------------------------------------------------------------

  /** Main result.  In every interleaving, when the end of stream is reported to
      a receiver that was not robbed, it has received everything that arrived,
      and the stream has ended or everything was read. */
  lemma {:induction false} EndsAreTimely(t: Tunnel, steps: seq<Step>, i: nat)
    requires |t.pending| <= CAP && t.frames == []
    requires var s := Run(Opened(t), steps);
             i < |s.ends| && !s.ends[i].robbed && !s.ends[i].overfull
    ensures var end := Run(Opened(t), steps).ends[i];
            && |end.tunnel.input| <= |t.input| && end.tunnel.pending == []
            && end.taken == t.pending + AllData(Consumed(t, end.tunnel))
            && (t.ended || EndsIn(Consumed(t, end.tunnel)) || Consumed(t, end.tunnel) == t.input)
  {
    hide Run, Emission, WithinCredit, From, AllData, EndsIn;
    RunIsIntact(t, steps);
    var end := Run(Opened(t), steps).ends[i];
    assert Timely(t, end);
    var consumed := Consumed(t, end.tunnel);
    assert end.taken + [] == end.taken;
    assert end.tunnel.input == [] ==> consumed == t.input;
  }

  /** The sender takes bytes from the reader that had woken the receiver. */
  predicate Robs(s: Session, step: Step) {
    && s.ready && s.tunnel.input != [] && s.receiver.Woken?
    && ((step == Poll && s.sender.Draining?) || (step == Resume(Sender) && s.sender in {Woken, Robbed}))
  }

  /** Who is robbed by a call for a read, and by a resumption. */
  lemma CallRobs(s: Session, task: Task)
    requires !s.receiver.Robbed?
    ensures ReadCalled(s, task).receiver.Robbed? <==>
              task == Sender && s.ready && s.tunnel.input != [] && s.receiver.Woken?
  {
    hide Reads;
    ReadsWaits(WithWait(s, task, Idle), task, false);
  }

  lemma ResumeRobs(s: Session, task: Task)
    requires !s.receiver.Robbed?
    ensures Resumed(s, task).receiver.Robbed? <==>
              task == Sender && s.ready && s.tunnel.input != [] && s.receiver.Woken?
  {
    hide Reads;
    ReadsWaits(Awake(s, task), task, WaitOf(s, task).Robbed?);
  }

  /** How a receiver becomes robbed. */
  lemma {:induction false} RobbedNext(s: Session, step: Step)
    requires Waits(s) && !s.receiver.Robbed?
    ensures Next(s, step).receiver.Robbed? <==> Robs(s, step)
  {
    hide ReadCalled, Resumed, Taken, Emitted, Slice, Min;
    match step
    case Receive(_) => CallRobs(s, Receiver);
    case Poll => CallRobs(s, Sender);
    case Resume(task) => ResumeRobs(s, task);
    case _ =>
  }

  /** A step reports at most one end, and marks it if the receiver was robbed. */
  predicate ReportsOnce(s: Session, s': Session, robbed: bool) {
    s'.ends == s.ends || s'.ends == s.ends + [End(s.taken, s.tunnel, s.overfull, robbed)]
  }

  lemma ReadsReportOnce(s: Session, task: Task, robbed: bool)
    ensures Reads(s, task, robbed).ends == s.ends
            || (task == Receiver
                && Reads(s, task, robbed).ends == s.ends + [End(s.taken, s.tunnel, s.overfull, robbed)])
  {
    hide Reads, Pumped;
    ReadsParts(s, task, robbed);
  }

  lemma {:induction false} EndsNext(s: Session, step: Step)
    ensures ReportsOnce(s, Next(s, step), step == Resume(Receiver) && s.receiver.Robbed?)
  {
    hide Reads, Taken, Emitted, Slice, Min;
    match step
    case Receive(_) => ReadsReportOnce(WithWait(s, Receiver, Idle), Receiver, false);
    case Poll => ReadsReportOnce(WithWait(s, Sender, Idle), Sender, false);
    case Resume(task) => ReadsReportOnce(Awake(s, task), task, WaitOf(s, task).Robbed?);
    case _ =>
  }

  ghost predicate NeverRobs(s: Session, steps: seq<Step>) {
    forall i :: 0 <= i < |steps| ==> !Robs(Run(s, steps[..i]), steps[i])
  }

  /** Main result.  In an interleaving in which the sender never takes what woke
      the receiver, no receiver is robbed, so every report of the end is in time. */
  lemma {:induction false} UnrobbedEnds(t: Tunnel, steps: seq<Step>)
    requires |t.pending| <= CAP && t.frames == [] && NeverRobs(Opened(t), steps)
    ensures var s := Run(Opened(t), steps);
            !s.receiver.Robbed? && forall i :: 0 <= i < |s.ends| ==> !s.ends[i].robbed
  {
    if steps != [] {
      hide Run, Next, Robs, Intact, Waits;
      var front, last := steps[..|steps| - 1], steps[|steps| - 1];
      var s := Run(Opened(t), front);
      RunNext(Opened(t), steps);
      NeverRobsFront(Opened(t), steps);
      UnrobbedEnds(t, front);
      assert Waits(s) by { RunWaits(t, front); }
      RobbedNext(s, last);
      EndsNext(s, last);
    }
  }

  lemma {:induction false} RunWaits(t: Tunnel, steps: seq<Step>)
    requires |t.pending| <= CAP && t.frames == []
    ensures Waits(Run(Opened(t), steps))
  {
    hide Run, Waits, SendsInOrder, TimelyEnds;
    RunIsIntact(t, steps);
  }

  lemma NeverRobsFront(s: Session, steps: seq<Step>)
    requires steps != [] && NeverRobs(s, steps)
    ensures NeverRobs(s, steps[..|steps| - 1])
    ensures !Robs(Run(s, steps[..|steps| - 1]), steps[|steps| - 1])
  {
    hide Run, Robs;
    var front := steps[..|steps| - 1];
    forall i | 0 <= i < |front|
      ensures !Robs(Run(s, front[..i]), front[i])
    {
      assert front[..i] == steps[..i] && front[i] == steps[i];
    }
    assert !Robs(Run(s, steps[..|front|]), steps[|front|]);
  }

  /** A step reports an end although data wait, or more may come. */
  predicate ReportsFalseEnd(s: Session, step: Step) {
    |Next(s, step).ends| > |s.ends| && !Drained(s.tunnel)
  }

  /** Main result.  Exactly when the end is reported too early: a robbed
      receiver resumes, finds the reader empty or the connection ended, and has
      data waiting in the buffer or to come. */
  lemma {:induction false} FalseEndExactly(t: Tunnel, steps: seq<Step>, step: Step)
    requires |t.pending| <= CAP && t.frames == []
    ensures var s := Run(Opened(t), steps);
            ReportsFalseEnd(s, step) <==>
              && step == Resume(Receiver) && s.receiver.Robbed?
              && (!s.ready || s.tunnel.input == []) && !Drained(s.tunnel)
  {
    hide Run, Emission, WithinCredit, From, Conserves, TimelyEnds;
    RunIsIntact(t, steps);
    FalseEndStep(Run(Opened(t), steps), step);
  }

  /** What makes a step report an end. */
  predicate Reports(s: Session, step: Step) {
    match step
    case Receive(_) =>
      s.receiver.Idle? && s.tunnel.pending == [] && (s.tunnel.ended || (s.ready && s.tunnel.input == []))
    case Resume(task) =>
      task == Receiver && s.receiver in {Woken, Robbed} && (!s.ready || s.tunnel.input == [])
    case _ => false
  }

  lemma ReadReports(s: Session, task: Task, robbed: bool)
    ensures |Reads(s, task, robbed).ends| > |s.ends| <==> task == Receiver && s.tunnel.input == []
  {
    hide Reads, Pumped;
    ReadsParts(s, task, robbed);
    PumpOnEmpty(s.tunnel);
  }

  lemma {:induction false} WhenReported(s: Session, step: Step)
    ensures |Next(s, step).ends| > |s.ends| <==> Reports(s, step)
  {
    hide Reads, Taken, Emitted, Slice, Min;
    match step
    case Receive(_) => ReadReports(WithWait(s, Receiver, Idle), Receiver, false);
    case Poll => ReadReports(WithWait(s, Sender, Idle), Sender, false);
    case Resume(task) => ReadReports(Awake(s, task), task, WaitOf(s, task).Robbed?);
    case _ =>
  }

  lemma FalseEndStep(s: Session, step: Step)
    requires Waits(s)
    ensures ReportsFalseEnd(s, step) <==>
              && step == Resume(Receiver) && s.receiver.Robbed?
              && (!s.ready || s.tunnel.input == []) && !Drained(s.tunnel)
  {
    hide Next;
    WhenReported(s, step);
  }

  const ONE := Batch([Data([1])], 0, 9)
  const TWO := Batch([Data([2])], 0, 9)

  /** A session with two bytes to come and no credit. */
  const QUIET := Opened(Tunnel([ONE, TWO], [], false, 0, 9, []))

  const ROBBERY := [Receive(5), Begin([7]), Push, Arrive, Poll]

  /** A receiver sleeps, a sender waits for credit; one byte arrives, and the
      sender reads it before the receiver resumes. */
  lemma FalseEndExample()
    ensures var s := Run(QUIET, ROBBERY);
            s.tunnel.pending == [1] && !s.tunnel.ended && s.tunnel.input != []
            && ReportsFalseEnd(s, Resume(Receiver))
  {
    hide Run, Next, ReportsFalseEnd;
    RobberyRuns();
    SenderRobs();
  }

  lemma RobberyRuns()
    ensures Run(QUIET, ROBBERY)
            == Next(QUIET.(receiver := Woken, sender := Draining, ready := true, item := [7], asked := [7]), Poll)
  {
    hide Run, Next;
    var steps := ROBBERY;
    var a, b, c, d := steps[..1], steps[..2], steps[..3], steps[..4];
    RunNext(QUIET, a);
    RunNext(QUIET, b);
    RunNext(QUIET, c);
    RunNext(QUIET, d);
    RunNext(QUIET, steps);
    RunNothing(QUIET);
    assert a[..0] == [] && b[..1] == a && c[..2] == b && d[..3] == c && steps[..4] == d;
    BothWait();
  }

  /** The same run goes on: the sender sleeps, the robbed receiver resumes, and
      the reader forgets the sender. */
  lemma DeafExample()
    ensures Run(Run(QUIET, ROBBERY), [Push, Poll, Resume(Receiver)]).sender.Deaf?
  {
    hide Run, Next;
    var s, steps := Run(QUIET, ROBBERY), [Push, Poll, Resume(Receiver)];
    RobberyRuns();
    RunNext(s, steps[..1]);
    RunNext(s, steps[..2]);
    RunNext(s, steps);
    RunNothing(s);
    assert steps[..1][..0] == [] && steps[..2][..1] == steps[..1];
    SenderForgotten();
  }

  lemma SenderForgotten()
    ensures var woken := QUIET.(receiver := Woken, sender := Draining, ready := true, item := [7], asked := [7]);
            Next(Next(Next(Next(woken, Poll), Push), Poll), Resume(Receiver)).sender.Deaf?
  {
    var woken := QUIET.(receiver := Woken, sender := Draining, ready := true, item := [7], asked := [7]);
    assert Absorb([], false, [Data([1])]) == Absorbed([1], false, true) by { assert [Data([1])][1..] == []; }
    assert Pumped(woken.tunnel) == Pump(Tunnel([TWO], [1], false, 0, 9, []), Done);
    var s := Next(woken, Poll);
    assert s == woken.(receiver := Robbed, sender := Idle, ready := false, tunnel := Pumped(woken.tunnel).tunnel);
    assert Next(s, Push) == s.(sender := Draining);
  }

  lemma RunNothing(s: Session)
    ensures Run(s, []) == s
  {
  }

  lemma BothWait()
    ensures Next(Next(Next(Next(QUIET, Receive(5)), Begin([7])), Push), Arrive)
            == QUIET.(receiver := Woken, sender := Draining, ready := true, item := [7], asked := [7])
  {
    var asleep := QUIET.(receiver := Asleep);
    assert Next(QUIET, Receive(5)) == asleep;
    var given := asleep.(item := [7], asked := [7]);
    assert Next(asleep, Begin([7])) == given by { assert [] + [7] == [7]; }
    assert Next(given, Push) == given.(sender := Draining);
  }

  lemma SenderRobs()
    ensures var woken := QUIET.(receiver := Woken, sender := Draining, ready := true, item := [7], asked := [7]);
            var s := Next(woken, Poll);
            s.tunnel.pending == [1] && !s.tunnel.ended && s.tunnel.input != []
            && ReportsFalseEnd(s, Resume(Receiver))
  {
    var woken := QUIET.(receiver := Woken, sender := Draining, ready := true, item := [7], asked := [7]);
    assert Absorb([], false, [Data([1])]) == Absorbed([1], false, true) by { assert [Data([1])][1..] == []; }
    assert Pumped(woken.tunnel) == Pump(Tunnel([TWO], [1], false, 0, 9, []), Done);
    var s := Next(woken, Poll);
    assert s == woken.(receiver := Robbed, sender := Idle, ready := false, tunnel := Pumped(woken.tunnel).tunnel);
  }
}
