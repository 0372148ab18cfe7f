/** What the operations of the HTTP/2 tunnel answer, read off what arrives. */
module H2Answers {
  import opened Bytes
  import opened H2Flow
  import opened H2Streams

  /** Batch `n` is there, and with it the data since the start fit the buffer. */
  predicate Readable(t: Tunnel, n: nat) {
    n < |t.input| && t.input[n].Batch? && |t.pending| + |AllData(t.input[..n + 1])| <= 131072
  }

  predicate Overfull(t: Tunnel, n: nat) {
    n < |t.input| && t.input[n].Batch? && |t.pending| + |AllData(t.input[..n + 1])| > 131072
  }

  /** Main result.  What one read gives: the end when nothing is left, a
      protocol error exactly for bytes the library rejects, and for a batch
      its data, its end, its window change and its frame limit, unless the data
      pass the cap. */
  lemma PumpExactly(t: Tunnel)
    requires |t.pending| <= 131072
    ensures t.input == [] ==> Pumped(t) == Pump(t, EndOfStream)
    ensures t.input != [] && t.input[0].Malformed? ==> Pumped(t) == Pump(t.(input := t.input[1..]), BadProtocol)
    ensures t.input != [] && t.input[0].Batch? ==>
              var batch := t.input[0];
              var data := t.pending + DataOf(batch.events);
              if |data| > 131072 then Pumped(t).outcome == TooLarge
              else
                Pumped(t) == Pump(Tunnel(t.input[1..], data, t.ended || Ended in batch.events,
                                         t.window + batch.credit, batch.maxFrame, t.frames), Done)
  {
    hide Absorb, DataOf;
    if t.input != [] && t.input[0].Batch? {
      AbsorbFacts(t.pending, t.ended, t.input[0].events);
    }
  }

  lemma AllDataOne(input: seq<Incoming>)
    requires input != [] && input[0].Batch?
    ensures AllData(input[..1]) == DataOf(input[0].events)
  {
    hide DataOf;
    assert input[..1][1..] == [];
    assert DataOf(input[0].events) + [] == DataOf(input[0].events);
  }

  lemma AllDataNext(input: seq<Incoming>, n: nat)
    requires n < |input| && input[0].Batch?
    ensures AllData(input[..n + 1]) == DataOf(input[0].events) + AllData(input[1..][..n])
  {
    hide DataOf;
    assert input[..n + 1][1..] == input[1..][..n];
  }

  lemma AllDataGrows(input: seq<Incoming>, n: nat, m: nat)
    requires n <= m <= |input|
    ensures |AllData(input[..n])| <= |AllData(input[..m])|
  {
    hide AllData, EndsIn;
    assert input[..m] == input[..n] + input[n..m];
    AllDataAppend(input[..n], input[n..m]);
  }

  // ---- The response to CONNECT -------------------------------------------------------

  predicate NoResponse(events: seq<Event>) {
    forall j :: 0 <= j < |events| ==> !events[j].Response?
  }

  /** A batch that lets the wait go on. */
  predicate Uneventful(incoming: Incoming) {
    incoming.Batch? && NoResponse(incoming.events) && Ended !in incoming.events
  }

  /** The wait went on through the first `n` batches. */
  predicate Waited(t: Tunnel, n: nat) {
    && n <= |t.input| && (n > 0 ==> !t.ended)
    && (forall i :: 0 <= i < n ==> Uneventful(t.input[i]))
    && |t.pending| + |AllData(t.input[..n])| <= 131072
  }

  /** Event `j` of batch `n` is the first response. */
  predicate Responds(t: Tunnel, n: nat, j: nat, status: nat) {
    && Waited(t, n) && Readable(t, n)
    && j < |t.input[n].events| && t.input[n].events[j] == Response(status)
    && NoResponse(t.input[n].events[..j])
  }

  /** The connection ends, or the stream has ended after batch `n` without a response. */
  predicate EndsWaiting(t: Tunnel, n: nat) {
    && Waited(t, n)
    && (n == |t.input|
        || (Readable(t, n) && NoResponse(t.input[n].events) && (t.ended || Ended in t.input[n].events)))
  }

  predicate BreaksProtocol(t: Tunnel, n: nat) {
    Waited(t, n) && n < |t.input| && t.input[n].Malformed?
  }

  predicate Overfills(t: Tunnel, n: nat) {
    Waited(t, n) && Overfull(t, n)
  }

  lemma {:induction false} FirstStatusIs(events: seq<Event>) returns (j: nat)
    ensures FirstStatus(events) == [] ==> NoResponse(events)
    ensures FirstStatus(events) != [] ==>
              && |FirstStatus(events)| == 1 && j < |events| && NoResponse(events[..j])
              && events[j] == Response(FirstStatus(events)[0])
  {
    j := 0;
    if events != [] && !events[0].Response? {
      var k := FirstStatusIs(events[1..]);
      j := k + 1;
      if FirstStatus(events) == [] {
        assert forall i :: 0 < i < |events| ==> events[i] == events[1..][i - 1];
      } else {
        assert forall i :: 0 < i < j ==> events[..j][i] == events[1..][..k][i - 1];
      }
    }
  }

  /** The wait stops at batch `n` with this answer. */
  ghost predicate StopsWith(t: Tunnel, n: nat, answer: Connecting) {
    match answer
    case Answered(_, status) => exists j: nat :: Responds(t, n, j, status)
    case Failed(_, EndOfStream) => EndsWaiting(t, n)
    case Failed(_, BadProtocol) => BreaksProtocol(t, n)
    case Failed(_, TooLarge) => Overfills(t, n)
    case _ => false
  }

  /** What the first batch decides. */
  lemma FirstBatchDecides(t: Tunnel)
    requires |t.pending| <= 131072
    ensures StopsWith(t, 0, Awaited(t))
            || (Waited(t, 1) && Pumped(t).outcome == Done && Awaited(t) == Awaited(Pumped(t).tunnel))
  {
    hide Pumped, FirstStatus, AllData, DataOf;
    PumpExactly(t);
    assert t.input[..0] == [] && |AllData([])| == 0 by { NoData(); }
    if t.input != [] && t.input[0].Batch? {
      AllDataOne(t.input);
      var j := FirstStatusIs(t.input[0].events);
      if FirstStatus(t.input[0].events) != [] && Readable(t, 0) {
        assert Responds(t, 0, j, FirstStatus(t.input[0].events)[0]);
      }
    }
  }

  lemma NoData()
    ensures AllData([]) == []
  {
  }

  /** What holds behind an uneventful first batch holds one batch later. */
  lemma WaitedLater(t: Tunnel, n: nat)
    requires |t.pending| <= 131072 && Waited(t, 1) && Waited(Pumped(t).tunnel, n)
    ensures var t' := Pumped(t).tunnel;
            && t'.input == t.input[1..] && !t'.ended && Waited(t, n + 1)
            && (Readable(t', n) ==> Readable(t, n + 1)) && (Overfull(t', n) ==> Overfull(t, n + 1))
  {
    hide Pumped, AllData, DataOf, NoResponse;
    PumpExactly(t);
    assert Uneventful(t.input[0]);
    AllDataOne(t.input);
    AllDataNext(t.input, n);
    if n + 1 < |t.input| {
      AllDataNext(t.input, n + 1);
    }
    forall i | 0 <= i < n + 1
      ensures Uneventful(t.input[i])
    {
      if i > 0 {
        assert Uneventful(t.input[1..][i - 1]);
      }
    }
  }

  lemma StopsLater(t: Tunnel, n: nat, answer: Connecting)
    requires |t.pending| <= 131072 && Waited(t, 1) && StopsWith(Pumped(t).tunnel, n, answer)
    ensures StopsWith(t, n + 1, answer)
  {
    hide Pumped, AllData, Uneventful, NoResponse;
    var t' := Pumped(t).tunnel;
    assert Waited(t', n);
    WaitedLater(t, n);
    if answer.Answered? {
      var j: nat :| Responds(t', n, j, answer.status);
      assert Responds(t, n + 1, j, answer.status);
    }
  }

  /** Wherever the wait stops, its answer is the one of that batch. */
  lemma {:induction false} AwaitStops(t: Tunnel) returns (n: nat)
    requires |t.pending| <= 131072
    ensures StopsWith(t, n, Awaited(t))
    decreases |t.input|
  {
    hide Pumped, StopsWith, Waited, Awaited;
    FirstBatchDecides(t);
    n := 0;
    if !StopsWith(t, 0, Awaited(t)) {
      PumpOutcome(t);
      PumpedWithinCap(t);
      var k := AwaitStops(Pumped(t).tunnel);
      StopsLater(t, k, Awaited(t));
      n := k + 1;
    }
  }

  /** Batch `n` lets the wait go on. */
  predicate Passes(t: Tunnel, n: nat) {
    Readable(t, n) && Uneventful(t.input[n]) && !t.ended
  }

  lemma StopsThere(t: Tunnel, n: nat, answer: Connecting)
    requires StopsWith(t, n, answer)
    ensures Waited(t, n) && !Passes(t, n)
    ensures answer.Answered? ==> Readable(t, n) && !NoResponse(t.input[n].events)
  {
    hide AllData;
    if answer.Answered? {
      var j: nat :| Responds(t, n, j, answer.status);
      assert t.input[n].events[j].Response?;
    }
  }

  lemma WaitedPasses(t: Tunnel, n: nat, m: nat)
    requires Waited(t, m) && n < m
    ensures Passes(t, n)
  {
    hide AllData;
    assert Uneventful(t.input[n]);
    AllDataGrows(t.input, n + 1, m);
  }

  /** The wait stops at one batch only. */
  lemma StopsOnce(t: Tunnel, n: nat, answer: Connecting, m: nat, other: Connecting)
    requires StopsWith(t, n, answer) && StopsWith(t, m, other) && n <= m
    ensures n == m
  {
    hide StopsWith, Waited, Passes, Readable;
    StopsThere(t, n, answer);
    StopsThere(t, m, other);
    if n < m {
      WaitedPasses(t, n, m);
      assert false;
    }
  }

  lemma AnswerIsUnique(t: Tunnel, n: nat, answer: Connecting)
    requires |t.pending| <= 131072 && StopsWith(t, n, answer)
    ensures StopsWith(t, n, Awaited(t))
  {
    hide StopsWith, Awaited;
    var m := AwaitStops(t);
    if n <= m {
      StopsOnce(t, n, answer, m, Awaited(t));
    } else {
      StopsOnce(t, m, Awaited(t), n, answer);
    }
  }

  /** Main result.  The wait answers a status if and only if that is the status
      of the first response, in a batch that could be read and before which the
      stream did not end; one that comes together with the end counts. */
  lemma {:induction false} AnsweredExactly(t: Tunnel, status: nat)
    requires |t.pending| <= 131072
    ensures (Awaited(t).Answered? && Awaited(t).status == status)
            <==> exists n: nat, j: nat :: Responds(t, n, j, status)
  {
    hide Awaited, Waited, Readable;
    if Awaited(t).Answered? && Awaited(t).status == status {
      var n := AwaitStops(t);
      var j: nat :| Responds(t, n, j, status);
    }
    if n: nat, j: nat :| Responds(t, n, j, status) {
      assert StopsWith(t, n, Answered(t, status));
      AnswerIsUnique(t, n, Answered(t, status));
      NotTwice(t, n, j, status, Awaited(t));
    }
  }

  lemma NotBefore(events: seq<Event>, j: nat, k: nat)
    requires k < j <= |events| && NoResponse(events[..j])
    ensures !events[k].Response?
  {
    assert events[..j][k] == events[k];
  }

  lemma NotTwice(t: Tunnel, n: nat, j: nat, status: nat, answer: Connecting)
    requires Responds(t, n, j, status) && StopsWith(t, n, answer)
    ensures answer.Answered? && answer.status == status
  {
    hide AllData, NoResponse;
    var events := t.input[n].events;
    assert !NoResponse(events) by { HasResponse(events, j); }
    if answer.Answered? {
      var k: nat :| Responds(t, n, k, answer.status);
      if k < j {
        NotBefore(events, j, k);
        assert false;
      } else if j < k {
        NotBefore(events, k, j);
        assert false;
      }
    }
  }

  lemma HasResponse(events: seq<Event>, j: nat)
    requires j < |events| && events[j].Response?
    ensures !NoResponse(events)
  {
  }

  /** Main result.  And it fails for exactly one of these reasons: the connection
      ended, or the stream did without a response before or with it; bytes the
      library rejects; data over the cap. */
  lemma {:induction false} WaitFailsExactly(t: Tunnel)
    requires |t.pending| <= 131072
    ensures Awaited(t).Failed? && Awaited(t).outcome == EndOfStream <==> exists n: nat :: EndsWaiting(t, n)
    ensures Awaited(t).Failed? && Awaited(t).outcome == BadProtocol <==> exists n: nat :: BreaksProtocol(t, n)
    ensures Awaited(t).Failed? && Awaited(t).outcome == TooLarge <==> exists n: nat :: Overfills(t, n)
    ensures Awaited(t).Failed? ==> Awaited(t).outcome in {EndOfStream, BadProtocol, TooLarge}
  {
    hide Awaited, Waited, Readable, Overfull, AllData;
    var n := AwaitStops(t);
    if m: nat :| EndsWaiting(t, m) {
      AnswerIsUnique(t, m, Failed(t, EndOfStream));
      OneReason(t, m, Failed(t, EndOfStream), Awaited(t));
    }
    if m: nat :| BreaksProtocol(t, m) {
      AnswerIsUnique(t, m, Failed(t, BadProtocol));
      OneReason(t, m, Failed(t, BadProtocol), Awaited(t));
    }
    if m: nat :| Overfills(t, m) {
      AnswerIsUnique(t, m, Failed(t, TooLarge));
      OneReason(t, m, Failed(t, TooLarge), Awaited(t));
    }
  }

  lemma OneReason(t: Tunnel, n: nat, failure: Connecting, answer: Connecting)
    requires failure.Failed? && StopsWith(t, n, failure) && StopsWith(t, n, answer)
    ensures answer.Failed? && answer.outcome == failure.outcome
  {
    hide AllData;
    StopsThere(t, n, answer);
  }

  // ---- Receiving ---------------------------------------------------------------------

  /** A batch without data and without the end. */
  predicate Empty(incoming: Incoming) {
    incoming.Batch? && DataOf(incoming.events) == [] && Ended !in incoming.events
  }

  function Front(data: Bytes, max: nat): Bytes {
    if |data| <= max then data else data[..max]
  }

  /** The receive stops at batch `n`, behind empty ones, with this outcome. */
  predicate ReceiveStops(t: Tunnel, max: nat, n: nat, outcome: Outcome, data: Bytes) {
    && n <= |t.input| && (forall i :: 0 <= i < n ==> Empty(t.input[i]))
    && if n == |t.input| then outcome == EndOfStream && data == []
       else if t.input[n].Malformed? then outcome == BadProtocol && data == []
       else
         var arrived := DataOf(t.input[n].events);
         if |arrived| > 131072 then outcome == TooLarge && data == []
         else if arrived != [] then outcome == Done && data == Front(arrived, max)
         else Ended in t.input[n].events && outcome == EndOfStream && data == []
  }

  /** Main result.  What a receive gives: the front of the buffer, as much as was
      asked for; with an empty buffer the end if the stream has ended; else what
      the first batch that is not empty gives, which is the front of its data,
      the end, or an error. */
  lemma {:induction false} ReceiveExactly(t: Tunnel, max: nat) returns (n: nat)
    requires |t.pending| <= 131072
    ensures var receipt := Received(t, max);
            if t.pending != [] then
              && receipt.outcome == Done && receipt.data == Front(t.pending, max)
              && receipt.tunnel == t.(pending := t.pending[|receipt.data|..])
            else if t.ended then receipt == Receipt(t, EndOfStream, [])
            else ReceiveStops(t, max, n, receipt.outcome, receipt.data)
    decreases |t.input|
  {
    hide Pumped, DataOf;
    n := 0;
    if t.pending != [] {
      assert t.pending[..|t.pending|] == t.pending;
    } else if !t.ended {
      PumpExactly(t);
      if t.input != [] && t.input[0].Batch? {
        var arrived := DataOf(t.input[0].events);
        assert t.pending + arrived == arrived;
        if |arrived| <= 131072 {
          var t' := Pumped(t).tunnel;
          var k := ReceiveExactly(t', max);
          if Empty(t.input[0]) {
            EmptyFirst(t, t', max, k, Received(t, max).outcome, Received(t, max).data);
            n := k + 1;
          }
        }
      }
    }
  }

  lemma EmptyFirst(t: Tunnel, t': Tunnel, max: nat, n: nat, outcome: Outcome, data: Bytes)
    requires t.input != [] && Empty(t.input[0]) && t'.input == t.input[1..]
    requires ReceiveStops(t', max, n, outcome, data)
    ensures ReceiveStops(t, max, n + 1, outcome, data)
  {
    hide DataOf, Empty;
    forall i | 0 <= i < n + 1
      ensures Empty(t.input[i])
    {
      if i > 0 {
        assert Empty(t'.input[i - 1]);
      }
    }
  }

  // ---- Sending -----------------------------------------------------------------------

  /** How sending so many bytes ends, by windows and batches alone: the window
      is used up and then a batch is read, until the rest fits the window. */
  function Fate(t: Tunnel, left: nat): Outcome
    decreases |t.input|
  {
    var next := Pumped(t.(window := 0));
    PumpReads(t.(window := 0));
    if left == 0 then Done
    else if t.window < 0 then Refused
    else if left <= t.window then Done
    else if t.ended then EndOfStream
    else if next.outcome != Done then next.outcome
    else Fate(next.tunnel, left - t.window)
  }

  lemma {:induction false} FateIgnoresFrames(t: Tunnel, left: nat, frames: seq<Frame>)
    ensures Fate(t.(frames := frames), left) == Fate(t, left)
    decreases |t.input|
  {
    hide Absorb;
    var next := Pumped(t.(window := 0));
    assert Pumped(t.(frames := frames).(window := 0)) == Pump(next.tunnel.(frames := frames), next.outcome);
    if left > t.window >= 0 && next.outcome == Done {
      PumpReads(t.(window := 0));
      FateIgnoresFrames(next.tunnel, left - t.window, frames);
    }
  }

  lemma FateAfterFrame(t: Tunnel, left: nat, chunk: Bytes)
    requires 0 < |chunk| <= left && |chunk| <= t.window
    ensures Fate(Emitted(t, chunk), left - |chunk|) == Fate(t, left)
  {
    hide Absorb;
    var sent := Emitted(t, chunk);
    var a, b := Pumped(sent.(window := 0)), Pumped(t.(window := 0));
    assert a.outcome == b.outcome && a.tunnel == b.tunnel.(frames := sent.frames);
    if a.outcome == Done && t.window < left {
      FateIgnoresFrames(b.tunnel, left - t.window, sent.frames);
    }
  }

  lemma FateNext(t: Tunnel, left: nat)
    requires 0 < left
    ensures t.window < 0 ==> Fate(t, left) == Refused
    ensures t.window == 0 ==>
              Fate(t, left) == if t.ended then EndOfStream
                               else if Pumped(t).outcome != Done then Pumped(t).outcome
                               else Fate(Pumped(t).tunnel, left)
  {
    hide Pumped;
    if t.window == 0 {
      assert t.(window := 0) == t;
    }
  }

  /** Main result.  How a send ends depends on the windows, the batches and the
      number of bytes alone, not on frame limits: it returns normally exactly
      when they are sent before the stream, the connection or the protocol
      fails and before a window falls below zero. */
  lemma {:induction false} SendEndsAsFated(t: Tunnel, item: Bytes, offset: nat)
    requires Usable(t)
    ensures SentFrom(t, item, offset).outcome == Fate(t, if offset < |item| then |item| - offset else 0)
    decreases |t.input|, |item| - offset
  {
    hide Slice, Pumped, SentFrom, Usable, Fate;
    if offset >= |item| {
      SentDone(t, item, offset);
      FateOfNothing(t);
    } else {
      SentNext(t, item, offset);
      PumpStaysUsable(t);
      FateNext(t, |item| - offset);
      if t.window == 0 && !t.ended && Pumped(t).outcome == Done {
        SendEndsAsFated(Pumped(t).tunnel, item, offset);
      } else if t.window > 0 {
        var allowed := Min(t.window, t.maxFrame);
        var chunk := Slice(item, offset, offset + allowed);
        EmittedStaysUsable(t, chunk);
        NextPiece(item, offset, allowed);
        SliceLength(item, offset, allowed);
        SendEndsAsFated(Emitted(t, chunk), item, offset + allowed);
        FateAfterFrame(t, |item| - offset, chunk);
      }
    }
  }

  lemma FateOfNothing(t: Tunnel)
    ensures Fate(t, 0) == Done
  {
  }

  // ---- Steps of a session ------------------------------------------------------------

  /** With credit a push sends the next bytes of the item, as many as window,
      frame limit and item allow, in one frame. */
  lemma PushSendsTheNext(s: Session)
    requires !s.stopped && s.sender.Idle? && s.offset < |s.item| && s.tunnel.window > 0 && s.tunnel.maxFrame > 0
    ensures var n := Min(Min(s.tunnel.window, s.tunnel.maxFrame), |s.item| - s.offset);
            var s' := Next(s, Push);
            && s'.tunnel.frames
               == s.tunnel.frames + [Frame(s.item[s.offset..s.offset + n], s.tunnel.window, s.tunnel.maxFrame)]
            && s'.tunnel.window == s.tunnel.window - n
            && From(s'.item, s'.offset) == s.item[s.offset + n..]
  {
  }

  /** A receive with data in the buffer takes its front. */
  lemma ReceiveTakesTheFront(s: Session, max: nat)
    requires s.receiver.Idle? && s.tunnel.pending != []
    ensures var s' := Next(s, Receive(max));
            s'.taken == s.taken + Front(s.tunnel.pending, max) && s'.ends == s.ends
  {
    assert s.tunnel.pending[..|s.tunnel.pending|] == s.tunnel.pending;
  }
}
