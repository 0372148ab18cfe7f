/** The HTTP/2 CONNECT tunnel on values: a capped buffer filled by events, and
    a send loop that waits for flow control.

    The HTTP/2 library is an environment: every read of the connection hands
    over a batch of events and may change the window (by any amount, section
    6.9.2 of RFC 9113 lets it fall below zero) and the frame limit.  Sending
    data the library refuses when they exceed the window or the limit. */
module H2Flow {
  import opened Bytes

  datatype Event = Data(bytes: Bytes) | Ended | Response(status: nat) | Other

  /** What one read gives: a batch, or bytes the library rejects. */
  datatype Incoming = Batch(events: seq<Event>, credit: int, maxFrame: nat) | Malformed

  const CAP: nat := 131072

  /** A DATA frame, with the window and frame limit when it was sent. */
  datatype Frame = Frame(bytes: Bytes, window: int, maxFrame: nat)

  datatype Tunnel = Tunnel(
    input: seq<Incoming>,
    pending: Bytes,
    ended: bool,
    window: int,
    maxFrame: nat,
    frames: seq<Frame>)

  datatype Outcome = Done | EndOfStream | TooLarge | BadProtocol | Refused

  /** Frame limits are never zero (section 6.5.2 of RFC 9113). */
  predicate Usable(t: Tunnel) {
    t.maxFrame > 0 && forall i :: 0 <= i < |t.input| && t.input[i].Batch? ==> t.input[i].maxFrame > 0
  }

  // ---- Reading -----------------------------------------------------------------

  datatype Absorbed = Absorbed(pending: Bytes, ended: bool, fits: bool)

  /** Handle the events of a batch up to one that overfills the buffer. */
  function Absorb(pending: Bytes, ended: bool, events: seq<Event>): Absorbed
    decreases |events|
  {
    if events == [] then Absorbed(pending, ended, true)
    else
      match events[0]
      case Data(bytes) =>
        if |pending| + |bytes| > CAP then Absorbed(pending + bytes, ended, false)
        else Absorb(pending + bytes, ended, events[1..])
      case Ended => Absorb(pending, true, events[1..])
      case _ => Absorb(pending, ended, events[1..])
  }

  datatype Pump = Pump(tunnel: Tunnel, outcome: Outcome)

  /** One read of the connection with everything that follows without waiting. */
  function Pumped(t: Tunnel): Pump {
    if t.input == [] then Pump(t, EndOfStream)
    else if t.input[0].Malformed? then Pump(t.(input := t.input[1..]), BadProtocol)
    else
      var batch := t.input[0];
      var absorbed := Absorb(t.pending, t.ended, batch.events);
      var t' := t.(input := t.input[1..], pending := absorbed.pending, ended := absorbed.ended,
                   window := t.window + batch.credit, maxFrame := batch.maxFrame);
      Pump(t', if absorbed.fits then Done else TooLarge)
  }

  function DataOf(events: seq<Event>): Bytes {
    if events == [] then []
    else (if events[0].Data? then events[0].bytes else []) + DataOf(events[1..])
  }

  /** All data in a stretch of input. */
  function AllData(input: seq<Incoming>): Bytes {
    if input == [] then []
    else (if input[0].Batch? then DataOf(input[0].events) else []) + AllData(input[1..])
  }

  predicate Prefix(a: Bytes, b: Bytes) {
    |a| <= |b| && a == b[..|a|]
  }

  lemma {:induction false} AbsorbFacts(pending: Bytes, ended: bool, events: seq<Event>)
    ensures var absorbed := Absorb(pending, ended, events);
            && (absorbed.fits ==> absorbed.pending == pending + DataOf(events))
            && (absorbed.fits && |pending| <= CAP ==> |absorbed.pending| <= CAP)
            && (absorbed.fits ==> (absorbed.ended <==> ended || Ended in events))
            && (!absorbed.fits ==> |absorbed.pending| > CAP && Prefix(absorbed.pending, pending + DataOf(events)))
    decreases |events|
  {
    if events != [] {
      var first, rest := events[0], events[1..];
      assert events == [first] + rest;
      var next := if first.Data? then pending + first.bytes else pending;
      AbsorbFacts(next, ended || first.Ended?, rest);
      assert next + DataOf(rest) == pending + DataOf(events);
      if first.Data? && |next| > CAP {
        assert (pending + DataOf(events))[..|next|] == next;
      }
    } else {
      assert pending + [] == pending;
    }
  }

  // ---- Receiving -----------------------------------------------------------------

  datatype Receipt = Receipt(tunnel: Tunnel, outcome: Outcome, data: Bytes)

  function Taken(t: Tunnel, max: nat): Receipt {
    var n := if |t.pending| <= max then |t.pending| else max;
    Receipt(t.(pending := t.pending[n..]), Done, t.pending[..n])
  }

  /** Read until there is data or the stream has ended, then take some. */
  function Received(t: Tunnel, max: nat): Receipt
    decreases |t.input|
  {
    if t.pending != [] then Taken(t, max)
    else if t.ended then Receipt(t, EndOfStream, [])
    else
      var pump := Pumped(t);
      if pump.outcome != Done then Receipt(pump.tunnel, pump.outcome, []) else Received(pump.tunnel, max)
  }

  // ---- Sending -------------------------------------------------------------------

  function Min(a: int, b: int): int {
    if a <= b then a else b
  }

  datatype Progress = Progress(tunnel: Tunnel, outcome: Outcome)

  /** A slice that may reach over the end or, counted from the end, below zero. */
  function Slice(item: Bytes, low: nat, high: int): Bytes {
    var to := if high < 0 then Min(high + |item|, |item|) else Min(high, |item|);
    if low < to then item[low..to] else []
  }

  /** The send loop from an offset on. */
  function SentFrom(t: Tunnel, item: Bytes, offset: nat): Progress
    requires Usable(t)
    decreases |t.input|, |item| - offset
  {
    if offset >= |item| then Progress(t, Done)
    else
      var allowed := Min(t.window, t.maxFrame);
      if allowed == 0 then
        if t.ended then Progress(t, EndOfStream)
        else
          var pump := Pumped(t);
          if pump.outcome != Done then Progress(pump.tunnel, pump.outcome)
          else SentFrom(pump.tunnel, item, offset)
      else
        var chunk := Slice(item, offset, offset + allowed);
        if |chunk| > t.window || |chunk| > t.maxFrame then Progress(t, Refused)
        else SentFrom(Emitted(t, chunk), item, offset + allowed)
  }

  function Emitted(t: Tunnel, chunk: Bytes): Tunnel {
    t.(frames := t.frames + [Frame(chunk, t.window, t.maxFrame)], window := t.window - |chunk|)
  }

  function Emission(frames: seq<Frame>): Bytes {
    if frames == [] then [] else Emission(frames[..|frames| - 1]) + frames[|frames| - 1].bytes
  }

  predicate WithinCredit(frames: seq<Frame>) {
    forall i :: 0 <= i < |frames| ==> 0 < |frames[i].bytes| <= Min(frames[i].window, frames[i].maxFrame)
  }

  lemma EmissionNext(frames: seq<Frame>, frame: Frame)
    ensures Emission(frames + [frame]) == Emission(frames) + frame.bytes
  {
    assert (frames + [frame])[..|frames|] == frames;
  }

  /** The bytes of an item behind an offset, none when it lies past the end. */
  function From(item: Bytes, offset: nat): Bytes {
    if offset <= |item| then item[offset..] else []
  }

  /** With a positive allowance the slice is the next piece and is not refused. */
  lemma NextPiece(item: Bytes, offset: nat, allowed: int)
    requires offset < |item| && 0 < allowed
    ensures var chunk := Slice(item, offset, offset + allowed);
            0 < |chunk| <= allowed && chunk + From(item, offset + allowed) == From(item, offset)
  {
  }

  /** How the loop goes on: it waits and reads, or sends the next piece, or
      stops where it is. */
  lemma SentNext(t: Tunnel, item: Bytes, offset: nat)
    requires Usable(t) && offset < |item|
    ensures var allowed, progress := Min(t.window, t.maxFrame), SentFrom(t, item, offset);
            && (t.window < 0 ==> progress == Progress(t, Refused))
            && (t.window == 0 && !t.ended && Pumped(t).outcome == Done ==>
                  progress == SentFrom(Pumped(t).tunnel, item, offset))
            && (t.window == 0 && (t.ended || Pumped(t).outcome != Done) ==>
                  && progress == (if t.ended then Progress(t, EndOfStream)
                                  else Progress(Pumped(t).tunnel, Pumped(t).outcome))
                  && progress.tunnel.frames == t.frames && progress.outcome !in {Done, Refused})
            && (t.window > 0 ==>
                  progress == SentFrom(Emitted(t, Slice(item, offset, offset + allowed)), item, offset + allowed))
  {
    hide Slice, Pumped;
    PumpStaysUsable(t);
    if t.window > 0 {
      NextPiece(item, offset, Min(t.window, t.maxFrame));
    }
  }

  lemma {:induction false} LosslessFrom(t: Tunnel, item: Bytes, offset: nat, whole: Bytes)
    requires Usable(t) && whole == Emission(t.frames) + From(item, offset)
    ensures var progress := SentFrom(t, item, offset);
            && Prefix(Emission(progress.tunnel.frames), whole)
            && (progress.outcome == Done ==> Emission(progress.tunnel.frames) == whole)
    decreases |t.input|, |item| - offset
  {
    hide Slice, Emission, Pumped, SentFrom, From, Usable, Prefix;
    SoFar(t, item, offset, whole);
    if offset < |item| {
      SentNext(t, item, offset);
      PumpStaysUsable(t);
      if t.window == 0 && !t.ended && Pumped(t).outcome == Done {
        LosslessFrom(Pumped(t).tunnel, item, offset, whole);
      } else if t.window > 0 {
        var allowed := Min(t.window, t.maxFrame);
        EmittedStaysUsable(t, Slice(item, offset, offset + allowed));
        PieceMoves(t, item, offset);
        LosslessFrom(Emitted(t, Slice(item, offset, offset + allowed)), item, offset + allowed, whole);
      }
    }
  }

  lemma SentDone(t: Tunnel, item: Bytes, offset: nat)
    requires Usable(t) && offset >= |item|
    ensures SentFrom(t, item, offset) == Progress(t, Done)
  {
  }

  lemma SoFar(t: Tunnel, item: Bytes, offset: nat, whole: Bytes)
    requires Usable(t) && whole == Emission(t.frames) + From(item, offset)
    ensures Prefix(Emission(t.frames), whole)
    ensures offset >= |item| ==> SentFrom(t, item, offset) == Progress(t, Done) && whole == Emission(t.frames)
  {
    hide Emission;
  }

  /** Sending a piece moves it from the rest of the item to what was sent. */
  lemma PieceMoves(t: Tunnel, item: Bytes, offset: nat)
    requires offset < |item| && 0 < Min(t.window, t.maxFrame)
    ensures var allowed := Min(t.window, t.maxFrame);
            var sent := Emitted(t, Slice(item, offset, offset + allowed));
            Emission(sent.frames) + From(item, offset + allowed) == Emission(t.frames) + From(item, offset)
  {
    hide Slice, Emission, From;
    var allowed := Min(t.window, t.maxFrame);
    var chunk := Slice(item, offset, offset + allowed);
    NextPiece(item, offset, allowed);
    EmissionNext(t.frames, Frame(chunk, t.window, t.maxFrame));
    assert Emission(t.frames) + chunk + From(item, offset + allowed)
        == Emission(t.frames) + (chunk + From(item, offset + allowed));
  }

  /** Main result.  Whatever windows, limits and events come in between, the
      data sent are always a prefix of the item, and all of it when the loop
      ends normally. */
  lemma SendIsLossless(t: Tunnel, item: Bytes)
    requires Usable(t) && t.frames == []
    ensures var progress := SentFrom(t, item, 0);
            && Prefix(Emission(progress.tunnel.frames), item)
            && (progress.outcome == Done ==> Emission(progress.tunnel.frames) == item)
  {
    hide SentFrom;
    assert Emission([]) + From(item, 0) == item;
    LosslessFrom(t, item, 0, item);
  }

  /** Main result.  Every frame carries data and exceeds neither the window nor
      the frame limit at its time (sections 5.2 and 6.9.1 of RFC 9113). */
  lemma {:induction false} SendStaysWithinCredit(t: Tunnel, item: Bytes, offset: nat)
    requires Usable(t) && WithinCredit(t.frames)
    ensures WithinCredit(SentFrom(t, item, offset).tunnel.frames)
    decreases |t.input|, |item| - offset
  {
    hide Slice, Pumped, SentFrom, Usable, WithinCredit;
    if offset >= |item| {
      SentDone(t, item, offset);
    } else {
      SentNext(t, item, offset);
      PumpStaysUsable(t);
      if t.window == 0 && !t.ended && Pumped(t).outcome == Done {
        SendStaysWithinCredit(Pumped(t).tunnel, item, offset);
      } else if t.window > 0 {
        var allowed := Min(t.window, t.maxFrame);
        EmittedStaysUsable(t, Slice(item, offset, offset + allowed));
        PieceIsWithinCredit(t, item, offset);
        SendStaysWithinCredit(Emitted(t, Slice(item, offset, offset + allowed)), item, offset + allowed);
      }
    }
  }

  lemma PieceIsWithinCredit(t: Tunnel, item: Bytes, offset: nat)
    requires offset < |item| && 0 < Min(t.window, t.maxFrame) && WithinCredit(t.frames)
    ensures WithinCredit(Emitted(t, Slice(item, offset, offset + Min(t.window, t.maxFrame))).frames)
  {
    hide Slice;
    NextPiece(item, offset, Min(t.window, t.maxFrame));
  }

  // ---- Negative windows ----------------------------------------------------------

  /** With so many bytes left to send, the window falls below zero before they
      are all sent: it is below zero now, or it is used up, the next read
      succeeds, and this holds of the bytes then left. */
  predicate GoesNegative(t: Tunnel, left: nat)
    decreases |t.input|
  {
    var next := Pumped(t.(window := 0));
    PumpReads(t.(window := 0));
    && 0 < left && t.window < left
    && (t.window < 0
        || (!t.ended && next.outcome == Done && GoesNegative(next.tunnel, left - t.window)))
  }

  /** Nothing ever takes an empty window below zero. */
  predicate NeverNegative(t: Tunnel) {
    t.window >= 0 && forall i :: 0 <= i < |t.input| && t.input[i].Batch? ==> t.input[i].credit >= 0
  }

  /** Main result.  The loop waits for a window of zero but not for a negative
      one: data are refused exactly when window and batches make the window
      negative while some are left. */
  lemma {:induction false} RefusedOnNegativeWindow(t: Tunnel, item: Bytes, offset: nat)
    requires Usable(t)
    ensures SentFrom(t, item, offset).outcome == Refused <==>
              offset < |item| && GoesNegative(t, |item| - offset)
    decreases |t.input|, |item| - offset
  {
    hide Slice, Pumped;
    if offset < |item| {
      hide SentFrom, Usable, GoesNegative;
      SentNext(t, item, offset);
      PumpStaysUsable(t);
      NegativeNext(t, |item| - offset);
      if t.window == 0 && !t.ended && Pumped(t).outcome == Done {
        RefusedOnNegativeWindow(Pumped(t).tunnel, item, offset);
      } else if t.window > 0 {
        var allowed := Min(t.window, t.maxFrame);
        var chunk := Slice(item, offset, offset + allowed);
        EmittedStaysUsable(t, chunk);
        NextPiece(item, offset, allowed);
        RefusedOnNegativeWindow(Emitted(t, chunk), item, offset + allowed);
        SliceLength(item, offset, allowed);
        if offset + allowed < |item| {
          NegativeAfterFrame(t, |item| - offset, chunk);
        } else {
          NotNegative(t, |item| - offset);
        }
      }
    }
  }

  lemma SliceLength(item: Bytes, offset: nat, allowed: nat)
    requires offset < |item|
    ensures |Slice(item, offset, offset + allowed)| == Min(allowed, |item| - offset)
  {
  }

  lemma NegativeNext(t: Tunnel, left: nat)
    requires 0 < left
    ensures t.window < 0 ==> GoesNegative(t, left)
    ensures t.window == 0 ==>
              (GoesNegative(t, left) <==>
                 !t.ended && Pumped(t).outcome == Done && GoesNegative(Pumped(t).tunnel, left))
  {
    hide Pumped;
    PumpReads(t);
    if t.window == 0 {
      assert t.(window := 0) == t;
    }
  }

  lemma NotNegative(t: Tunnel, left: nat)
    requires t.window >= left
    ensures !GoesNegative(t, left)
  {
  }

  /** A frame within the window leaves the later windows as they were. */
  lemma NegativeAfterFrame(t: Tunnel, left: nat, chunk: Bytes)
    requires 0 < |chunk| < left && |chunk| <= t.window
    ensures GoesNegative(Emitted(t, chunk), left - |chunk|) <==> GoesNegative(t, left)
  {
    hide Absorb;
    var sent := Emitted(t, chunk);
    var a, b := Pumped(sent.(window := 0)), Pumped(t.(window := 0));
    assert a.outcome == b.outcome && a.tunnel == b.tunnel.(frames := sent.frames);
    if a.outcome == Done && t.window < left {
      FramesDoNotMatter(b.tunnel, left - t.window, sent.frames);
    }
  }

  lemma {:induction false} FramesDoNotMatter(t: Tunnel, left: nat, frames: seq<Frame>)
    ensures GoesNegative(t.(frames := frames), left) <==> GoesNegative(t, left)
    decreases |t.input|
  {
    hide Absorb;
    var next := Pumped(t.(window := 0));
    assert Pumped(t.(frames := frames).(window := 0)) == Pump(next.tunnel.(frames := frames), next.outcome);
    if 0 <= t.window < left && next.outcome == Done {
      PumpReads(t.(window := 0));
      FramesDoNotMatter(next.tunnel, left - t.window, frames);
    }
  }

  lemma PumpReads(t: Tunnel)
    ensures Pumped(t).outcome == Done ==> |Pumped(t).tunnel.input| < |t.input|
  {
    hide Absorb;
  }

  /** Main result.  While neither the first window nor any change of it is
      negative, nothing is refused. */
  lemma NothingRefused(t: Tunnel, item: Bytes, offset: nat)
    requires Usable(t) && NeverNegative(t)
    ensures SentFrom(t, item, offset).outcome != Refused
  {
    hide SentFrom, GoesNegative, NeverNegative;
    RefusedOnNegativeWindow(t, item, offset);
    if offset < |item| {
      StaysPositive(t, |item| - offset);
    }
  }

  lemma {:induction false} StaysPositive(t: Tunnel, left: nat)
    requires NeverNegative(t)
    ensures !GoesNegative(t, left)
    decreases |t.input|
  {
    hide Absorb;
    var next := Pumped(t.(window := 0));
    if t.window < left && next.outcome == Done {
      StaysPositive(next.tunnel, left - t.window);
    }
  }

  /** Two bytes, a window of one, and settings that take the window below zero. */
  lemma RefusedExample()
    ensures var t := Tunnel([Batch([Other], -1, 16384)], [], false, 1, 16384, []);
            Usable(t) && SentFrom(t, [5, 6], 0).outcome == Refused
  {
    var batch := Batch([Other], -1, 16384);
    var t := Tunnel([batch], [], false, 1, 16384, []);
    hide SentFrom;
    RefusedOnNegativeWindow(t, [5, 6], 0);
    var next := Pumped(t.(window := 0));
    assert Absorb([], false, [Other]) == Absorbed([], false, true) by { assert [Other][1..] == []; }
    assert next.outcome == Done && next.tunnel.window == -1;
    assert GoesNegative(next.tunnel, 1);
  }

  lemma EmittedStaysUsable(t: Tunnel, chunk: Bytes)
    requires Usable(t)
    ensures Usable(Emitted(t, chunk)) && t.maxFrame > 0
  {
  }

  lemma PumpStaysUsable(t: Tunnel)
    requires Usable(t)
    ensures Usable(Pumped(t).tunnel) && Pumped(t).tunnel.frames == t.frames
    ensures Pumped(t).outcome != Refused
    ensures Pumped(t).outcome == Done ==> |Pumped(t).tunnel.input| < |t.input|
  {
    hide Absorb;
  }
}
