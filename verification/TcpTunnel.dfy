/** The HTTP/2 tunnel as the program has it: a buffer that is extended and cut
    in place, loops that wait for events, exceptions as outcomes. */
module TcpTunnel {
  import opened Bytes
  import opened H2Flow
  import opened H2Streams

  class H2Connection {
    var input: seq<Incoming>
    var pending: Bytes
    var ended: bool
    var window: int
    var maxFrame: nat
    // The DATA frames handed to the library.
    ghost var frames: seq<Frame>

    ghost function View(): Tunnel
      reads this
    {
      Tunnel(input, pending, ended, window, maxFrame, frames)
    }

    constructor (input: seq<Incoming>, window: int, maxFrame: nat)
      ensures View() == Tunnel(input, [], false, window, maxFrame, [])
    {
      this.input, this.window, this.maxFrame := input, window, maxFrame;
      pending, ended, frames := [], false, [];
    }

    /** One read: handle its events, or stop at the one that overfills. */
    method Frames() returns (outcome: Outcome, events: seq<Event>)
      modifies this
      ensures View() == Pumped(old(View())).tunnel && outcome == Pumped(old(View())).outcome
      ensures outcome == Done ==> old(input) != [] && old(input)[0].Batch? && events == old(input)[0].events
    {
      events := [];
      if input == [] {
        return EndOfStream, events;
      }
      var incoming := input[0];
      input := input[1..];
      if incoming.Malformed? {
        return BadProtocol, events;
      }
      events := incoming.events;
      window := window + incoming.credit;
      maxFrame := incoming.maxFrame;
      var i := 0;
      while i < |events|
        invariant 0 <= i <= |events|
        invariant Absorb(old(pending), old(ended), events) == Absorb(pending, ended, events[i..])
        invariant input == old(input)[1..] && frames == old(frames)
        invariant window == old(window) + incoming.credit && maxFrame == incoming.maxFrame
      {
        assert events[i..][0] == events[i] && events[i..][1..] == events[i + 1..];
        match events[i] {
          case Data(bytes) =>
            pending := pending + bytes;
            if |pending| > CAP {
              return TooLarge, events;
            }
          case Ended => ended := true;
          case _ =>
        }
        i := i + 1;
      }
      return Done, events;
    }

    /** At most `max` bytes, once there are some. */
    method Receive(max: nat) returns (outcome: Outcome, data: Bytes)
      modifies this
      ensures Receipt(View(), outcome, data) == Received(old(View()), max)
    {
      hide Pumped;
      while pending == []
        invariant Received(old(View()), max) == Received(View(), max)
        decreases |input|
      {
        if ended {
          return EndOfStream, [];
        }
        PumpOutcome(View());
        var frames, events := Frames();
        if frames != Done {
          return frames, [];
        }
      }
      var n := if |pending| <= max then |pending| else max;
      data := pending[..n];
      pending := pending[n..];
      outcome := Done;
    }

    /** Send an item in frames within the window and the frame limit. */
    method Send(item: Bytes) returns (outcome: Outcome)
      requires Usable(View())
      modifies this
      ensures Progress(View(), outcome) == SentFrom(old(View()), item, 0)
    {
      hide Pumped, Slice;
      var offset := 0;
      while offset < |item|
        invariant 0 <= offset && Usable(View())
        invariant SentFrom(old(View()), item, 0) == SentFrom(View(), item, offset)
        decreases |input|, |item| - offset
      {
        ghost var before := View();
        PumpStaysUsable(before);
        PumpOutcome(before);
        var allowed := Min(window, maxFrame);
        if allowed == 0 {
          if ended {
            return EndOfStream;
          }
          var read, events := Frames();
          if read != Done {
            return read;
          }
          continue;
        }
        var chunk := Slice(item, offset, offset + allowed);
        if |chunk| > window || |chunk| > maxFrame {
          return Refused;
        }
        EmittedStaysUsable(before, chunk);
        frames := frames + [Frame(chunk, window, maxFrame)];
        window := window - |chunk|;
        assert View() == Emitted(before, chunk);
        offset := offset + allowed;
      }
      outcome := Done;
    }

    /** Wait for the response to CONNECT. */
    method AwaitResponse() returns (answered: bool, status: nat, outcome: Outcome)
      modifies this
      ensures (if answered then Answered(View(), status) else Failed(View(), outcome)) == Awaited(old(View()))
      decreases |input|
    {
      hide Pumped, FirstStatus;
      status := 0;
      answered := false;
      while true
        invariant !answered && Awaited(old(View())) == Awaited(View())
        decreases |input|
      {
        PumpOutcome(View());
        var events;
        outcome, events := Frames();
        if outcome != Done {
          return;
        }
        var found := FirstStatus(events);
        if found != [] {
          answered, status := true, found[0];
          return;
        }
        if ended {
          outcome := EndOfStream;
          return;
        }
      }
    }
  }
}
