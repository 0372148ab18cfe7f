/** The HTTP/3 client as the program has it: fields changed by the event
    handler while a request loops over the chunks of its upload. */
module Http3Client {
  import opened Bytes
  import opened H3Response
  import opened Wrappers

  datatype Result =
    | Report(bytes: nat, body: Bytes, ttfb: Option<int>, elapsed: int)
    | Error(why: Failure)
    | EarlyReply
    | Timeout

  /** How the handing over of an upload ends. */
  datatype Upload = Complete | CutShort | OutOfTime

  class Session {
    var awaiting: bool
    var future: Future
    var stream: nat
    var limit: nat
    var capture: bool
    var received: nat
    var body: Bytes
    var started: int
    var ttfb: Option<int>
    // Every chunk handed to the stream of the current request.
    ghost var uploaded: seq<Chunk>

    ghost function View(): Client
      reads this
    {
      Client(awaiting, future, stream, limit, capture, received, body, started, ttfb)
    }

    constructor ()
      ensures !awaiting
    {
      awaiting, future, stream, limit, capture := false, Pending, 0, 0, false;
      received, body, started, ttfb, uploaded := 0, [], 0, None, [];
    }

    /** Complete the future, which must not be complete yet. */
    method SetResult(outcome: Future)
      requires future.Pending?
      modifies this`future
      ensures future == outcome
    {
      future := outcome;
    }

    method QuicEventReceived(event: Event)
      modifies this
      ensures View() == OnItems(old(View()), ItemsOf(event)) && uploaded == old(uploaded)
    {
      hide OnItem, OnMessage, OnItems, ItemsOf;
      ghost var items := ItemsOf(event);
      ghost var handled := if event.fatal then 1 else 0;
      ItemsParts(old(View()), event);
      if event.fatal {
        if awaiting && future.Pending? {
          SetResult(Failed(Interrupted));
        }
        BrokenItem(old(View()));
        NextItem(old(View()), items, 0);
      }
      var i := 0;
      while i < |event.messages|
        invariant 0 <= i <= |event.messages|
        invariant View() == OnItems(old(View()), items[..handled + i]) && uploaded == old(uploaded)
      {
        NextItem(old(View()), items, handled + i);
        CarriedItem(View(), event.messages[i]);
        OnHttpMessage(event.messages[i]);
        i := i + 1;
      }
    }

    method OnHttpMessage(m: Message)
      modifies this
      ensures View() == OnMessage(old(View()), m) && uploaded == old(uploaded)
    {
      if !awaiting || !future.Pending? || m.stream != stream {
        return;
      }
      match m.content {
        case Headers(status) =>
          if status.Some? {
            if status.value < 200 {
              return;
            }
            if status.value >= 300 {
              SetResult(Failed(BadStatus));
              return;
            }
            ttfb := Some(m.at - started);
          }
        case Data(bytes) =>
          received := received + |bytes|;
          if received > limit {
            SetResult(Failed(TooLarge));
            return;
          }
          if capture {
            body := body + bytes;
          }
        case Other =>
      }
      if m.ended {
        if ttfb.None? {
          SetResult(Failed(NoHeaders));
        } else {
          SetResult(Succeeded);
        }
      }
    }

    method HandleAll(events: seq<Event>)
      modifies this
      ensures View() == OnItems(old(View()), AllItems(events)) && uploaded == old(uploaded)
    {
      hide OnItem, ItemsOf;
      var i := 0;
      while i < |events|
        invariant 0 <= i <= |events|
        invariant View() == OnItems(old(View()), AllItems(events[..i])) && uploaded == old(uploaded)
      {
        QuicEventReceived(events[i]);
        assert events[..i + 1][..i] == events[..i];
        OnItemsAppend(old(View()), AllItems(events[..i]), ItemsOf(events[i]));
        i := i + 1;
      }
      assert events[..|events|] == events;
    }

    /** A request.  The events of `turns[i]` arrive while the loop yields after
        chunk `i`, those of `waiting` while it awaits the response at the end;
        when they run out the time is up.  Chunks are handed over until the
        response is there; a report needs all of them. */
    method Request(freeStream: nat, upload: nat, limit: nat, capture: bool,
                   turns: seq<seq<Event>>, waiting: seq<Event>, startedAt: int, endedAt: int) returns (result: Result)
      modifies this
      ensures !awaiting
      ensures uploaded <= ChunksFrom(upload, 0) && (result.Report? ==> uploaded == ChunksFrom(upload, 0))
      ensures PendingUntil(Started(freeStream, limit, capture, startedAt), turns, |uploaded|)
      ensures result == Outcome(Started(freeStream, limit, capture, startedAt), |uploaded|, |ChunksFrom(upload, 0)|,
                                turns, waiting, endedAt - startedAt)
    {
      hide OnItems, AllItems, ChunksFrom, Arrived, Outcome, PendingUntil;
      stream, this.limit, this.capture := freeStream, limit, capture;
      awaiting, future := true, Pending;
      received, body, started, ttfb := 0, [], startedAt, None;
      ghost var start := View();
      var end := HandOver(upload, turns);
      if end != Complete {
        EarlyOutcome(start, View(), |uploaded|, |ChunksFrom(upload, 0)|, turns, waiting, endedAt - startedAt);
        result := if end == OutOfTime then Timeout else if future.Failed? then Error(future.why) else EarlyReply;
        awaiting := false;
        return;
      }
      HandleAll(waiting);
      FullOutcome(start, View(), |uploaded|, turns, waiting, endedAt - startedAt);
      match future {
        case Pending => result := Timeout;
        case Failed(why) => result := Error(why);
        case Succeeded => result := Report(received, body, ttfb, endedAt - started);
      }
      awaiting := false;
    }

    /** The upload: all chunks, or those up to an early response or the end of
        the time. */
    method HandOver(upload: nat, turns: seq<seq<Event>>) returns (end: Upload)
      requires future.Pending?
      modifies this
      ensures uploaded <= ChunksFrom(upload, 0) && PendingUntil(old(View()), turns, |uploaded|)
      ensures end == OutOfTime <==> |uploaded| > |turns|
      ensures end != OutOfTime ==> View() == OnItems(old(View()), Arrived(turns[..|uploaded|]))
      ensures end == Complete ==> uploaded == ChunksFrom(upload, 0)
      ensures end == CutShort ==> |uploaded| < |ChunksFrom(upload, 0)| && !future.Pending?
    {
      hide OnItems, AllItems, ChunksFrom, Arrived, Uploaded, PendingUntil;
      ghost var start := View();
      uploaded := [];
      UploadBegins(upload);
      NonePending(start, turns);
      var offset, turn := 0, 0;
      while offset < upload
        invariant 0 <= offset && turn == |uploaded| <= |turns|
        invariant Uploaded(uploaded, upload, offset)
        invariant View() == OnItems(start, Arrived(turns[..|uploaded|]))
        invariant PendingUntil(start, turns, |uploaded|)
        invariant offset < upload ==> future.Pending?
        decreases upload - offset
      {
        var size := if upload - offset < BLOCK then upload - offset else BLOCK;
        UploadNext(uploaded, upload, offset);
        PendingNext(start, turns, turn);
        uploaded := uploaded + [Chunk(size, offset + BLOCK >= upload)];
        UploadedPrefix(uploaded, upload, offset + BLOCK);
        if turn == |turns| {
          return OutOfTime;
        }
        HandleAll(turns[turn]);
        ArrivedNext(start, turns, turn);
        turn := turn + 1;
        if !future.Pending? && offset + BLOCK < upload {
          UploadUnfinished(uploaded, upload, offset + BLOCK);
          return CutShort;
        }
        offset := offset + BLOCK;
      }
      UploadDone(uploaded, upload, offset);
      end := Complete;
    }
  }

  /** The response was still open after each turn but perhaps the last. */
  predicate PendingUntil(start: Client, turns: seq<seq<Event>>, handed: nat) {
    forall k :: 0 < k < handed && k <= |turns| ==> OnItems(start, Arrived(turns[..k])).future.Pending?
  }

  lemma NonePending(start: Client, turns: seq<seq<Event>>)
    ensures PendingUntil(start, turns, 0) && OnItems(start, Arrived(turns[..0])) == start
  {
  }

  lemma PendingNext(start: Client, turns: seq<seq<Event>>, handed: nat)
    requires PendingUntil(start, turns, handed)
    requires 0 < handed <= |turns| ==> OnItems(start, Arrived(turns[..handed])).future.Pending?
    ensures PendingUntil(start, turns, handed + 1)
  {
  }

  lemma {:induction false} StartedStays(c: Client, items: seq<Item>)
    ensures OnItems(c, items).started == c.started
  {
    if items != [] {
      StartedStays(c, items[..|items| - 1]);
    }
  }

  /** What a request makes of the events after handing over some of its chunks. */
  function Outcome(start: Client, handed: nat, all: nat, turns: seq<seq<Event>>, waiting: seq<Event>,
                   elapsed: int): Result {
    if handed > |turns| then Timeout
    else
      var c := OnItems(start, Arrived(turns[..handed]) + if handed == all then AllItems(waiting) else []);
      match c.future
      case Pending => Timeout
      case Failed(why) => Error(why)
      case Succeeded => if handed == all then Report(c.received, c.body, c.ttfb, elapsed) else EarlyReply
  }

  ghost predicate IsGood(items: seq<Item>, stream: nat, limit: nat) {
    exists n: nat :: EndsWell(items, n, stream, limit)
  }

  ghost predicate IsBad(items: seq<Item>, stream: nat, limit: nat, why: Failure) {
    exists n: nat :: EndsBadly(items, n, stream, limit, why)
  }

  /** What had arrived when a good response ended. */
  predicate Reports(report: Result, items: seq<Item>, stream: nat, capture: bool, startedAt: int, elapsed: int) {
    report == Report(|DataOf(items, stream)|, if capture then DataOf(items, stream) else [],
                     Elapsed(HeadersAt(items, stream), startedAt), elapsed)
  }

  /** Main result.  What the result of a request means, after it has handed over
      some of its chunks: a report needs all of them and a good response, and
      carries what arrived up to its end; an early reply is a good response
      before the last chunk; an error says what first decided the response
      badly; the time is up when nothing decides it. */
  lemma OutcomeMeans(stream: nat, limit: nat, capture: bool, startedAt: int, handed: nat, all: nat,
                     turns: seq<seq<Event>>, waiting: seq<Event>, elapsed: int, items: seq<Item>)
    requires handed <= |turns|
    requires items == Arrived(turns[..handed]) + if handed == all then AllItems(waiting) else []
    ensures var result := Outcome(Started(stream, limit, capture, startedAt), handed, all, turns, waiting, elapsed);
            && (result.Report? <==> handed == all && IsGood(items, stream, limit))
            && (forall n: nat :: result.Report? && EndsWell(items, n, stream, limit) ==>
                  Reports(result, items[..n + 1], stream, capture, startedAt, elapsed))
            && (result == EarlyReply <==> handed != all && IsGood(items, stream, limit))
            && (forall why :: result == Error(why) <==> IsBad(items, stream, limit, why))
            && (result == Timeout <==> Open(items, stream, limit))
  {
    hide OnItems, Arrived, AllItems, EndsWell, EndsBadly, Open, DataOf, HeadersAt;
    SucceedsExactlyWhenGood(items, stream, limit, capture, startedAt);
    OpenIsPending(items, stream, limit, capture, startedAt);
    var c := OnItems(Started(stream, limit, capture, startedAt), items);
    assert c.future.Succeeded? <==> IsGood(items, stream, limit);
    forall why: Failure
      ensures c.future == Failed(why) <==> IsBad(items, stream, limit, why)
    {
      FailsExactly(items, stream, limit, capture, startedAt, why);
    }
  }

  lemma OutOfTimeMeans(start: Client, handed: nat, all: nat, turns: seq<seq<Event>>, waiting: seq<Event>, elapsed: int)
    requires handed > |turns|
    ensures Outcome(start, handed, all, turns, waiting, elapsed) == Timeout
  {
  }

  /** The body of an upload over HTTP/1.1 or HTTP/2, block by block. */
  method Body(upload: nat) returns (sizes: seq<nat>)
    ensures |sizes| == |ChunksFrom(upload, 0)|
    ensures forall i :: 0 <= i < |sizes| ==> sizes[i] == ChunksFrom(upload, 0)[i].size
  {
    hide ChunksFrom;
    ghost var chunks: seq<Chunk> := [];
    UploadBegins(upload);
    sizes := [];
    var offset := 0;
    while offset < upload
      invariant 0 <= offset && Uploaded(chunks, upload, offset)
      invariant |sizes| == |chunks| && forall i :: 0 <= i < |sizes| ==> sizes[i] == chunks[i].size
      decreases upload - offset
    {
      var size := if upload - offset < BLOCK then upload - offset else BLOCK;
      UploadNext(chunks, upload, offset);
      chunks := chunks + [Chunk(size, offset + BLOCK >= upload)];
      sizes := sizes + [size];
      offset := offset + BLOCK;
    }
    UploadDone(chunks, upload, offset);
  }

  /** The chunks of an upload handed over up to an offset. */
  predicate Uploaded(chunks: seq<Chunk>, upload: nat, offset: nat) {
    chunks + ChunksFrom(upload, offset) == ChunksFrom(upload, 0)
  }

  lemma UploadBegins(upload: nat)
    ensures Uploaded([], upload, 0)
  {
    assert [] + ChunksFrom(upload, 0) == ChunksFrom(upload, 0);
  }

  lemma UploadNext(chunks: seq<Chunk>, upload: nat, offset: nat)
    requires offset < upload && Uploaded(chunks, upload, offset)
    ensures var size := if upload - offset < BLOCK then upload - offset else BLOCK;
            Uploaded(chunks + [Chunk(size, offset + BLOCK >= upload)], upload, offset + BLOCK)
  {
    var size := if upload - offset < BLOCK then upload - offset else BLOCK;
    var chunk, rest := Chunk(size, offset + BLOCK >= upload), ChunksFrom(upload, offset + BLOCK);
    assert ChunksFrom(upload, offset) == [chunk] + rest;
    assert chunks + [chunk] + rest == chunks + ([chunk] + rest);
  }

  lemma UploadDone(chunks: seq<Chunk>, upload: nat, offset: nat)
    requires offset >= upload && Uploaded(chunks, upload, offset)
    ensures chunks == ChunksFrom(upload, 0)
  {
    assert chunks + [] == chunks;
  }

  lemma UploadedPrefix(chunks: seq<Chunk>, upload: nat, offset: nat)
    requires Uploaded(chunks, upload, offset)
    ensures chunks <= ChunksFrom(upload, 0)
  {
  }

  lemma UploadUnfinished(chunks: seq<Chunk>, upload: nat, offset: nat)
    requires offset < upload && Uploaded(chunks, upload, offset)
    ensures |chunks| < |ChunksFrom(upload, 0)|
  {
    assert |ChunksFrom(upload, offset)| > 0;
  }

  lemma EarlyOutcome(start: Client, c: Client, handed: nat, all: nat, turns: seq<seq<Event>>, waiting: seq<Event>,
                     elapsed: int)
    requires handed > |turns|
             || (handed < all && c == OnItems(start, Arrived(turns[..handed])) && !c.future.Pending?)
    ensures Outcome(start, handed, all, turns, waiting, elapsed)
            == if handed > |turns| then Timeout else if c.future.Failed? then Error(c.future.why) else EarlyReply
  {
    hide OnItems, Arrived;
    if handed <= |turns| {
      assert Arrived(turns[..handed]) + [] == Arrived(turns[..handed]);
    }
  }

  lemma FullOutcome(start: Client, c: Client, all: nat, turns: seq<seq<Event>>, waiting: seq<Event>, elapsed: int)
    requires all <= |turns| && c == OnItems(OnItems(start, Arrived(turns[..all])), AllItems(waiting))
    ensures c.started == start.started
    ensures Outcome(start, all, all, turns, waiting, elapsed)
            == match c.future
               case Pending => Timeout
               case Failed(why) => Error(why)
               case Succeeded => Report(c.received, c.body, c.ttfb, elapsed)
  {
    OnItemsAppend(start, Arrived(turns[..all]), AllItems(waiting));
    StartedStays(start, Arrived(turns[..all]) + AllItems(waiting));
  }

  /** The items of several turns. */
  function Arrived(turns: seq<seq<Event>>): seq<Item> {
    if turns == [] then [] else Arrived(turns[..|turns| - 1]) + AllItems(turns[|turns| - 1])
  }

  lemma ArrivedNext(c: Client, turns: seq<seq<Event>>, turn: nat)
    requires turn < |turns|
    ensures OnItems(c, Arrived(turns[..turn + 1])) == OnItems(OnItems(c, Arrived(turns[..turn])), AllItems(turns[turn]))
  {
    assert turns[..turn + 1][..turn] == turns[..turn];
    OnItemsAppend(c, Arrived(turns[..turn]), AllItems(turns[turn]));
  }

  /** The items of an event: its end of the connection, then its messages. */
  lemma ItemsParts(c: Client, event: Event)
    ensures var items, handled := ItemsOf(event), if event.fatal then 1 else 0;
            && |items| == handled + |event.messages| && items[..|items|] == items
            && (event.fatal ==> items[0] == Broken)
            && (forall i :: 0 <= i < |event.messages| ==> items[handled + i] == Carried(event.messages[i]))
            && OnItems(c, items[..0]) == c
  {
  }

  lemma BrokenItem(c: Client)
    ensures OnItem(c, Broken) == if c.awaiting && c.future.Pending? then c.(future := Failed(Interrupted)) else c
  {
  }

  lemma CarriedItem(c: Client, m: Message)
    ensures OnItem(c, Carried(m)) == OnMessage(c, m)
  {
  }

  lemma NextItem(c: Client, items: seq<Item>, i: nat)
    requires i < |items|
    ensures OnItems(c, items[..i + 1]) == OnItem(OnItems(c, items[..i]), items[i])
  {
    assert items[..i + 1][..i] == items[..i];
  }
}
