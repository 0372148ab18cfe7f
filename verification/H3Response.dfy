/** The response of the HTTP/3 speed test on values: a future completed by
    events, and the upload that goes before it. */
module H3Response {
  import opened Bytes
  import opened Wrappers

  datatype Content = Headers(status: Option<nat>) | Data(bytes: Bytes) | Other

  /** A message and the clock when it is handled. */
  datatype Message = Message(stream: nat, content: Content, ended: bool, at: int)

  /** An event of the connection: it may end the connection or a stream, and it
      may carry messages. */
  datatype Event = Event(fatal: bool, messages: seq<Message>)

  datatype Failure = Interrupted | BadStatus | TooLarge | NoHeaders

  datatype Future = Pending | Succeeded | Failed(why: Failure)

  datatype Client = Client(
    awaiting: bool,
    future: Future,
    stream: nat,
    limit: nat,
    capture: bool,
    received: nat,
    body: Bytes,
    started: int,
    ttfb: Option<int>)

  /** A client that has just started a request. */
  function Started(stream: nat, limit: nat, capture: bool, at: int): Client {
    Client(true, Pending, stream, limit, capture, 0, [], at, None)
  }

  // ---- The machine -----------------------------------------------------------------

  function Finish(c: Client, ended: bool): Client {
    if !ended then c
    else if c.ttfb.Some? then c.(future := Succeeded)
    else c.(future := Failed(NoHeaders))
  }

  function OnMessage(c: Client, m: Message): Client {
    if !c.awaiting || !c.future.Pending? || m.stream != c.stream then c
    else
      match m.content
      case Headers(Some(status)) =>
        if status < 200 then c
        else if status >= 300 then c.(future := Failed(BadStatus))
        else Finish(c.(ttfb := Some(m.at - c.started)), m.ended)
      case Headers(None) => Finish(c, m.ended)
      case Data(bytes) =>
        var c' := c.(received := c.received + |bytes|);
        if c'.received > c.limit then c'.(future := Failed(TooLarge))
        else Finish(if c.capture then c'.(body := c.body + bytes) else c', m.ended)
      case Other => Finish(c, m.ended)
  }

  /** One thing at a time: the end of the connection, or a message. */
  datatype Item = Broken | Carried(message: Message)

  function OnItem(c: Client, item: Item): Client {
    match item
    case Broken => if c.awaiting && c.future.Pending? then c.(future := Failed(Interrupted)) else c
    case Carried(m) => OnMessage(c, m)
  }

  function OnItems(c: Client, items: seq<Item>): Client {
    if items == [] then c else OnItem(OnItems(c, items[..|items| - 1]), items[|items| - 1])
  }

  function Carry(messages: seq<Message>): seq<Item> {
    seq(|messages|, i requires 0 <= i < |messages| => Carried(messages[i]))
  }

  function ItemsOf(event: Event): seq<Item> {
    (if event.fatal then [Broken] else []) + Carry(event.messages)
  }

  function AllItems(events: seq<Event>): seq<Item> {
    if events == [] then [] else AllItems(events[..|events| - 1]) + ItemsOf(events[|events| - 1])
  }

  // ---- What a good response is -------------------------------------------------------

  predicate Ours(item: Item, stream: nat) {
    item.Carried? && item.message.stream == stream
  }

  /** An interim response: it is skipped whatever else it says (section 4.1 of RFC 9114). */
  predicate Interim(item: Item) {
    item.Carried? && item.message.content.Headers? && item.message.content.status.Some?
    && item.message.content.status.value < 200
  }

  predicate Good(item: Item, stream: nat) {
    Ours(item, stream) && item.message.content.Headers? && item.message.content.status.Some?
    && 200 <= item.message.content.status.value < 300
  }

  predicate Bad(item: Item, stream: nat) {
    item.Broken?
    || (Ours(item, stream) && item.message.content.Headers? && item.message.content.status.Some?
        && item.message.content.status.value >= 300)
  }

  predicate Last(item: Item, stream: nat) {
    Ours(item, stream) && item.message.ended && !Interim(item)
  }

  /** The data of one stream, in order. */
  function DataOf(items: seq<Item>, stream: nat): Bytes {
    if items == [] then []
    else
      var item := items[|items| - 1];
      DataOf(items[..|items| - 1], stream)
      + if Ours(item, stream) && item.message.content.Data? then item.message.content.bytes else []
  }

  predicate AnyGood(items: seq<Item>, stream: nat) {
    exists i :: 0 <= i < |items| && Good(items[i], stream)
  }

  /** When the last good headers came. */
  function HeadersAt(items: seq<Item>, stream: nat): Option<int> {
    if items == [] then None
    else if Good(items[|items| - 1], stream) then Some(items[|items| - 1].message.at)
    else HeadersAt(items[..|items| - 1], stream)
  }

  /** The time from the start of the request to then. */
  function Elapsed(at: Option<int>, started: int): Option<int> {
    if at.Some? then Some(at.value - started) else None
  }

  /** Nothing so far has decided the response. */
  predicate Open(items: seq<Item>, stream: nat, limit: nat) {
    && (forall i :: 0 <= i < |items| ==> !Bad(items[i], stream) && !Last(items[i], stream))
    && |DataOf(items, stream)| <= limit
  }

  /** A good response ends with item `n`: everything before left it open, the
      item ends the stream, there were good headers, and the data fit. */
  predicate EndsWell(items: seq<Item>, n: nat, stream: nat, limit: nat) {
    && n < |items| && Open(items[..n], stream, limit)
    && Last(items[n], stream) && !Bad(items[n], stream)
    && AnyGood(items[..n + 1], stream) && |DataOf(items[..n + 1], stream)| <= limit
  }

  // ---- Machine and definition agree ----------------------------------------------------

  lemma DataOfNext(items: seq<Item>, item: Item, stream: nat)
    ensures DataOf(items + [item], stream) == DataOf(items, stream)
            + if Ours(item, stream) && item.message.content.Data? then item.message.content.bytes else []
  {
    assert (items + [item])[..|items|] == items;
  }

  lemma AnyGoodNext(items: seq<Item>, item: Item, stream: nat)
    ensures AnyGood(items + [item], stream) <==> AnyGood(items, stream) || Good(item, stream)
  {
    var all := items + [item];
    assert forall i :: 0 <= i < |items| ==> all[i] == items[i];
    assert all[|items|] == item;
  }

  lemma HeadersAtNext(items: seq<Item>, item: Item, stream: nat)
    ensures HeadersAt(items + [item], stream)
            == if Good(item, stream) then Some(item.message.at) else HeadersAt(items, stream)
  {
    assert (items + [item])[..|items|] == items;
  }

  lemma {:induction false} HeadersAreGood(items: seq<Item>, stream: nat)
    ensures HeadersAt(items, stream).Some? <==> AnyGood(items, stream)
  {
    if items != [] {
      var front, item := items[..|items| - 1], items[|items| - 1];
      hide Good;
      HeadersAreGood(front, stream);
      assert items == front + [item];
      AnyGoodNext(front, item, stream);
    }
  }

  lemma OpenNext(items: seq<Item>, item: Item, stream: nat, limit: nat)
    ensures Open(items + [item], stream, limit) <==>
            && Open(items, stream, limit) && !Bad(item, stream) && !Last(item, stream)
            && |DataOf(items + [item], stream)| <= limit
  {
    hide Bad, Last, DataOf;
    var all := items + [item];
    DataOfNext(items, item, stream);
    assert forall i :: 0 <= i < |items| ==> all[i] == items[i];
    assert all[|items|] == item;
  }

  /** The fields of a client whose response is still open. */
  ghost predicate Tracks(c: Client, items: seq<Item>, stream: nat, limit: nat, capture: bool, at: int) {
    && c.awaiting && c.stream == stream && c.limit == limit && c.capture == capture
    && c.received == |DataOf(items, stream)|
    && c.body == (if capture then DataOf(items, stream) else [])
    && c.started == at && c.ttfb == Elapsed(HeadersAt(items, stream), at)
  }

  /** What one more item does to an open response. */
  lemma OpenStep(c: Client, items: seq<Item>, item: Item, stream: nat, limit: nat, capture: bool, at: int)
    requires Tracks(c, items, stream, limit, capture, at) && c.future.Pending? && Open(items, stream, limit)
    ensures var c', all := OnItem(c, item), items + [item];
            && (c'.future.Pending? <==> Open(all, stream, limit))
            && (c'.future.Succeeded? <==>
                  Last(item, stream) && !Bad(item, stream) && AnyGood(all, stream) && |DataOf(all, stream)| <= limit)
            && (c'.future.Pending? || c'.future.Succeeded? ==> Tracks(c', all, stream, limit, capture, at))
  {
    assert |DataOf(items, stream)| <= limit;
    hide DataOf, AnyGood, HeadersAt, Open;
    DataOfNext(items, item, stream);
    HeadersAtNext(items, item, stream);
    HeadersAreGood(items + [item], stream);
    OpenNext(items, item, stream, limit);
    assert DataOf(items, stream) + [] == DataOf(items, stream);
  }

  lemma DoneStays(c: Client, item: Item)
    requires !c.future.Pending?
    ensures OnItem(c, item) == c
  {
  }

  lemma {:induction false} OpenIsPending(items: seq<Item>, stream: nat, limit: nat, capture: bool, at: int)
    ensures var c := OnItems(Started(stream, limit, capture, at), items);
            && (c.future.Pending? <==> Open(items, stream, limit))
            && (c.future.Pending? ==> Tracks(c, items, stream, limit, capture, at))
  {
    if items != [] {
      hide OnItem, Open, Tracks;
      var front, item := items[..|items| - 1], items[|items| - 1];
      var c := OnItems(Started(stream, limit, capture, at), front);
      OpenIsPending(front, stream, limit, capture, at);
      assert items == front + [item];
      if c.future.Pending? {
        OpenStep(c, front, item, stream, limit, capture, at);
      } else {
        DoneStays(c, item);
        OpenNext(front, item, stream, limit);
      }
    }
  }

  /** Main result.  In every sequence of events a request succeeds exactly when
      a good response ends somewhere in it; the bytes counted and captured are
      then those of its own stream up to there, within the limit, whatever
      other streams carried and whatever came later, and the time to the first
      byte is that of its last good headers. */
  lemma {:induction false} SucceedsExactlyWhenGood(items: seq<Item>, stream: nat, limit: nat, capture: bool, at: int)
    ensures var c := OnItems(Started(stream, limit, capture, at), items);
            && (c.future.Succeeded? <==> exists n: nat :: EndsWell(items, n, stream, limit))
            && (forall n: nat :: EndsWell(items, n, stream, limit) ==>
                  && c.received == |DataOf(items[..n + 1], stream)| <= limit
                  && c.ttfb == Elapsed(HeadersAt(items[..n + 1], stream), at)
                  && c.body == if capture then DataOf(items[..n + 1], stream) else [])
  {
    hide OnItem, DataOf, AnyGood, HeadersAt, Open, Last, Bad;
    if items == [] {
    } else {
      var front, item := items[..|items| - 1], items[|items| - 1];
      var c := OnItems(Started(stream, limit, capture, at), front);
      SucceedsExactlyWhenGood(front, stream, limit, capture, at);
      OpenIsPending(front, stream, limit, capture, at);
      assert items == front + [item] && items[..|front| + 1] == items && items[..|front|] == front;
      forall n: nat | n < |front|
        ensures EndsWell(items, n, stream, limit) <==> EndsWell(front, n, stream, limit)
        ensures items[..n + 1] == front[..n + 1]
      {
        assert items[..n] == front[..n] && items[..n + 1] == front[..n + 1] && items[n] == front[n];
      }
      if c.future.Pending? {
        OpenStep(c, front, item, stream, limit, capture, at);
        NoneEndedWell(front, stream, limit);
        assert OnItem(c, item).future.Succeeded? <==> EndsWell(items, |front|, stream, limit);
      } else {
        DoneStays(c, item);
        assert !EndsWell(items, |front|, stream, limit);
        if n: nat :| EndsWell(front, n, stream, limit) {
          assert EndsWell(items, n, stream, limit);
        }
      }
    }
  }

  lemma NoneEndedWell(items: seq<Item>, stream: nat, limit: nat)
    requires Open(items, stream, limit)
    ensures forall n: nat :: !EndsWell(items, n, stream, limit)
  {
    hide DataOf, AnyGood, Last, Bad;
  }

  // ---- What failures mean --------------------------------------------------------------

  /** Item `n` is the first to decide the response, and it decides it badly. */
  predicate EndsBadly(items: seq<Item>, n: nat, stream: nat, limit: nat, why: Failure) {
    && n < |items| && Open(items[..n], stream, limit)
    && match why
       case Interrupted => items[n].Broken?
       case BadStatus => items[n].Carried? && Bad(items[n], stream)
       case TooLarge => |DataOf(items[..n + 1], stream)| > limit
       case NoHeaders =>
         && Last(items[n], stream) && !Bad(items[n], stream) && |DataOf(items[..n + 1], stream)| <= limit
         && !AnyGood(items[..n + 1], stream)
  }

  lemma OpenFails(c: Client, items: seq<Item>, item: Item, stream: nat, limit: nat, capture: bool, at: int,
                  why: Failure)
    requires Tracks(c, items, stream, limit, capture, at) && c.future.Pending? && Open(items, stream, limit)
    ensures OnItem(c, item).future == Failed(why) <==> EndsBadly(items + [item], |items|, stream, limit, why)
  {
    assert |DataOf(items, stream)| <= limit;
    hide DataOf, AnyGood, HeadersAt, Open;
    var all := items + [item];
    assert all[..|items|] == items && all[..|items| + 1] == all && all[|items|] == item;
    DataOfNext(items, item, stream);
    HeadersAtNext(items, item, stream);
    HeadersAreGood(all, stream);
  }

  lemma NoneEndedBadly(items: seq<Item>, stream: nat, limit: nat, n: nat, why: Failure)
    requires Open(items, stream, limit)
    ensures !EndsBadly(items, n, stream, limit, why)
  {
    hide AnyGood, Last, Bad;
    if n < |items| {
      DataGrows(items, n + 1, stream);
      assert !Bad(items[n], stream) && !Last(items[n], stream);
      BrokenIsBad(items[n], stream);
    }
  }

  lemma BrokenIsBad(item: Item, stream: nat)
    ensures item.Broken? ==> Bad(item, stream)
  {
  }

  lemma {:induction false} DataGrows(items: seq<Item>, n: nat, stream: nat)
    requires n <= |items|
    ensures |DataOf(items[..n], stream)| <= |DataOf(items, stream)|
  {
    if n < |items| {
      var front := items[..|items| - 1];
      DataGrows(front, n, stream);
      assert front[..n] == items[..n];
    } else {
      assert items[..n] == items;
    }
  }

  /** Main result.  In every sequence of events a request fails for a reason if
      and only if that is what first decides it: the connection or a stream was
      interrupted, its own status was 300 or more, its data passed the limit, or
      its stream ended without good headers. */
  lemma {:induction false} FailsExactly(items: seq<Item>, stream: nat, limit: nat, capture: bool, at: int, why: Failure)
    ensures OnItems(Started(stream, limit, capture, at), items).future == Failed(why)
            <==> exists n: nat :: EndsBadly(items, n, stream, limit, why)
  {
    hide OnItem, EndsBadly, Open, Tracks;
    if items == [] {
      NothingEndsBadly(stream, limit, why);
    } else {
      var front, item := items[..|items| - 1], items[|items| - 1];
      var c := OnItems(Started(stream, limit, capture, at), front);
      FailsExactly(front, stream, limit, capture, at, why);
      OpenIsPending(front, stream, limit, capture, at);
      assert items == front + [item];
      forall n: nat
        ensures EndsBadly(items, n, stream, limit, why) <==>
                  EndsBadly(front, n, stream, limit, why)
                  || (n == |front| && EndsBadly(items, n, stream, limit, why))
      {
        BadlyInFront(front, item, n, stream, limit, why);
      }
      if c.future.Pending? {
        OpenFails(c, front, item, stream, limit, capture, at, why);
        forall n: nat
          ensures !EndsBadly(front, n, stream, limit, why)
        {
          NoneEndedBadly(front, stream, limit, n, why);
        }
      } else {
        DoneStays(c, item);
        NotOpenBefore(items, |front|, stream, limit, why);
      }
    }
  }

  lemma NothingEndsBadly(stream: nat, limit: nat, why: Failure)
    ensures forall n: nat :: !EndsBadly([], n, stream, limit, why)
  {
  }

  lemma NotOpenBefore(items: seq<Item>, n: nat, stream: nat, limit: nat, why: Failure)
    requires n <= |items| && !Open(items[..n], stream, limit)
    ensures !EndsBadly(items, n, stream, limit, why)
  {
    hide Open;
  }

  lemma BadlyInFront(front: seq<Item>, item: Item, n: nat, stream: nat, limit: nat, why: Failure)
    ensures EndsBadly(front + [item], n, stream, limit, why) <==>
              EndsBadly(front, n, stream, limit, why)
              || (n == |front| && EndsBadly(front + [item], n, stream, limit, why))
  {
    hide Open, Bad, Last, AnyGood, DataOf;
    if n < |front| {
      var all := front + [item];
      assert all[..n] == front[..n] && all[..n + 1] == front[..n + 1] && all[n] == front[n];
    }
  }

  /** Main result.  Once the future is completed, no event changes the result. */
  lemma {:induction false} DoneIsFinal(c: Client, items: seq<Item>)
    requires !c.future.Pending?
    ensures OnItems(c, items) == c
  {
    if items != [] {
      DoneIsFinal(c, items[..|items| - 1]);
    }
  }

  lemma {:induction false} OnItemsAppend(c: Client, a: seq<Item>, b: seq<Item>)
    ensures OnItems(c, a + b) == OnItems(OnItems(c, a), b)
    decreases |b|
  {
    if b == [] {
      assert a + b == a;
    } else {
      OnItemsAppend(c, a, b[..|b| - 1]);
      assert (a + b)[..|a + b| - 1] == a + b[..|b| - 1];
    }
  }

  // ---- Upload --------------------------------------------------------------------------

  const BLOCK: nat := 65536

  datatype Chunk = Chunk(size: nat, endStream: bool)

  /** The chunks of an upload from an offset on. */
  function ChunksFrom(upload: nat, offset: nat): seq<Chunk>
    decreases upload - offset
  {
    if offset >= upload then []
    else [Chunk(if upload - offset < BLOCK then upload - offset else BLOCK, offset + BLOCK >= upload)]
         + ChunksFrom(upload, offset + BLOCK)
  }

  function Total(chunks: seq<Chunk>): nat {
    if chunks == [] then 0 else chunks[0].size + Total(chunks[1..])
  }

  /** Main result.  The chunks add up to the upload, all but the last are 65536
      bytes, the last is not empty, and exactly the last one ends the stream. */
  lemma {:induction false} UploadIsExact(upload: nat, offset: nat)
    requires offset <= upload
    ensures var chunks := ChunksFrom(upload, offset);
            && Total(chunks) == upload - offset
            && (forall i :: 0 <= i < |chunks| ==> 1 <= chunks[i].size <= 65536)
            && (forall i :: 0 <= i < |chunks| - 1 ==> chunks[i].size == 65536)
            && (forall i :: 0 <= i < |chunks| ==> (chunks[i].endStream <==> i == |chunks| - 1))
            && (upload > offset ==> chunks != [])
    decreases upload - offset
  {
    if offset + BLOCK < upload {
      UploadIsExact(upload, offset + BLOCK);
      var chunks, rest := ChunksFrom(upload, offset), ChunksFrom(upload, offset + BLOCK);
      assert chunks == [chunks[0]] + rest && chunks[1..] == rest;
    } else if offset < upload {
      assert ChunksFrom(upload, offset + BLOCK) == [];
      assert ChunksFrom(upload, offset)[1..] == [];
    }
  }
}
