/**
  The event batcher: `post(data)` appends an event to the post queue and sends
  the whole queue as one batch once it holds more than 100 events, or when it is
  called with no data and the queue is not empty. The queue is emptied only on a
  literal "OK" reply; any other reply leaves it as it was, to be re-sent with the
  next batch. The endpoint's replies are a finite script.
 */
module Batcher {
  import opened Wrappers

  /** One outgoing event, the dict posted for a commit. */
  datatype Event = Event(system: string, timestamp: string, username: string,
                         data: string, isUtc: bool, tzinfo: string)

  /** One batch sent to the endpoint and the endpoint's reply to it. */
  datatype Delivery = Delivery(batch: seq<Event>, reply: string)

  /** The post queue, the replies the endpoint has yet to give, and the log of
      batches sent so far. */
  datatype Outbox = Outbox(queue: seq<Event>, replies: seq<string>, sent: seq<Delivery>)

  const Threshold := 100
  const Success := "OK"

  /** The endpoint's next reply; once the script is used up it answers with an
      empty body, which is not a success. */
  function NextReply(replies: seq<string>): string
  {
    if replies == [] then "" else replies[0]
  }

  function RestReplies(replies: seq<string>): seq<string>
  {
    if replies == [] then [] else replies[1..]
  }

  /** The send condition of `post`, on the queue after the append. */
  predicate ShouldSend(queue: seq<Event>, data: Option<Event>)
  {
    |queue| > Threshold || (|queue| > 0 && data.None?)
  }

  function Appended(queue: seq<Event>, data: Option<Event>): seq<Event>
  {
    if data.Some? then queue + [data.value] else queue
  }

  /** `rejected` is true where `post` returns `False`. */
  datatype PostResult = PostResult(outbox: Outbox, rejected: bool)

  /** `post(data)`, with `None` for a call without data. */
  function Post(o: Outbox, data: Option<Event>): PostResult
  {
    var queue := Appended(o.queue, data);
    if ShouldSend(queue, data) then
      var reply := NextReply(o.replies);
      var sent := o.sent + [Delivery(queue, reply)];
      if reply == Success then PostResult(Outbox([], RestReplies(o.replies), sent), false)
      else PostResult(Outbox(queue, RestReplies(o.replies), sent), true)
    else PostResult(Outbox(queue, o.replies, o.sent), false)
  }

  /** The events `post` is called with, one call per event, in order. */
  function PostAll(o: Outbox, events: seq<Event>): Outbox
    decreases |events|
  {
    if events == [] then o
    else Post(PostAll(o, events[..|events| - 1]), Some(events[|events| - 1])).outbox
  }

  /** The events the endpoint has acknowledged: the batches answered "OK", in order. */
  function Acked(sent: seq<Delivery>): seq<Event>
    decreases |sent|
  {
    if sent == [] then []
    else
      var last := sent[|sent| - 1];
      Acked(sent[..|sent| - 1]) + (if last.reply == Success then last.batch else [])
  }

  /** A call sends exactly one batch, the whole queue after the append, exactly
      when the queue then exceeds 100 events or the call carries no data and the
      queue is not empty; otherwise nothing is sent and the reply script is
      untouched. */
  lemma PostSends(o: Outbox, data: Option<Event>)
    ensures var r := Post(o, data);
      var queue := if data.Some? then o.queue + [data.value] else o.queue;
      if |queue| > 100 || (|queue| > 0 && data.None?) then
        r.outbox.sent == o.sent + [Delivery(queue, NextReply(o.replies))]
        && r.outbox.replies == RestReplies(o.replies)
      else
        r.outbox.sent == o.sent && r.outbox.replies == o.replies
        && r.outbox.queue == queue && !r.rejected
  {
  }

  /** After a send the queue is emptied exactly when the reply is "OK"; any
      other reply keeps the whole batch queued and the call returns `False`. */
  lemma PostClearsOnlyOnOk(o: Outbox, data: Option<Event>)
    requires |Post(o, data).outbox.sent| > |o.sent|
    ensures var r := Post(o, data);
      var last := r.outbox.sent[|r.outbox.sent| - 1];
      (last.reply == "OK" ==> r.outbox.queue == [] && !r.rejected)
      && (last.reply != "OK" ==> r.outbox.queue == last.batch && r.rejected)
  {
  }

  /** No event is lost or reordered: what the endpoint acknowledged followed by
      what is still queued is what it had before plus the new event. */
  lemma PostConserves(o: Outbox, data: Option<Event>)
    ensures var r := Post(o, data).outbox;
      Acked(r.sent) + r.queue == Acked(o.sent) + o.queue + (if data.Some? then [data.value] else [])
  {
    var r := Post(o, data).outbox;
    var queue := Appended(o.queue, data);
    if ShouldSend(queue, data) {
      assert r.sent[..|r.sent| - 1] == o.sent;
    }
  }

  lemma {:induction false} PostAllConserves(o: Outbox, events: seq<Event>)
    ensures var r := PostAll(o, events);
      Acked(r.sent) + r.queue == Acked(o.sent) + o.queue + events
    decreases |events|
  {
    if events != [] {
      var init := events[..|events| - 1];
      PostAllConserves(o, init);
      PostConserves(PostAll(o, init), Some(events[|events| - 1]));
      assert init + [events[|events| - 1]] == events;
    }
  }

  /** Posting two runs of events one after the other is posting them joined. */
  lemma {:induction false} PostAllAppend(o: Outbox, a: seq<Event>, b: seq<Event>)
    ensures PostAll(o, a + b) == PostAll(PostAll(o, a), b)
    decreases |b|
  {
    if b == [] {
      assert a + b == a;
    } else {
      var init := b[..|b| - 1];
      assert (a + b)[..|a + b| - 1] == a + init;
      PostAllAppend(o, a, init);
    }
  }

  /** Up to 100 queued events, nothing is sent. */
  lemma {:induction false} NoSendUpToThreshold(o: Outbox, events: seq<Event>)
    requires |o.queue| + |events| <= 100
    ensures PostAll(o, events) == Outbox(o.queue + events, o.replies, o.sent)
    decreases |events|
  {
    if events != [] {
      var init := events[..|events| - 1];
      NoSendUpToThreshold(o, init);
      assert init + [events[|events| - 1]] == events;
    }
  }

  /** From an empty queue, the 101st event triggers exactly one send, of all 101. */
  lemma SendAtThreshold(o: Outbox, events: seq<Event>)
    requires o.queue == [] && |events| == 101
    ensures PostAll(o, events).sent == o.sent + [Delivery(events, NextReply(o.replies))]
  {
    var init := events[..100];
    NoSendUpToThreshold(o, init);
    assert events[..|events| - 1] == init;
    assert o.queue + init + [events[100]] == events;
  }

  /** A queue of at most 100 events stays at most 100 after one `post` whose
      reply, if it sends, is "OK". */
  lemma QueueBoundedWhenAcked(o: Outbox, e: Event)
    requires |o.queue| <= 100 && o.replies != [] && o.replies[0] == "OK"
    ensures |Post(o, Some(e)).outbox.queue| <= 100
  {
  }
}
