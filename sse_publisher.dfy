/** Publishing to the stream queues (src/api/sse_publisher.py): every event is a dict
    `{"type": <kind>, "data": <payload>}` put at the tail of its topic's queue. */
module SsePublisher {
  import opened Wrappers
  import opened PyValue
  import Sse

  /** The event dict `{"type": event_type, "data": data}`. */
  function TypedEvent(kind: string, data: seq<(string, Val)>): (ev: Val)
    ensures ev.VDict? && |ev.items| == 2
  {
    VDict([("type", VStr(kind)), ("data", VDict(data))])
  }

  /** A stream client reads the kind and the payload back out of the event unchanged. */
  lemma TypedEventFields(kind: string, data: seq<(string, Val)>)
    ensures Lookup(TypedEvent(kind, data).items, "type") == Some(VStr(kind))
    ensures Lookup(TypedEvent(kind, data).items, "data") == Some(VDict(data))
  {
    var items := TypedEvent(kind, data).items;
    assert items[1..] == [("data", VDict(data))];
  }

  /** Different kinds or payloads give different events: nothing is lost in wrapping. */
  lemma TypedEventInjective(k1: string, d1: seq<(string, Val)>, k2: string, d2: seq<(string, Val)>)
    requires TypedEvent(k1, d1) == TypedEvent(k2, d2)
    ensures k1 == k2 && d1 == d2
  {
    assert TypedEvent(k1, d1).items[0] == TypedEvent(k2, d2).items[0];
    assert TypedEvent(k1, d1).items[1] == TypedEvent(k2, d2).items[1];
  }

  /** `publish_star_event`: `put` on the unbounded star queue, which does not fail;
      the user queue is not touched. */
  method PublishStarEvent(q: Sse.Queues, kind: string, data: seq<(string, Val)>)
    modifies q
    ensures q.stars == old(q.stars) + [TypedEvent(kind, data)]
    ensures q.users == old(q.users)
  {
    q.stars := q.stars + [TypedEvent(kind, data)];
  }

  /** `publish_user_event`: the same on the user queue. */
  method PublishUserEvent(q: Sse.Queues, kind: string, data: seq<(string, Val)>)
    modifies q
    ensures q.users == old(q.users) + [TypedEvent(kind, data)]
    ensures q.stars == old(q.stars)
  {
    q.users := q.users + [TypedEvent(kind, data)];
  }

  /** A published event reaches a lone open stream after every event queued before it,
      on the pass right after those. */
  lemma {:induction false} PublishedEventServedInOrder(items: seq<Val>, ev: Val, polls: seq<bool>)
    requires |polls| > |items| && forall i :: 0 <= i <= |items| ==> !polls[i]
    ensures |Sse.Serve(items + [ev], polls).0| > |items|
    ensures Sse.Serve(items + [ev], polls).0[|items|] == Sse.Data(ev)
  {
    Sse.ServeClosedForm(items + [ev], polls);
    var k := Sse.OpenPasses(polls);
    assert (items + [ev])[|items|] == ev;
  }
}
