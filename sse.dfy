/** The server-sent event streams (src/api/sse.py): one module-level FIFO queue per
    topic, shared by every open stream of that topic, and the generator loop each
    stream runs. Time is not modelled: a wait that times out is a wait on an empty
    queue, and an event published while a stream waits is a publish before its step. */
module Sse {
  import opened PyValue
  import Text

  /** The comment frame sent when no event arrived within 15 seconds. */
  const KeepAliveFrame := ": keep-alive\n\n"

  /** `f"data: {event}\n\n"`: Python's `str` of the event, not JSON. */
  function DataFrame(event: Val, rp: Reprs): (f: string)
    ensures |f| == |Repr(event, rp)| + 8
    ensures Text.StartsWith(f, "data: ") && f[|f| - 2..] == "\n\n"
    ensures f[6..|f| - 2] == Repr(event, rp)
    ensures f != KeepAliveFrame
  {
    var f := "data: " + Repr(event, rp) + "\n\n";
    assert f[0] == 'd';
    f
  }

  /** What one pass of the generator loop does: the stream ends (the client has
      disconnected), it yields an event, or it yields a keep-alive. */
  datatype Out = End | Data(event: Val) | KeepAlive

  /** The text a yielding pass sends. */
  function Frame(o: Out, rp: Reprs): string
    requires !o.End?
  {
    if o.Data? then DataFrame(o.event, rp) else KeepAliveFrame
  }

  /** One pass of the loop on a queue holding `items`: the disconnect check comes
      first; then the head of the queue is taken, or the wait times out. */
  function Step(items: seq<Val>, disconnected: bool): (r: (Out, seq<Val>))
    ensures disconnected ==> r == (End, items)
    ensures !disconnected && items != [] ==> r == (Data(items[0]), items[1..])
    ensures !disconnected && items == [] ==> r == (KeepAlive, [])
  {
    if disconnected then (End, items)
    else if items != [] then (Data(items[0]), items[1..])
    else (KeepAlive, items)
  }

  /** The frames one stream yields, and the queue it leaves, when `polls` are the
      successive answers of `request.is_disconnected()`; the stream stops at the
      first `true`. */
  function Serve(items: seq<Val>, polls: seq<bool>): (r: (seq<Out>, seq<Val>))
    ensures |r.0| <= |polls|
    ensures forall o :: o in r.0 ==> !o.End?
  {
    if polls == [] || polls[0] then ([], items)
    else
      var (o, rest) := Step(items, false);
      var (outs, left) := Serve(rest, polls[1..]);
      ([o] + outs, left)
  }

  /** The number of passes before the first disconnect. */
  function OpenPasses(polls: seq<bool>): (k: nat)
    ensures k <= |polls|
    ensures forall i :: 0 <= i < k ==> !polls[i]
    ensures k < |polls| ==> polls[k]
  {
    if polls == [] || polls[0] then 0 else 1 + OpenPasses(polls[1..])
  }

  function MinNat(a: nat, b: nat): nat { if a <= b then a else b }

  /** A lone stream on a queue nobody else touches: it yields one frame per pass
      before the disconnect; the first passes deliver the queued events in order and
      the rest are keep-alives; the events it did not reach stay queued. */
  lemma {:induction false} ServeClosedForm(items: seq<Val>, polls: seq<bool>)
    ensures var (outs, rest) := Serve(items, polls);
      var k := OpenPasses(polls);
      && |outs| == k
      && (forall i :: 0 <= i < k ==> outs[i] == if i < |items| then Data(items[i]) else KeepAlive)
      && rest == items[MinNat(k, |items|)..]
  {
    if polls != [] && !polls[0] {
      var (o, rest) := Step(items, false);
      ServeClosedForm(rest, polls[1..]);
      var (outs, left) := Serve(rest, polls[1..]);
      var k := OpenPasses(polls);
      forall i | 0 <= i < k
        ensures ([o] + outs)[i] == if i < |items| then Data(items[i]) else KeepAlive
      {
        if i > 0 {
          assert ([o] + outs)[i] == outs[i - 1];
          if items != [] {
            assert rest == items[1..];
          }
        }
      }
      if items != [] {
        assert rest[MinNat(k - 1, |rest|)..] == items[MinNat(k, |items|)..];
      }
    }
  }

  /** A client that is already gone gets nothing: the generator ends before it
      dequeues anything. */
  lemma DisconnectedFirst(items: seq<Val>, polls: seq<bool>)
    requires polls != [] && polls[0]
    ensures Serve(items, polls) == ([], items)
  {
  }

  /** The two topics; each stream endpoint reads only its own queue. */
  datatype Topic = Stars | Users

  /** The module-level queues `star_event_queue` and `user_event_queue`. */
  class Queues {
    var stars: seq<Val>
    var users: seq<Val>

    constructor ()
      ensures stars == [] && users == []
    {
      stars := [];
      users := [];
    }

    function Items(t: Topic): seq<Val>
      reads this
    {
      if t == Stars then stars else users
    }

    /** One pass of the loop of `stream_stars` (or `stream_users`). */
    method StreamStep(t: Topic, disconnected: bool) returns (o: Out)
      modifies this
      ensures (o, Items(t)) == Step(old(Items(t)), disconnected)
      ensures t == Stars ==> users == old(users)
      ensures t == Users ==> stars == old(stars)
    {
      var r := Step(Items(t), disconnected);
      o := r.0;
      if t == Stars {
        stars := r.1;
      } else {
        users := r.1;
      }
    }

    /** The generator of `stream_stars` (or `stream_users`): `while True`, stop when
        the client has disconnected, otherwise yield a data frame or a keep-alive. */
    method Stream(t: Topic, polls: seq<bool>, rp: Reprs) returns (frames: seq<string>)
      modifies this
      ensures var (outs, rest) := Serve(old(Items(t)), polls);
        && |frames| == |outs|
        && (forall i :: 0 <= i < |outs| ==> frames[i] == Frame(outs[i], rp))
        && Items(t) == rest
      ensures t == Stars ==> users == old(users)
      ensures t == Users ==> stars == old(stars)
    {
      ghost var total := Serve(Items(t), polls);
      frames := [];
      var i := 0;
      while true
        invariant 0 <= i <= |polls| && i <= |total.0|
        invariant Serve(Items(t), polls[i..]) == (total.0[i..], total.1)
        invariant |frames| == i
        invariant forall j :: 0 <= j < i ==> frames[j] == Frame(total.0[j], rp)
        invariant t == Stars ==> users == old(users)
        invariant t == Users ==> stars == old(stars)
        decreases |polls| - i
      {
        if i == |polls| || polls[i] {
          break;
        }
        ghost var before := Items(t);
        var o := StreamStep(t, false);
        assert polls[i..][1..] == polls[i + 1..];
        assert Serve(before, polls[i..]) == ([o] + Serve(Items(t), polls[i + 1..]).0, Serve(Items(t), polls[i + 1..]).1);
        assert total.0[i..][0] == o && total.0[i..][1..] == total.0[i + 1..];
        frames := frames + [Frame(o, rp)];
        i := i + 1;
      }
    }
  }

  /** Several streams on one topic, interleaved: an event is published to the queue,
      or stream `stream` runs one pass of its loop. */
  datatype Action = Publish(event: Val) | Poll(stream: nat, disconnected: bool)

  /** What the streams yield, tagged with the stream, and the queue left over. A
      stream whose generator has ended yields nothing more. */
  function Run(items: seq<Val>, closed: set<nat>, actions: seq<Action>): (r: (seq<(nat, Out)>, seq<Val>))
    decreases |actions|
  {
    if actions == [] then ([], items)
    else
      match actions[0]
      case Publish(e) => Run(items + [e], closed, actions[1..])
      case Poll(s, d) =>
        if s in closed then Run(items, closed, actions[1..])
        else
          var step := Step(items, d);
          var next := Run(step.1, if d then closed + {s} else closed, actions[1..]);
          ([(s, step.0)] + next.0, next.1)
  }

  /** The events the actions publish, in order. */
  function Published(actions: seq<Action>): seq<Val> {
    if actions == [] then []
    else (if actions[0].Publish? then [actions[0].event] else []) + Published(actions[1..])
  }

  /** The events the streams received, in order. */
  function Delivered(outs: seq<(nat, Out)>): seq<Val> {
    if outs == [] then []
    else (if outs[0].1.Data? then [outs[0].1.event] else []) + Delivered(outs[1..])
  }

  /** The queue is single-consumer and FIFO: the events delivered to all streams
      together, followed by those still queued, are exactly the queued and published
      events in order. So every event reaches one stream at most once, and none is
      lost or copied. */
  lemma {:induction false} ExactlyOnce(items: seq<Val>, closed: set<nat>, actions: seq<Action>)
    ensures var (outs, rest) := Run(items, closed, actions);
      Delivered(outs) + rest == items + Published(actions)
    decreases |actions|
  {
    if actions != [] {
      match actions[0]
      case Publish(e) =>
        ExactlyOnce(items + [e], closed, actions[1..]);
      case Poll(s, d) =>
        if s in closed {
          ExactlyOnce(items, closed, actions[1..]);
        } else {
          var step := Step(items, d);
          var closed' := if d then closed + {s} else closed;
          ExactlyOnce(step.1, closed', actions[1..]);
          var next := Run(step.1, closed', actions[1..]);
          assert Run(items, closed, actions) == ([(s, step.0)] + next.0, next.1);
          assert Published(actions) == Published(actions[1..]);
          PollStep(items, d, s, next.0, next.1, Published(actions[1..]));
        }
    }
  }

  /** One pass of an open stream keeps the order: what it takes from the head of the
      queue comes first among the deliveries. */
  lemma PollStep(items: seq<Val>, d: bool, s: nat, outs: seq<(nat, Out)>, rest: seq<Val>, later: seq<Val>)
    requires Delivered(outs) + rest == Step(items, d).1 + later
    ensures Delivered([(s, Step(items, d).0)] + outs) + rest == items + later
  {
    var o := Step(items, d).0;
    DeliveredCons(s, o, outs);
    if o.Data? {
      calc {
        Delivered([(s, o)] + outs) + rest;
        [items[0]] + Delivered(outs) + rest;
        [items[0]] + (Delivered(outs) + rest);
        [items[0]] + (items[1..] + later);
        { assert items == [items[0]] + items[1..]; }
        items + later;
      }
    }
  }

  lemma DeliveredCons(s: nat, o: Out, outs: seq<(nat, Out)>)
    ensures Delivered([(s, o)] + outs) == (if o.Data? then [o.event] else []) + Delivered(outs)
  {
    assert ([(s, o)] + outs)[1..] == outs;
  }

  /** Two open streams, one event: the first stream to run a pass takes it and the
      other gets a keep-alive. The queue does not broadcast. */
  lemma OneEventTwoStreams(e: Val)
    ensures Run([], {}, [Publish(e), Poll(0, false), Poll(1, false)]).0
            == [(0, Data(e)), (1, KeepAlive)]
  {
    var actions := [Publish(e), Poll(0, false), Poll(1, false)];
    assert actions[1..] == [Poll(0, false), Poll(1, false)];
    assert actions[1..][1..] == [Poll(1, false)];
    assert actions[1..][1..][1..] == [];
    var last := Run([], {}, [Poll(1, false)]);
    var want: seq<(nat, Out)> := [(1, KeepAlive)];
    assert last.0 == want;
    var r := Run([e], {}, [Poll(0, false), Poll(1, false)]);
    assert r.0 == [(0, Data(e))] + last.0;
  }

  /** Events published while no stream reads stay queued, and the next stream to run
      a pass receives the oldest of them. */
  lemma QueuedForLater(items: seq<Val>, events: seq<Val>, s: nat)
    requires items + events != []
    ensures Run(items + events, {}, [Poll(s, false)]).0 == [(s, Data((items + events)[0]))]
    ensures Run(items + events, {}, [Poll(s, false)]).1 == (items + events)[1..]
  {
    var q := items + events;
    assert [Poll(s, false)][1..] == [];
    assert Step(q, false) == (Data(q[0]), q[1..]);
    assert Run(q[1..], {}, []) == ([], q[1..]);
    var r := Run(q, {}, [Poll(s, false)]);
    assert |r.0| == 1 && r.0[0] == (s, Data(q[0]));
  }

  /** Once a stream has seen the client disconnect, it yields nothing more. */
  lemma {:induction false} ClosedStaysSilent(items: seq<Val>, closed: set<nat>, actions: seq<Action>, s: nat)
    requires s in closed
    ensures forall i :: 0 <= i < |Run(items, closed, actions).0| ==> Run(items, closed, actions).0[i].0 != s
    decreases |actions|
  {
    if actions != [] {
      match actions[0]
      case Publish(e) =>
        ClosedStaysSilent(items + [e], closed, actions[1..], s);
      case Poll(s', d) =>
        if s' in closed {
          ClosedStaysSilent(items, closed, actions[1..], s);
        } else {
          var (o, rest) := Step(items, d);
          ClosedStaysSilent(rest, if d then closed + {s'} else closed, actions[1..], s);
          var (outs, left) := Run(rest, if d then closed + {s'} else closed, actions[1..]);
          assert Run(items, closed, actions).0 == [(s', o)] + outs;
        }
    }
  }
}
