/** The star endpoints of the older single-file service (src/database_service.py):
    its copy of the brightness decay, `add_star`, `like_star`, `remove_star` and
    `remove_all_stars`. Its module-level `star_event_queue` and `user_event_queue`
    are a `Sse.Queues` object of their own, and its events are `{"event": ..., "star":
    {...}}` dicts put on them directly. */
module Monolith {
  import opened Wrappers
  import opened PyValue
  import opened TableStore
  import StarModel
  import StarViews
  import Popularity
  import Text
  import Sse
  import SsePublisher
  import Admin

  // ---------------------------------------------------------------------------
  // Brightness decay

  /** This file's own `calculate_current_brightness`, with the clock reading `now`
      and `math.exp` as parameters: the same formula, written out again. */
  function CalculateCurrentBrightness(exp: real -> real, baseBrightness: real, lastLiked: real, now: real): (r: real)
    ensures r >= 20.0
  {
    var timeSinceLiked := now - lastLiked;
    var decayFactor := StarModel.Max(0.01, 1.0 - 0.01 * timeSinceLiked);
    StarModel.Max(20.0, baseBrightness * exp(-decayFactor * timeSinceLiked))
  }

  /** The copy computes the same brightness as the star model for every base, last
      like and clock reading. */
  lemma DecayCopiesAgree(exp: real -> real, baseBrightness: real, lastLiked: real, now: real)
    ensures CalculateCurrentBrightness(exp, baseBrightness, lastLiked, now)
         == StarModel.CurrentBrightness(exp, baseBrightness, lastLiked, now)
  {
    var t := now - lastLiked;
    var x := StarModel.Exponent(t);
    StarModel.AtElapsed(exp, baseBrightness, now, t, x);
    CopyAtElapsed(exp, baseBrightness, now, t, x);
    assert now - t == lastLiked;
  }

  /** The copy's brightness `t` seconds after the last like, in terms of the
      exponent's magnitude `x` at `t`. */
  lemma CopyAtElapsed(exp: real -> real, baseBrightness: real, now: real, t: real, x: real)
    requires StarModel.Exponent(t) == x
    ensures CalculateCurrentBrightness(exp, baseBrightness, now - t, now) == StarModel.Max(20.0, baseBrightness * exp(-x))
  {
    assert now - (now - t) == t;
    assert StarModel.Max(0.01, 1.0 - 0.01 * t) == StarModel.DecayFactor(t);
    assert -StarModel.Max(0.01, 1.0 - 0.01 * t) * t == -x;
  }

  // ---------------------------------------------------------------------------
  // Events

  /** The dict this file puts on its star queue: `{"event": kind, "star": payload}`. */
  function Event(kind: string, star: seq<(string, Val)>): (ev: Val)
    ensures ev.VDict? && |ev.items| == 2
  {
    VDict([("event", VStr(kind)), ("star", VDict(star))])
  }

  /** A stream client reads the kind and the star back out of the event; the event
      has no "type" key, so it does not have the `{"type", "data"}` shape the
      publisher of the modular service gives its events. */
  lemma EventFields(kind: string, star: seq<(string, Val)>)
    ensures Lookup(Event(kind, star).items, "event") == Some(VStr(kind))
    ensures Lookup(Event(kind, star).items, "star") == Some(VDict(star))
    ensures Lookup(Event(kind, star).items, "type").None?
    ensures Event(kind, star) != SsePublisher.TypedEvent(kind, star)
  {
    var items := Event(kind, star).items;
    assert items[1..] == [("star", VDict(star))];
    assert items[0].0 != SsePublisher.TypedEvent(kind, star).items[0].0 by {
      assert "event"[0] != "type"[0];
    }
  }

  /** The "remove_all" event is the only one without a "star" key. */
  lemma RemoveAllEventHasNoStar()
    ensures Lookup(Admin.RemoveAllEvent.items, "event") == Some(VStr("remove_all"))
    ensures Lookup(Admin.RemoveAllEvent.items, "star").None?
    ensures forall kind, star :: Admin.RemoveAllEvent != Event(kind, star)
  {
    assert "event" != "star" by { assert "event"[0] != "star"[0]; }
  }

  // ---------------------------------------------------------------------------
  // add_star

  /** How a request's `brightness` field arrives: left out, sent as null, or sent
      as a number. */
  datatype Sent = Omitted | Null | Given(value: real)

  /** The value pydantic gives the field: `Optional[float] = 100.0`, so a left-out
      field is 100.0 and a null is None. */
  function BrightnessField(sent: Sent): (r: Option<real>)
    ensures r.None? <==> sent.Null?
    ensures sent.Omitted? ==> r == Some(100.0)
    ensures sent.Given? ==> r == Some(sent.value)
  {
    match sent
    case Omitted => Some(100.0)
    case Null => None
    case Given(v) => Some(v)
  }

  /** The `star_entity` of `add_star` for the clock reading `now`, its month (as
      `strftime('%Y%m')` writes it) and a fresh uuid: the request's id and
      brightness are not used. */
  function AddedEntity(s: StarModel.Star, now: real, yyyymm: string, uuid: string): (e: Entity)
    ensures Keyed(e) && KeyOf(e) == ("STAR_" + yyyymm, uuid)
  {
    map[
      "PartitionKey" := VStr("STAR_" + yyyymm),
      "RowKey" := VStr(uuid),
      "X" := VNum(s.x),
      "Y" := VNum(s.y),
      "Message" := VStr(s.message),
      "Brightness" := VNum(100.0),
      "LastLiked" := VNum(now),
      "CreatedAt" := VNum(now)
    ]
  }

  /** The "star" of the "add" event: the new RowKey, the request's coordinates,
      message and brightness field, and the clock reading. */
  function AddPayload(s: StarModel.Star, now: real, uuid: string): seq<(string, Val)> {
    [("id", VStr(uuid)), ("x", VNum(s.x)), ("y", VNum(s.y)), ("message", VStr(s.message)),
     ("brightness", StarModel.OptNum(s.brightness)), ("last_liked", VNum(now))]
  }

  /** The stored brightness is always 100, while the "add" event reports the
      request's field: the two agree exactly when the field was left out or sent
      as 100. */
  lemma AddEventBrightness(sent: Sent, s: StarModel.Star, now: real, yyyymm: string, uuid: string)
    requires s.brightness == BrightnessField(sent)
    ensures AddedEntity(s, now, yyyymm, uuid)["Brightness"] == VNum(100.0)
    ensures Lookup(AddPayload(s, now, uuid), "brightness") == Some(StarModel.OptNum(s.brightness))
    ensures StarModel.OptNum(s.brightness) == AddedEntity(s, now, yyyymm, uuid)["Brightness"]
      <==> sent == Omitted || sent == Given(100.0)
  {
    var p := AddPayload(s, now, uuid);
    assert p[4] == ("brightness", StarModel.OptNum(s.brightness));
    assert p[..4] == [p[0], p[1], p[2], p[3]];
    assert forall j :: 0 <= j < 4 ==> p[j].0 != "brightness" by {
      assert "id"[0] != "brightness"[0] && "x"[0] != "brightness"[0];
      assert "y"[0] != "brightness"[0] && "message"[0] != "brightness"[0];
    }
  }

  /** Against the modular `add_star`: the same partition, coordinates, message and
      timestamps; the same RowKey only when the request had no id (the modular one
      keeps a non-empty id); the same Brightness only when the request's field gives
      100 there. */
  lemma AddedVsModular(s: StarModel.Star, now: real, yyyymm: string, uuid: string)
    ensures var e := AddedEntity(s, now, yyyymm, uuid);
      var m := StarViews.NewStarEntity(s, now, yyyymm, uuid);
      && e.Keys == m.Keys
      && (forall k :: k in ["PartitionKey", "X", "Y", "Message", "LastLiked", "CreatedAt"] ==> e[k] == m[k])
      && (s.id.None? || s.id.value == "" ==> e["RowKey"] == m["RowKey"])
      && (s.id.Some? && s.id.value != "" && s.id.value != uuid ==> e["RowKey"] != m["RowKey"])
      && (e["Brightness"] == m["Brightness"] <==> StarModel.RealOr(s.brightness, 100.0) == 100.0)
  {
  }

  /** `POST /stars`: a request the Star validators refuse never reaches the handler
      (422). `create_entity` raising (a duplicate uuid or a service failure) is not
      caught (500) and publishes nothing. */
  method AddStar(stars: Table, q: Sse.Queues, s: StarModel.Star, now: real, yyyymm: string, uuid: string, fault: bool)
    returns (r: Http<Entity>)
    requires stars.Valid()
    modifies stars, q
    ensures stars.Valid()
    ensures !StarModel.Valid(s) ==> r.Fail? && r.status == 422
    ensures var e := AddedEntity(s, now, yyyymm, uuid);
      && (r.Ok? <==> StarModel.Valid(s) && !fault && IndexOfKey(old(stars.rows), KeyOf(e)).None?)
      && (StarModel.Valid(s) && r.Fail? ==> r.status == 500)
      && stars.rows == (if r.Ok? then InsertByKey(old(stars.rows), e) else old(stars.rows))
      && (r.Ok? ==> r.value == e)
    ensures q.stars == if r.Ok? then old(q.stars) + [Event("add", AddPayload(s, now, uuid))] else old(q.stars)
    ensures q.users == old(q.users)
  {
    if !StarModel.Valid(s) {
      return Fail(422, "Unprocessable Entity");
    }
    var e := AddedEntity(s, now, yyyymm, uuid);
    var ok := stars.Create(e, fault);
    if !ok {
      return Fail(500, "Internal Server Error");
    }
    q.stars := q.stars + [Event("add", AddPayload(s, now, uuid))];
    r := Ok(e);
  }

  // ---------------------------------------------------------------------------
  // like_star

  /** The "star" of the "update" event: the id asked for, the boosted brightness and
      the clock reading, the same fields the modular like reports. */
  function UpdatePayload(id: string, brightness: real, now: real): seq<(string, Val)> {
    StarViews.LikePayload(StarViews.LikeReply(id, brightness, now))
  }

  /** `POST /stars/{star_id}/like`. The first listed row with the RowKey, whatever
      its partition, gets `min(100.0, b + 20.0)` and the clock reading, exactly as in
      the modular like; when the cache is up its counter is bumped before the table
      update. Every failure (listing, no match, a Brightness that is missing or not
      a number, the update) answers 404; the whole changed entity is the answer. */
  method LikeStar(stars: Table, q: Sse.Queues, cache: Popularity.Counters, id: string, now: real,
                  listFault: bool, updateFault: bool)
    returns (r: Http<Entity>)
    requires stars.Valid()
    modifies stars, q, cache
    ensures stars.Valid() && cache.up == old(cache.up)
    ensures var i := FirstByRowKey(old(stars.rows), id);
      var found := !listFault && i.Some? && NumAt(old(stars.rows)[i.value], "Brightness").Some?;
      && (r.Ok? <==> found && !updateFault)
      && (r.Fail? ==> r.status == 404 && stars.rows == old(stars.rows))
      && (!found ==> cache.values == old(cache.values))
      && (found ==> cache.values == if old(cache.up)
            then old(cache.values)[Popularity.CounterKey(id) := Popularity.Bumped(old(cache.values), Popularity.CounterKey(id))]
            else old(cache.values))
      && (r.Ok? ==> r.value == StarViews.Liked(old(stars.rows)[i.value], now)
                    && stars.rows == old(stars.rows)[i.value := r.value])
    ensures q.stars == if r.Ok?
      then old(q.stars) + [Event("update", UpdatePayload(id, AsNumber(r.value["Brightness"]), now))]
      else old(q.stars)
    ensures q.users == old(q.users)
  {
    var listed := stars.List(listFault);
    if listed.Failure? {
      return Fail(404, "Star not found");
    }
    var all := listed.value;
    var found := FindByRowKey(all, id);
    if found.None? {
      return Fail(404, "Star not found");
    }
    var star := all[found.value];
    if NumAt(star, "Brightness").None? {
      return Fail(404, "Star not found");
    }
    var liked := StarViews.Liked(star, now);
    if cache.up {
      cache.Incr(Popularity.CounterKey(id));
    }
    StarViews.MergeLiked(all, found.value, now);
    var ok := stars.Update(liked, updateFault);
    if !ok {
      return Fail(404, "Star not found");
    }
    q.stars := q.stars + [Event("update", UpdatePayload(id, AsNumber(liked["Brightness"]), now))];
    r := Ok(liked);
  }

  /** The liked entity reports the boost of the brightness it had and the clock
      reading, and a second like never dims it. */
  lemma LikedReports(e: Entity, now: real)
    requires NumAt(e, "Brightness").Some?
    ensures var l := StarViews.Liked(e, now);
      && l["Brightness"] == VNum(StarViews.Boost(AsNumber(e["Brightness"]))) && l["LastLiked"] == VNum(now)
      && AsNumber(l["Brightness"]) <= 100.0
      && StarViews.Boost(AsNumber(l["Brightness"])) >= AsNumber(l["Brightness"])
  {
    StarViews.BoostSettles(AsNumber(e["Brightness"]));
  }

  // ---------------------------------------------------------------------------
  // remove_star and remove_all_stars

  /** The partition both removal endpoints address. */
  const RemovePartition := "STAR"

  /** The removed row carries what the "remove" event reads with `star[...]`. */
  predicate Announceable(e: Entity) {
    "X" in e && "Y" in e && "Message" in e
  }

  /** The "star" of the "remove" event: the id asked for and the row's X, Y, Message. */
  function RemovePayload(id: string, e: Entity): seq<(string, Val)>
    requires Announceable(e)
  {
    [("id", VStr(id)), ("x", e["X"]), ("y", e["Y"]), ("message", e["Message"])]
  }

  /** `DELETE /stars/{star_id}`: fetch and delete ("STAR", id). No such row answers
      404 and changes nothing; a failed call is not caught (500) and changes
      nothing. A row without X, Y or Message is still deleted, but building the event
      then raises (500) and nothing is published. */
  method RemoveStar(stars: Table, q: Sse.Queues, id: string, getFault: bool, deleteFault: bool)
    returns (r: Http<Val>)
    requires stars.Valid()
    modifies stars, q
    ensures stars.Valid()
    ensures var i := IndexOfKey(old(stars.rows), (RemovePartition, id));
      var deleted := !getFault && i.Some? && !deleteFault;
      && (r.Ok? <==> deleted && Announceable(old(stars.rows)[i.value]))
      && (!getFault && i.None? ==> r.Fail? && r.status == 404)
      && (r.Fail? && (getFault || i.Some?) ==> r.status == 500)
      && stars.rows == (if deleted then old(stars.rows)[..i.value] + old(stars.rows)[i.value + 1..] else old(stars.rows))
      && (r.Ok? ==> r.value == VDict([("message", VStr("Star " + id + " successfully removed"))]))
      && q.stars == (if r.Ok? then old(q.stars) + [Event("remove", RemovePayload(id, old(stars.rows)[i.value]))]
                     else old(q.stars))
    ensures q.users == old(q.users)
  {
    var k := (RemovePartition, id);
    var got := stars.Get(k, getFault);
    if got.Failure? {
      if getFault {
        return Fail(500, "Internal Server Error");
      }
      return Fail(404, "Star with ID " + id + " not found");
    }
    var star := got.value;
    ghost var i := IndexOfKey(stars.rows, k).value;
    IndexOfKeyUnique(stars.rows, k, i);
    WithoutExactly(stars.rows, k);
    var ok := stars.Delete(k, deleteFault);
    if !ok {
      return Fail(500, "Internal Server Error");
    }
    if !Announceable(star) {
      return Fail(500, "Internal Server Error");
    }
    q.stars := q.stars + [Event("remove", RemovePayload(id, star))];
    r := Ok(VDict([("message", VStr("Star " + id + " successfully removed"))]));
  }

  /** The first position below `n` whose delete faults, or `n` when none does. */
  function FirstFault(faults: seq<bool>, n: nat): (k: nat)
    ensures k <= n
    ensures forall j :: 0 <= j < k ==> !StarViews.FaultAt(faults, j)
    ensures k < n ==> StarViews.FaultAt(faults, k)
  {
    FirstFaultFrom(faults, 0, n)
  }

  function FirstFaultFrom(faults: seq<bool>, i: nat, n: nat): (k: nat)
    requires i <= n
    requires forall j :: 0 <= j < i ==> !StarViews.FaultAt(faults, j)
    ensures i <= k <= n
    ensures forall j :: 0 <= j < k ==> !StarViews.FaultAt(faults, j)
    ensures k < n ==> StarViews.FaultAt(faults, k)
    decreases n - i
  {
    if i == n || StarViews.FaultAt(faults, i) then i else FirstFaultFrom(faults, i + 1, n)
  }

  /** The table after deleting, in order, the keys of the rows `es`. */
  function Deleted(rows: seq<Entity>, es: seq<Entity>): seq<Entity>
    requires forall j :: 0 <= j < |es| ==> Keyed(es[j])
    decreases |es|
  {
    if es == [] then rows
    else Without(Deleted(rows, es[..|es| - 1]), KeyOf(es[|es| - 1]))
  }

  /** A row survives the deletes exactly when none of the deleted keys is its own. */
  lemma {:induction false} DeletedMembers(rows: seq<Entity>, es: seq<Entity>)
    requires forall j :: 0 <= j < |es| ==> Keyed(es[j])
    ensures forall e :: e in Deleted(rows, es) <==> e in rows && forall j :: 0 <= j < |es| ==> !HasKey(e, KeyOf(es[j]))
    decreases |es|
  {
    if es != [] {
      var init := es[..|es| - 1];
      DeletedMembers(rows, init);
      WithoutMembers(Deleted(rows, init), KeyOf(es[|es| - 1]));
      assert forall j :: 0 <= j < |init| ==> init[j] == es[j];
    }
  }

  /** One more delete extends the table of a prefix. */
  lemma DeletedSnoc(rows: seq<Entity>, es: seq<Entity>, i: nat)
    requires i < |es| && forall j :: 0 <= j < |es| ==> Keyed(es[j])
    ensures Deleted(rows, es[..i + 1]) == Without(Deleted(rows, es[..i]), KeyOf(es[i]))
  {
    assert es[..i + 1][..i] == es[..i];
  }

  /** The rows of the "STAR" partition are keyed like every row of the table. */
  lemma PartitionKeyed(rows: seq<Entity>, pk: string)
    requires WellKeyed(rows)
    ensures forall j :: 0 <= j < |InPartition(rows, pk)| ==> Keyed(InPartition(rows, pk)[j])
    ensures forall j :: 0 <= j < |InPartition(rows, pk)| ==> KeyOf(InPartition(rows, pk)[j]).0 == pk
  {
    var s := InPartition(rows, pk);
    forall j | 0 <= j < |s| ensures Keyed(s[j]) && KeyOf(s[j]).0 == pk {
      assert s[j] in s;
    }
  }

  /** `DELETE /stars`. Line 741 only builds a pager that is never iterated, so it
      makes no call. The loop deletes the listed "STAR" rows one by one; a listing
      that fails, or the first delete that fails, is not caught (500): the deletes
      before it stay done and nothing is published. */
  method RemoveAllStars(stars: Table, q: Sse.Queues, queryFault: bool, deleteFaults: seq<bool>)
    returns (r: Http<Val>)
    requires stars.Valid()
    modifies stars, q
    ensures stars.Valid()
    ensures var listed := InPartition(old(stars.rows), RemovePartition);
      var k := FirstFault(deleteFaults, |listed|);
      (PartitionKeyed(old(stars.rows), RemovePartition);
       && (r.Ok? <==> !queryFault && k == |listed|)
       && (r.Fail? ==> r.status == 500)
       && stars.rows == (if queryFault then old(stars.rows) else Deleted(old(stars.rows), listed[..k]))
       && (r.Ok? ==> r.value == VDict([("message", VStr("All stars removed"))]))
       && q.stars == (if r.Ok? then old(q.stars) + [Admin.RemoveAllEvent] else old(q.stars)))
    ensures q.users == old(q.users)
  {
    var queried := stars.Query(RemovePartition, queryFault);
    if queried.Failure? {
      return Fail(500, "Internal Server Error");
    }
    var listed := queried.value;
    PartitionKeyed(stars.rows, RemovePartition);
    var ok := DeleteListed(stars, listed, deleteFaults);
    if !ok {
      return Fail(500, "Internal Server Error");
    }
    q.stars := q.stars + [Admin.RemoveAllEvent];
    r := Ok(VDict([("message", VStr("All stars removed"))]));
  }

  /** The loop of `remove_all_stars` over the listed "STAR" rows: delete each by
      ("STAR", RowKey) and stop at the first delete that fails. */
  method DeleteListed(stars: Table, listed: seq<Entity>, faults: seq<bool>) returns (ok: bool)
    requires stars.Valid()
    requires forall j :: 0 <= j < |listed| ==> Keyed(listed[j])
    requires forall j :: 0 <= j < |listed| ==> KeyOf(listed[j]).0 == RemovePartition
    modifies stars
    ensures stars.Valid()
    ensures ok <==> FirstFault(faults, |listed|) == |listed|
    ensures stars.rows == Deleted(old(stars.rows), listed[..FirstFault(faults, |listed|)])
  {
    ghost var all := stars.rows;
    ghost var k := FirstFault(faults, |listed|);
    var i := 0;
    while i < |listed|
      invariant 0 <= i <= k
      invariant stars.Valid()
      invariant stars.rows == Deleted(all, listed[..i])
    {
      var deleted := DeleteNext(stars, all, listed, i, faults);
      if !deleted {
        return false;
      }
      i := i + 1;
    }
    assert listed[..|listed|] == listed;
    ok := true;
  }

  /** One pass of that loop: delete the `i`-th listed row by ("STAR", RowKey). */
  method DeleteNext(stars: Table, ghost all: seq<Entity>, listed: seq<Entity>, i: nat, faults: seq<bool>)
    returns (deleted: bool)
    requires stars.Valid() && i < |listed|
    requires forall j :: 0 <= j < |listed| ==> Keyed(listed[j])
    requires forall j :: 0 <= j < |listed| ==> KeyOf(listed[j]).0 == RemovePartition
    requires stars.rows == Deleted(all, listed[..i])
    modifies stars
    ensures stars.Valid()
    ensures deleted == !StarViews.FaultAt(faults, i)
    ensures stars.rows == Deleted(all, if deleted then listed[..i + 1] else listed[..i])
  {
    var star := listed[i];
    assert KeyOf(star) == (RemovePartition, star["RowKey"].str);
    DeletedSnoc(all, listed, i);
    deleted := stars.Delete((RemovePartition, star["RowKey"].str), StarViews.FaultAt(faults, i));
  }

  /** The STAR rows the loop lists are the whole partition: once all are deleted the
      table holds exactly its rows of other partitions. */
  lemma RemoveAllKeepsOtherPartitions(rows: seq<Entity>)
    requires WellKeyed(rows)
    ensures (PartitionKeyed(rows, RemovePartition);
      forall e :: e in Deleted(rows, InPartition(rows, RemovePartition))
        <==> e in rows && KeyOf(e).0 != RemovePartition)
  {
    var listed := InPartition(rows, RemovePartition);
    PartitionKeyed(rows, RemovePartition);
    DeletedMembers(rows, listed);
    forall e | e in rows
      ensures Keyed(e)
      ensures (forall j :: 0 <= j < |listed| ==> !HasKey(e, KeyOf(listed[j]))) <==> KeyOf(e).0 != RemovePartition
    {
      var i :| 0 <= i < |rows| && rows[i] == e;
      assert Keyed(rows[i]);
      if KeyOf(e).0 == RemovePartition {
        assert e["PartitionKey"] == VStr(RemovePartition);
        assert e in listed;
        var j :| 0 <= j < |listed| && listed[j] == e;
        assert HasKey(e, KeyOf(listed[j]));
      } else {
        forall j | 0 <= j < |listed| ensures !HasKey(e, KeyOf(listed[j])) {
          assert KeyOf(listed[j]).0 == RemovePartition;
        }
      }
    }
  }

  /** A partition key `add_star` writes: "STAR_" followed by the month. */
  predicate Monthly(e: Entity) {
    Keyed(e) && Text.StartsWith(KeyOf(e).0, "STAR_")
  }

  /** `add_star` only ever writes monthly partitions. */
  lemma AddedIsMonthly(s: StarModel.Star, now: real, yyyymm: string, uuid: string)
    ensures Monthly(AddedEntity(s, now, yyyymm, uuid))
  {
    assert ("STAR_" + yyyymm)[..5] == "STAR_";
  }

  /** So in a table whose every row came from `add_star`, `remove_star` finds no row
      under ("STAR", id) whatever the id, and the loop of `remove_all_stars` lists
      nothing and deletes nothing. */
  lemma {:induction false} MonthlyRowsOutOfReach(rows: seq<Entity>, id: string)
    requires forall i :: 0 <= i < |rows| ==> Monthly(rows[i])
    ensures IndexOfKey(rows, (RemovePartition, id)).None?
    ensures InPartition(rows, RemovePartition) == []
    ensures Deleted(rows, InPartition(rows, RemovePartition)) == rows
  {
    if rows != [] {
      var e := rows[0];
      assert Monthly(e);
      assert KeyOf(e).0 != RemovePartition;
      assert forall i :: 0 <= i < |rows[1..]| ==> Monthly(rows[1..][i]) by {
        forall i | 0 <= i < |rows[1..]| ensures Monthly(rows[1..][i]) {
          assert rows[1..][i] == rows[i + 1];
        }
      }
      MonthlyRowsOutOfReach(rows[1..], id);
    }
  }
}
