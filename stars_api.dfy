/** The star endpoints (src/api/stars.py). Each handler works on the Stars table
    client, the star event queue and the popularity counters; whether each table
    call fails is a parameter. The handlers are proved to answer what the functions
    of StarViews say. */
module StarsApi {
  import opened Wrappers
  import opened PyValue
  import opened TableStore
  import opened StarViews
  import StarModel
  import Text
  import Sse
  import SsePublisher
  import Popularity

  /** `GET /`: every listed row as a view. A failed listing, or a row the view cannot
      be built from, is an exception the handler does not catch (500). */
  method GetStars(stars: Table, ctx: Ctx, fault: bool) returns (r: Http<seq<StarView>>)
    ensures r.Ok? <==> !fault && forall i :: 0 <= i < |stars.rows| ==> Viewable(stars.rows[i], ctx)
    ensures r.Ok? ==> |r.value| == |stars.rows|
    ensures r.Ok? ==> forall i :: 0 <= i < |stars.rows| ==> r.value[i] == ViewOf(stars.rows[i], ctx)
    ensures r.Fail? ==> r.status == 500
  {
    var listed := stars.List(fault);
    if listed.Failure? {
      return Fail(500, "Internal Server Error");
    }
    var all := listed.value;
    if forall i :: 0 <= i < |all| ==> Viewable(all[i], ctx) {
      r := Ok(seq(|all|, i requires 0 <= i < |all| => ViewOf(all[i], ctx)));
    } else {
      r := Fail(500, "Internal Server Error");
    }
  }

  /** `GET /active`: the filter loop over the listed rows. A failed listing, and a
      LastLiked that cannot be compared, both answer the empty list. */
  method GetActiveStars(stars: Table, ctx: Ctx, fault: bool) returns (r: seq<StarView>)
    ensures r == if fault then [] else
      match Active(stars.rows, ctx.now - ctx.window, ctx)
      case None => []
      case Some(vs) => vs
  {
    var cutoff := ctx.now - ctx.window;
    var listed := stars.List(fault);
    if listed.Failure? {
      return [];
    }
    var all := listed.value;
    var active := [];
    var i := 0;
    while i < |all|
      invariant 0 <= i <= |all|
      invariant Active(all[..i], cutoff, ctx) == Some(active)
    {
      var star := all[i];
      assert all[..i + 1][..i] == all[..i];
      if "LastLiked" in star {
        if !IsNumber(star["LastLiked"]) {
          PrefixAborts(all, i + 1, cutoff, ctx);
          return [];
        }
        if AsNumber(star["LastLiked"]) >= cutoff && Viewable(star, ctx) {
          active := active + [ViewOf(star, ctx)];
        }
      }
      i := i + 1;
    }
    assert all[..|all|] == all;
    r := active;
  }

  /** Once a prefix of the listing aborts the filter, the whole listing does. */
  lemma PrefixAborts(rows: seq<Entity>, n: nat, cutoff: real, ctx: Ctx)
    requires n <= |rows| && Active(rows[..n], cutoff, ctx).None?
    ensures Active(rows, cutoff, ctx).None?
  {
    if Active(rows, cutoff, ctx).Some? {
      assert rows == rows[..n] + rows[n..];
      ActiveConcat(rows[..n], rows[n..], cutoff, ctx);
    }
  }

  /** `_get_star_impl`: read the popularity counter when the cache is up, list the
      table, take the first row with the RowKey. */
  method GetStarImpl(stars: Table, cache: Popularity.Counters, ctx: Ctx, id: string, fault: bool)
    returns (r: Http<StarDetail>)
    ensures r == StarLookup(stars.rows, id, Recent(cache.up, cache.values, id), ctx, fault)
  {
    var recent: Option<int> := None;
    if cache.up {
      recent := cache.Get(Popularity.CounterKey(id));
    }
    var listed := stars.List(fault);
    if listed.Failure? {
      return Fail(404, "Star not found");
    }
    var found := FindByRowKey(listed.value, id);
    if found.None? {
      return Fail(404, "Star not found");
    }
    var star := listed.value[found.value];
    if !Viewable(star, ctx) {
      return Fail(404, "Star not found");
    }
    r := Ok(StarDetail(ViewOf(star, ctx), recent.Some? && recent.value >= ctx.threshold));
  }

  /** `GET /{star_id}`. */
  method GetStar(stars: Table, cache: Popularity.Counters, ctx: Ctx, id: string, fault: bool)
    returns (r: Http<Reply>)
    ensures r == GetStarSpec(stars.rows, cache.up, cache.values, id, ctx, fault)
  {
    if id == "active" {
      return Ok(EmptyList);
    }
    var d := GetStarImpl(stars, cache, ctx, id, fault);
    if d.Ok? {
      r := Ok(Detail(d.value));
    } else {
      r := Fail(d.status, d.detail);
    }
  }

  /** `GET /batch/{star_ids}`: split on ',', strip each piece, look it up, skip a
      404. The i-th lookup's table call fails when `faults` says so. */
  method GetStarsBatch(stars: Table, cache: Popularity.Counters, ctx: Ctx, starIds: string, faults: seq<bool>)
    returns (r: seq<Reply>)
    ensures r == Found(Replies(stars.rows, cache.up, cache.values, Text.SplitOn(starIds, ','), ctx, faults))
  {
    var ids := Text.SplitOn(starIds, ',');
    ghost var rs := Replies(stars.rows, cache.up, cache.values, ids, ctx, faults);
    r := [];
    var i := 0;
    while i < |ids|
      invariant 0 <= i <= |ids|
      invariant r == Found(rs[..i])
    {
      var reply := BatchLookup(stars, cache, ctx, ids, faults, i);
      FoundStep(rs, i);
      if reply.Ok? {
        r := r + [reply.value];
      }
      i := i + 1;
    }
    assert rs[..|ids|] == rs;
  }

  /** The lookup of the batch loop for the i-th id, stripped. */
  method BatchLookup(stars: Table, cache: Popularity.Counters, ctx: Ctx, ids: seq<string>, faults: seq<bool>, i: nat)
    returns (reply: Http<Reply>)
    requires i < |ids|
    ensures reply == Replies(stars.rows, cache.up, cache.values, ids, ctx, faults)[i]
  {
    reply := GetStar(stars, cache, ctx, Text.Strip(ids[i]), FaultAt(faults, i));
  }

  /** `GET /popular`: nothing when the cache is down; otherwise every counter key,
      in the order KEYS returns them, whose count reaches the threshold and whose
      star is found, sorted by brightness. `keys` is that order. */
  method GetPopularStars(stars: Table, cache: Popularity.Counters, ctx: Ctx, faults: seq<bool>)
    returns (keys: seq<string>, r: seq<StarDetail>)
    ensures !cache.up ==> r == []
    ensures cache.up ==> forall k :: k in keys <==> k in cache.values && Text.StartsWith(k, Popularity.KeyPrefix)
    ensures cache.up ==> forall i, j :: 0 <= i < j < |keys| ==> keys[i] != keys[j]
    ensures cache.up ==> r == SortByBrightness(Collected(stars.rows, cache.values, keys, ctx, faults))
  {
    keys := [];
    if !cache.up {
      return keys, [];
    }
    keys := cache.Keys(Popularity.KeyPrefix);
    var popular := [];
    var i := 0;
    while i < |keys|
      invariant 0 <= i <= |keys|
      invariant popular == Collected(stars.rows, cache.values, keys[..i], ctx, faults)
    {
      var key := keys[i];
      var starId := KeyId(key);
      var count := cache.Get(key);
      var likes := if count.Some? then count.value else 0;
      assert keys[..i + 1][..i] == keys[..i];
      if likes >= ctx.threshold {
        var found := GetStarImpl(stars, cache, ctx, starId, FaultAt(faults, i));
        if found.Ok? {
          popular := popular + [found.value];
        }
      }
      i := i + 1;
    }
    assert keys[..|keys|] == keys;
    r := SortByBrightness(popular);
  }

  /** `POST /{star_id}/like`. The first row with the RowKey gets the boosted
      brightness and the clock reading as LastLiked; when the cache is up its counter
      is bumped before the table update, so a failed update (404) leaves the counter
      bumped. A failed listing, no match, or a Brightness that is missing or not a
      number answer 404 and change nothing. */
  method LikeStar(stars: Table, q: Sse.Queues, cache: Popularity.Counters, ctx: Ctx, id: string,
                  listFault: bool, updateFault: bool)
    returns (r: Http<LikeReply>)
    requires stars.Valid()
    modifies stars, q, cache
    ensures stars.Valid() && cache.up == old(cache.up)
    ensures var i := FirstByRowKey(old(stars.rows), id);
      var found := !listFault && i.Some? && NumAt(old(stars.rows)[i.value], "Brightness").Some?;
      && (r.Ok? <==> found && !updateFault)
      && (r.Fail? ==> r.status == 404)
      && (!found ==> stars.rows == old(stars.rows) && cache.values == old(cache.values))
      && (found ==> cache.values == if old(cache.up)
            then old(cache.values)[Popularity.CounterKey(id) := Popularity.Bumped(old(cache.values), Popularity.CounterKey(id))]
            else old(cache.values))
      && (found && !updateFault ==>
            stars.rows == old(stars.rows)[i.value := Liked(old(stars.rows)[i.value], ctx.now)])
      && (found && updateFault ==> stars.rows == old(stars.rows))
      && (r.Ok? ==> r.value == LikeReply(id, Boost(AsNumber(old(stars.rows)[i.value]["Brightness"])), ctx.now))
    ensures q.stars == if r.Ok? then old(q.stars) + [SsePublisher.TypedEvent("update", LikePayload(r.value))] else old(q.stars)
    ensures q.users == old(q.users)
  {
    var listed := stars.List(listFault);
    if listed.Failure? {
      return Fail(404, "Star not found");
    }
    var all := listed.value;
    var found := FindByRowKey(all, id);
    if found.None? {
      return Fail(404, "Star not found");
    }
    var star := all[found.value];
    if NumAt(star, "Brightness").None? {
      return Fail(404, "Star not found");
    }
    var liked := Liked(star, ctx.now);
    if cache.up {
      cache.Incr(Popularity.CounterKey(id));
    }
    MergeLiked(all, found.value, ctx.now);
    var ok := stars.Update(liked, updateFault);
    if !ok {
      return Fail(404, "Star not found");
    }
    r := Ok(LikeReply(id, Boost(AsNumber(star["Brightness"])), ctx.now));
    SsePublisher.PublishStarEvent(q, "update", LikePayload(r.value));
  }

  /** `POST /`: a request the Star validators refuse never reaches the handler (422).
      Otherwise the new entity is created; a failed or duplicate create answers 500
      and publishes nothing. */
  method AddStar(stars: Table, q: Sse.Queues, s: StarModel.Star, now: real, yyyymm: string, uuid: string, fault: bool)
    returns (r: Http<AddReply>)
    requires stars.Valid()
    modifies stars, q
    ensures stars.Valid()
    ensures !StarModel.Valid(s) ==> r.Fail? && r.status == 422
    ensures var e := NewStarEntity(s, now, yyyymm, uuid);
      && (r.Ok? <==> StarModel.Valid(s) && !fault && IndexOfKey(old(stars.rows), KeyOf(e)).None?)
      && (StarModel.Valid(s) && r.Fail? ==> r.status == 500)
      && stars.rows == (if r.Ok? then InsertByKey(old(stars.rows), e) else old(stars.rows))
      && (r.Ok? ==> r.value == AddReplyOf(s, e, now))
    ensures q.stars == if r.Ok? then old(q.stars) + [SsePublisher.TypedEvent("create", AddPayload(r.value))] else old(q.stars)
    ensures q.users == old(q.users)
  {
    if !StarModel.Valid(s) {
      return Fail(422, "Unprocessable Entity");
    }
    var e := NewStarEntity(s, now, yyyymm, uuid);
    var ok := stars.Create(e, fault);
    if !ok {
      return Fail(500, "Error creating star");
    }
    r := Ok(AddReplyOf(s, e, now));
    SsePublisher.PublishStarEvent(q, "create", AddPayload(r.value));
  }

  /** `DELETE /{star_id}`: delete the first row with the RowKey by its own
      PartitionKey and RowKey and publish one "delete" event. A failed listing or
      delete answers 500, no match 404; then nothing changes. */
  method RemoveStar(stars: Table, q: Sse.Queues, id: string, listFault: bool, deleteFault: bool)
    returns (r: Http<Val>)
    requires stars.Valid()
    modifies stars, q
    ensures stars.Valid()
    ensures var i := FirstByRowKey(old(stars.rows), id);
      && (r.Ok? <==> !listFault && i.Some? && !deleteFault)
      && (listFault ==> r.Fail? && r.status == 500)
      && (!listFault && i.None? ==> r.Fail? && r.status == 404)
      && (!listFault && i.Some? && deleteFault ==> r.Fail? && r.status == 500)
      && (r.Ok? ==> stars.rows == old(stars.rows)[..i.value] + old(stars.rows)[i.value + 1..])
      && (r.Ok? ==> r.value == VDict([("id", VStr(id)), ("status", VStr("deleted"))]))
      && (r.Fail? ==> stars.rows == old(stars.rows))
      && q.stars == (if r.Ok? then old(q.stars) + [SsePublisher.TypedEvent("delete", DeletePayload(id, old(stars.rows)[i.value]))]
                     else old(q.stars))
    ensures q.users == old(q.users)
  {
    var listed := stars.List(listFault);
    if listed.Failure? {
      return Fail(500, "Error removing star");
    }
    var all := listed.value;
    var found := FindByRowKey(all, id);
    if found.None? {
      return Fail(404, "Star with ID " + id + " not found");
    }
    var star := all[found.value];
    DeleteFound(all, found.value);
    var ok := stars.Delete(KeyOf(star), deleteFault);
    if !ok {
      return Fail(500, "Error removing star");
    }
    SsePublisher.PublishStarEvent(q, "delete", DeletePayload(id, star));
    r := Ok(VDict([("id", VStr(id)), ("status", VStr("deleted"))]));
  }
}
