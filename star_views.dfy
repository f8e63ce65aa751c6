/** What the star handlers (src/api/stars.py) compute from the listed entities,
    stated as functions: the star view, the active filter, the lookup by id with its
    popularity flag, the batch, the popular list and its order, the like boost and
    the entity a new star is stored as. The handlers in StarsApi are proved to
    return these. */
module StarViews {
  import opened Wrappers
  import opened PyValue
  import opened TableStore
  import StarModel
  import Text
  import Popularity

  /** What one request sees: `math.exp` and the largest argument it accepts, the
      clock reading, and the settings
      `REDIS.POPULARITY_THRESHOLD` and `REDIS.POPULARITY_WINDOW`. */
  datatype Ctx = Ctx(exp: real -> real, expLimit: real, now: real, threshold: int, window: real)

  /** A star as the handlers answer it: the stored id, coordinates and message as
      they are, the decayed brightness, and the stored last like. */
  datatype StarView = StarView(id: Val, x: Val, y: Val, message: Val, brightness: real, lastLiked: Val)

  /** An entity the response builder can read: a missing RowKey, X, Y, Message,
      Brightness or LastLiked is a KeyError, and a Brightness or LastLiked that is
      neither a number nor a bool (Python's 1 or 0) makes the brightness formula raise,
      and so does a LastLiked so far in the future that `math.exp` overflows. */
  predicate Viewable(e: Entity, ctx: Ctx) {
    && "RowKey" in e && "X" in e && "Y" in e && "Message" in e
    && NumAt(e, "Brightness").Some? && NumAt(e, "LastLiked").Some?
    && StarModel.InExpRange(ctx.expLimit, NumAt(e, "LastLiked").value, ctx.now)
  }

  /** The response dict of one star; its brightness is never below the floor of 20. */
  function ViewOf(e: Entity, ctx: Ctx): (v: StarView)
    requires Viewable(e, ctx)
    ensures v.brightness >= 20.0
  {
    StarView(e["RowKey"], e["X"], e["Y"], e["Message"],
             StarModel.CurrentBrightness(ctx.exp, AsNumber(e["Brightness"]), AsNumber(e["LastLiked"]), ctx.now),
             e["LastLiked"])
  }

  /** A row liked at least 222 s in the future cannot be shown: `math.exp` overflows
      on it, so `get_stars` answers 500, the active list skips it, and the lookup by
      id answers 404. */
  lemma FarFutureRowHidden(e: Entity, ctx: Ctx, cutoff: real)
    requires ctx.expLimit == 709.78
    requires NumAt(e, "LastLiked").Some? && NumAt(e, "LastLiked").value - ctx.now >= 222.0
    ensures !Viewable(e, ctx) && !IsActive(e, cutoff, ctx)
  {
    StarModel.FarFutureLikeOverflows(NumAt(e, "LastLiked").value, ctx.now);
  }

  /** A complete row liked in the past or present can always be shown. */
  lemma PastRowViewable(e: Entity, ctx: Ctx)
    requires ctx.expLimit >= 0.0
    requires "RowKey" in e && "X" in e && "Y" in e && "Message" in e && NumAt(e, "Brightness").Some?
    requires NumAt(e, "LastLiked").Some? && NumAt(e, "LastLiked").value <= ctx.now
    ensures Viewable(e, ctx)
  {
    StarModel.PastLikeInRange(ctx.expLimit, NumAt(e, "LastLiked").value, ctx.now);
  }

  // ---------------------------------------------------------------------------
  // Active stars

  /** `"LastLiked" in star and star["LastLiked"] >= cutoff_time`; None when the
      comparison raises because the stored value is neither a number nor a bool. */
  function RecentTest(e: Entity, cutoff: real): Option<bool> {
    if "LastLiked" !in e then Some(false)
    else if IsNumber(e["LastLiked"]) then Some(AsNumber(e["LastLiked"]) >= cutoff)
    else None
  }

  /** A row the active list shows: liked at or after the cutoff, and readable. */
  predicate IsActive(e: Entity, cutoff: real, ctx: Ctx) {
    RecentTest(e, cutoff) == Some(true) && Viewable(e, ctx)
  }

  /** The views the filter loop collects, row by row in listing order; None once a
      row's LastLiked cannot be compared, which the handler turns into []. */
  function Active(rows: seq<Entity>, cutoff: real, ctx: Ctx): Option<seq<StarView>>
    decreases |rows|
  {
    if rows == [] then Some([])
    else
      match Active(rows[..|rows| - 1], cutoff, ctx)
      case None => None
      case Some(vs) =>
        var e := rows[|rows| - 1];
        match RecentTest(e, cutoff)
        case None => None
        case Some(recent) => Some(if recent && Viewable(e, ctx) then vs + [ViewOf(e, ctx)] else vs)
  }

  /** The filter gives up exactly when some row's LastLiked is not comparable. */
  lemma {:induction false} ActiveAborts(rows: seq<Entity>, cutoff: real, ctx: Ctx)
    ensures Active(rows, cutoff, ctx).None? <==> exists i :: 0 <= i < |rows| && RecentTest(rows[i], cutoff).None?
    decreases |rows|
  {
    if rows != [] {
      var init := rows[..|rows| - 1];
      ActiveAborts(init, cutoff, ctx);
      if exists i :: 0 <= i < |init| && RecentTest(init[i], cutoff).None? {
        var i :| 0 <= i < |init| && RecentTest(init[i], cutoff).None?;
        assert rows[i] == init[i];
      }
      if exists i :: 0 <= i < |rows| && RecentTest(rows[i], cutoff).None? {
        var i :| 0 <= i < |rows| && RecentTest(rows[i], cutoff).None?;
        if i < |init| {
          assert init[i] == rows[i];
        }
      }
    }
  }

  /** The active stars are exactly the views of the active rows. */
  lemma {:induction false} ActiveMembers(rows: seq<Entity>, cutoff: real, ctx: Ctx)
    requires Active(rows, cutoff, ctx).Some?
    ensures forall v :: v in Active(rows, cutoff, ctx).value <==>
      exists i :: 0 <= i < |rows| && IsActive(rows[i], cutoff, ctx) && ViewOf(rows[i], ctx) == v
    decreases |rows|
  {
    if rows != [] {
      var init := rows[..|rows| - 1];
      var last := |rows| - 1;
      ActiveSnoc(rows, cutoff, ctx);
      ActiveMembers(init, cutoff, ctx);
      forall v ensures v in Active(rows, cutoff, ctx).value <==>
        exists i :: 0 <= i < |rows| && IsActive(rows[i], cutoff, ctx) && ViewOf(rows[i], ctx) == v
      {
        if exists i :: 0 <= i < |init| && IsActive(init[i], cutoff, ctx) && ViewOf(init[i], ctx) == v {
          var i :| 0 <= i < |init| && IsActive(init[i], cutoff, ctx) && ViewOf(init[i], ctx) == v;
          assert rows[i] == init[i];
        }
        if exists i :: 0 <= i < |rows| && IsActive(rows[i], cutoff, ctx) && ViewOf(rows[i], ctx) == v {
          var i :| 0 <= i < |rows| && IsActive(rows[i], cutoff, ctx) && ViewOf(rows[i], ctx) == v;
          if i < last {
            assert init[i] == rows[i];
          }
        }
      }
    }
  }

  /** The last row adds its view when it is active, and nothing otherwise. */
  lemma ActiveSnoc(rows: seq<Entity>, cutoff: real, ctx: Ctx)
    requires rows != [] && Active(rows, cutoff, ctx).Some?
    ensures var init, e := rows[..|rows| - 1], rows[|rows| - 1];
      && Active(init, cutoff, ctx).Some?
      && Active(rows, cutoff, ctx).value
         == Active(init, cutoff, ctx).value + (if IsActive(e, cutoff, ctx) then [ViewOf(e, ctx)] else [])
  {
  }

  /** The filter works row by row, so it keeps listing order: the active stars of two
      consecutive stretches of the listing are those of the first, then those of the
      second. */
  lemma {:induction false} ActiveConcat(a: seq<Entity>, b: seq<Entity>, cutoff: real, ctx: Ctx)
    requires Active(a + b, cutoff, ctx).Some?
    ensures Active(a, cutoff, ctx).Some? && Active(b, cutoff, ctx).Some?
    ensures Active(a + b, cutoff, ctx).value == Active(a, cutoff, ctx).value + Active(b, cutoff, ctx).value
    decreases |b|
  {
    if b == [] {
      assert a + b == a;
    } else {
      var b' := b[..|b| - 1];
      assert (a + b)[..|a + b| - 1] == a + b';
      assert (a + b)[|a + b| - 1] == b[|b| - 1];
      ActiveConcat(a, b', cutoff, ctx);
    }
  }

  // ---------------------------------------------------------------------------
  // Lookup by id and popularity

  /** The counter `_get_star_impl` reads for `id`: none unless the cache is up. */
  function Recent(up: bool, counters: map<string, int>, id: string): (r: Option<int>)
    ensures r.Some? <==> up && Popularity.CounterKey(id) in counters
  {
    var key := Popularity.CounterKey(id);
    if up && key in counters then Some(counters[key]) else None
  }

  /** A looked-up star with its `is_popular` flag. */
  datatype StarDetail = StarDetail(view: StarView, isPopular: bool)

  /** `_get_star_impl`: the first listed row whose RowKey is `id`, whatever its
      partition; 404 when listing fails, when no row matches, or when the match cannot
      be read. It is popular when its counter exists and reaches the threshold. */
  function StarLookup(rows: seq<Entity>, id: string, recent: Option<int>, ctx: Ctx, fault: bool): (r: Http<StarDetail>)
    ensures r.Ok? <==> !fault && FirstByRowKey(rows, id).Some? && Viewable(rows[FirstByRowKey(rows, id).value], ctx)
    ensures r.Fail? ==> r.status == 404
    ensures r.Ok? ==>
      var i := FirstByRowKey(rows, id).value;
      && RowKeyIs(rows[i], id) && (forall j :: 0 <= j < i ==> !RowKeyIs(rows[j], id))
      && r.value.view == ViewOf(rows[i], ctx) && r.value.view.id == VStr(id)
    ensures r.Ok? ==> (r.value.isPopular <==> recent.Some? && recent.value >= ctx.threshold)
  {
    if fault then Fail(404, "Star not found")
    else
      match FirstByRowKey(rows, id)
      case None => Fail(404, "Star not found")
      case Some(i) =>
        if !Viewable(rows[i], ctx) then Fail(404, "Star not found")
        else Ok(StarDetail(ViewOf(rows[i], ctx), recent.Some? && recent.value >= ctx.threshold))
  }

  /** The lookup does not look at the PartitionKey: moving rows between partitions,
      with their RowKeys and other properties unchanged, does not change the answer. */
  lemma {:induction false} LookupIgnoresPartition(rows: seq<Entity>, moved: seq<Entity>, id: string,
                                                  recent: Option<int>, ctx: Ctx, fault: bool)
    requires |moved| == |rows|
    requires forall i :: 0 <= i < |rows| ==> (moved[i] - {"PartitionKey"}) == (rows[i] - {"PartitionKey"})
    ensures StarLookup(moved, id, recent, ctx, fault) == StarLookup(rows, id, recent, ctx, fault)
  {
    forall i | 0 <= i < |rows|
      ensures RowKeyIs(moved[i], id) == RowKeyIs(rows[i], id)
      ensures Viewable(moved[i], ctx) == Viewable(rows[i], ctx)
      ensures Viewable(rows[i], ctx) ==> ViewOf(moved[i], ctx) == ViewOf(rows[i], ctx)
    {
      SameOutsidePartition(rows[i], moved[i]);
    }
    SameFirstMatch(rows, moved, id);
  }

  lemma SameOutsidePartition(e: Entity, f: Entity)
    requires (f - {"PartitionKey"}) == (e - {"PartitionKey"})
    ensures forall k :: k != "PartitionKey" ==> (k in f <==> k in e) && (k in e ==> f[k] == e[k])
  {
    forall k | k != "PartitionKey"
      ensures (k in f <==> k in e) && (k in e ==> f[k] == e[k])
    {
      assert (k in f <==> k in (f - {"PartitionKey"}));
      assert (k in e <==> k in (e - {"PartitionKey"}));
      if k in e {
        assert (e - {"PartitionKey"})[k] == e[k];
        assert (f - {"PartitionKey"})[k] == f[k];
      }
    }
  }

  /** Two listings that agree row by row on whether the RowKey matches have the same
      first match. */
  lemma {:induction false} SameFirstMatch(rows: seq<Entity>, moved: seq<Entity>, id: string)
    requires |moved| == |rows|
    requires forall i :: 0 <= i < |rows| ==> RowKeyIs(moved[i], id) == RowKeyIs(rows[i], id)
    ensures FirstByRowKey(moved, id) == FirstByRowKey(rows, id)
  {
    if rows != [] {
      SameFirstMatch(rows[1..], moved[1..], id);
    }
  }

  // ---------------------------------------------------------------------------
  // get_star and the batch

  /** What `get_star` answers: a star, or the empty list it returns for "active". */
  datatype Reply = Detail(detail: StarDetail) | EmptyList

  /** `get_star`: the id "active" answers an empty list; any other id is looked up,
      with the cache flag and counters as they are. */
  function GetStarSpec(rows: seq<Entity>, up: bool, counters: map<string, int>, id: string, ctx: Ctx, fault: bool): (r: Http<Reply>)
    ensures id == "active" ==> r == Ok(EmptyList)
    ensures id != "active" ==>
      var l := StarLookup(rows, id, Recent(up, counters, id), ctx, fault);
      (r.Ok? <==> l.Ok?) && (r.Ok? ==> r.value == Detail(l.value)) && (r.Fail? ==> r.status == 404)
  {
    if id == "active" then Ok(EmptyList)
    else
      match StarLookup(rows, id, Recent(up, counters, id), ctx, fault)
      case Ok(d) => Ok(Detail(d))
      case Fail(status, detail) => Fail(status, detail)
  }

  /** Whether the `i`-th table call of a request fails; calls past the end succeed. */
  function FaultAt(faults: seq<bool>, i: nat): bool {
    i < |faults| && faults[i]
  }

  /** What `get_star` answers for each piece of the id list, stripped, in order. */
  function Replies(rows: seq<Entity>, up: bool, counters: map<string, int>, ids: seq<string>, ctx: Ctx, faults: seq<bool>): (rs: seq<Http<Reply>>)
    ensures |rs| == |ids|
  {
    seq(|ids|, i requires 0 <= i < |ids| => GetStarSpec(rows, up, counters, Text.Strip(ids[i]), ctx, FaultAt(faults, i)))
  }

  /** The replies the batch loop keeps: the found ones, in order; a 404 is skipped. */
  function Found(rs: seq<Http<Reply>>): seq<Reply>
    decreases |rs|
  {
    if rs == [] then []
    else Found(rs[..|rs| - 1]) + (if rs[|rs| - 1].Ok? then [rs[|rs| - 1].value] else [])
  }

  /** One more reply extends the kept prefix by that reply when it was found. */
  lemma FoundStep(rs: seq<Http<Reply>>, i: nat)
    requires i < |rs|
    ensures Found(rs[..i + 1]) == Found(rs[..i]) + (if rs[i].Ok? then [rs[i].value] else [])
  {
    assert rs[..i + 1][..i] == rs[..i];
  }

  /** The batch answers exactly the found replies. */
  lemma {:induction false} FoundMembers(rs: seq<Http<Reply>>)
    ensures forall x :: x in Found(rs) <==> exists i :: 0 <= i < |rs| && rs[i] == Ok(x)
    decreases |rs|
  {
    if rs != [] {
      var n := |rs| - 1;
      FoundMembers(rs[..n]);
      forall x ensures x in Found(rs) <==> exists i :: 0 <= i < |rs| && rs[i] == Ok(x) {
        if exists i :: 0 <= i < n && rs[..n][i] == Ok(x) {
          var i :| 0 <= i < n && rs[..n][i] == Ok(x);
          assert rs[i] == rs[..n][i];
        }
        if exists i :: 0 <= i < |rs| && rs[i] == Ok(x) {
          var i :| 0 <= i < |rs| && rs[i] == Ok(x);
          if i < n {
            assert rs[..n][i] == rs[i];
          }
        }
      }
    }
  }

  /** When every id is found the batch answers one reply per id, in request order. */
  lemma {:induction false} FoundInOrder(rs: seq<Http<Reply>>)
    requires forall i :: 0 <= i < |rs| ==> rs[i].Ok?
    ensures |Found(rs)| == |rs|
    ensures forall i :: 0 <= i < |rs| ==> Found(rs)[i] == rs[i].value
    decreases |rs|
  {
    if rs != [] {
      FoundInOrder(rs[..|rs| - 1]);
    }
  }

  /** The id "active" in a batch contributes an empty list. */
  lemma BatchActive(rows: seq<Entity>, up: bool, counters: map<string, int>, ids: seq<string>, ctx: Ctx, faults: seq<bool>, i: nat)
    requires i < |ids| && Text.Strip(ids[i]) == "active"
    ensures EmptyList in Found(Replies(rows, up, counters, ids, ctx, faults))
  {
    var rs := Replies(rows, up, counters, ids, ctx, faults);
    assert rs[i] == GetStarSpec(rows, up, counters, Text.Strip(ids[i]), ctx, FaultAt(faults, i));
    FoundMembers(rs);
  }

  // ---------------------------------------------------------------------------
  // Popular stars

  /** `key.split(":")[1]`: the text between the first and the second ':' of a
      counter key. */
  function KeyId(key: string): (id: string)
    requires Text.StartsWith(key, Popularity.KeyPrefix)
    ensures ':' !in id
  {
    var pieces := Text.SplitOn(key, ':');
    assert key[15] == ':';
    Text.SplitOnJoins(key, ':');
    pieces[1]
  }

  /** The id read back from a counter key is the star's id when the id has no ':';
      an id with a ':' is read back as the part before it, so its counter is credited
      to another id. */
  lemma KeyIdOfCounterKey(id: string)
    ensures ':' !in id ==> KeyId(Popularity.CounterKey(id)) == id
    ensures ':' in id ==> KeyId(Popularity.CounterKey(id)) != id
  {
    assert Popularity.CounterKey(id) == "star_popularity" + [':'] + id;
    Text.SplitAfterHead("star_popularity", ':', id);
    if ':' !in id {
      Text.SplitOnAbsent(id, ':');
    }
  }

  /** `int(await redis.get(key) or 0)`. */
  function Likes(counters: map<string, int>, key: string): int {
    if key in counters then counters[key] else 0
  }

  /** The stars the popular loop collects, key by key in the order KEYS gave them:
      those whose counter reaches the threshold and whose lookup succeeds. */
  function Collected(rows: seq<Entity>, counters: map<string, int>, keys: seq<string>, ctx: Ctx, faults: seq<bool>): seq<StarDetail>
    requires forall k :: k in keys ==> Text.StartsWith(k, Popularity.KeyPrefix)
    decreases |keys|
  {
    if keys == [] then []
    else
      var n := |keys| - 1;
      var key := keys[n];
      var init := Collected(rows, counters, keys[..n], ctx, faults);
      if Likes(counters, key) >= ctx.threshold then
        var l := StarLookup(rows, KeyId(key), Recent(true, counters, KeyId(key)), ctx, FaultAt(faults, n));
        init + (if l.Ok? then [l.value] else [])
      else init
  }

  /** Every collected star comes from a counter at or above the threshold, and was
      found in the table. */
  lemma {:induction false} CollectedQualify(rows: seq<Entity>, counters: map<string, int>, keys: seq<string>, ctx: Ctx, faults: seq<bool>)
    requires forall k :: k in keys ==> Text.StartsWith(k, Popularity.KeyPrefix)
    ensures forall d :: d in Collected(rows, counters, keys, ctx, faults) ==>
      exists i :: 0 <= i < |keys| && Likes(counters, keys[i]) >= ctx.threshold
        && StarLookup(rows, KeyId(keys[i]), Recent(true, counters, KeyId(keys[i])), ctx, FaultAt(faults, i)) == Ok(d)
    decreases |keys|
  {
    if keys != [] {
      var n := |keys| - 1;
      CollectedQualify(rows, counters, keys[..n], ctx, faults);
      forall d | d in Collected(rows, counters, keys, ctx, faults)
        ensures exists i :: (0 <= i < |keys| && Likes(counters, keys[i]) >= ctx.threshold
          && StarLookup(rows, KeyId(keys[i]), Recent(true, counters, KeyId(keys[i])), ctx, FaultAt(faults, i)) == Ok(d))
      {
        if d in Collected(rows, counters, keys[..n], ctx, faults) {
          var i :| 0 <= i < n && Likes(counters, keys[..n][i]) >= ctx.threshold
            && StarLookup(rows, KeyId(keys[..n][i]), Recent(true, counters, KeyId(keys[..n][i])), ctx, FaultAt(faults, i)) == Ok(d);
          assert keys[..n][i] == keys[i];
        }
      }
    }
  }

  /** Non-increasing brightness. */
  predicate SortedByBrightness(s: seq<StarDetail>) {
    forall i, j :: 0 <= i < j < |s| ==> s[i].view.brightness >= s[j].view.brightness
  }

  /** Places `x` after every element at least as bright as it. */
  function Insert(x: StarDetail, s: seq<StarDetail>): (r: seq<StarDetail>)
    ensures |r| == |s| + 1
  {
    if s == [] then [x]
    else if s[0].view.brightness >= x.view.brightness then [s[0]] + Insert(x, s[1..])
    else [x] + s
  }

  /** Inserting into a sorted sequence keeps it sorted and adds exactly `x`. */
  lemma {:induction false} InsertSorted(x: StarDetail, s: seq<StarDetail>)
    requires SortedByBrightness(s)
    ensures SortedByBrightness(Insert(x, s))
    ensures multiset(Insert(x, s)) == multiset(s) + multiset{x}
    decreases |s|
  {
    if s == [] {
    } else if s[0].view.brightness >= x.view.brightness {
      var t := Insert(x, s[1..]);
      SortedTail(s);
      InsertSorted(x, s[1..]);
      forall i | 0 <= i < |s[1..]| ensures s[1..][i].view.brightness <= s[0].view.brightness {
        assert s[1..][i] == s[i + 1];
      }
      BoundedAfterInsert(s[0], x, s[1..], t);
      ConsSorted(s[0], t);
      assert s == [s[0]] + s[1..];
      assert Insert(x, s) == [s[0]] + t;
    } else {
      ConsSorted(x, s);
    }
  }

  /** What an insertion holds is `x` or was already there, so a bound on both
      bounds the result. */
  lemma BoundedAfterInsert(h: StarDetail, x: StarDetail, s: seq<StarDetail>, t: seq<StarDetail>)
    requires multiset(t) == multiset(s) + multiset{x}
    requires x.view.brightness <= h.view.brightness
    requires forall i :: 0 <= i < |s| ==> s[i].view.brightness <= h.view.brightness
    ensures forall i :: 0 <= i < |t| ==> t[i].view.brightness <= h.view.brightness
  {
    forall i | 0 <= i < |t| ensures t[i].view.brightness <= h.view.brightness {
      assert t[i] in multiset(t);
      if t[i] != x {
        assert t[i] in multiset(s);
        var k :| 0 <= k < |s| && s[k] == t[i];
      }
    }
  }

  lemma ConsSorted(h: StarDetail, t: seq<StarDetail>)
    requires SortedByBrightness(t)
    requires forall i :: 0 <= i < |t| ==> t[i].view.brightness <= h.view.brightness
    ensures SortedByBrightness([h] + t)
  {
    forall i, j | 0 <= i < j < |t| + 1
      ensures ([h] + t)[i].view.brightness >= ([h] + t)[j].view.brightness
    {
      if i > 0 {
        assert ([h] + t)[i] == t[i - 1];
      }
      assert ([h] + t)[j] == t[j - 1];
    }
  }

  /** `sorted(popular_stars, key=lambda x: x["brightness"], reverse=True)`, a stable
      sort by insertion. */
  function SortByBrightness(s: seq<StarDetail>): (r: seq<StarDetail>)
    ensures |r| == |s|
    decreases |s|
  {
    if s == [] then [] else Insert(s[|s| - 1], SortByBrightness(s[..|s| - 1]))
  }

  /** The sort returns a sorted permutation of its input. */
  lemma {:induction false} SortSorted(s: seq<StarDetail>)
    ensures SortedByBrightness(SortByBrightness(s))
    ensures multiset(SortByBrightness(s)) == multiset(s)
    decreases |s|
  {
    if s != [] {
      var init := s[..|s| - 1];
      SortSorted(init);
      InsertSorted(s[|s| - 1], SortByBrightness(init));
      assert s == init + [s[|s| - 1]];
    }
  }

  /** The stars of brightness `b`, in order. */
  function WithBrightness(s: seq<StarDetail>, b: real): seq<StarDetail>
    decreases |s|
  {
    if s == [] then []
    else (if s[0].view.brightness == b then [s[0]] else []) + WithBrightness(s[1..], b)
  }

  lemma DetailsAssoc(a: seq<StarDetail>, b: seq<StarDetail>, c: seq<StarDetail>)
    ensures a + (b + c) == (a + b) + c
  {
  }

  lemma {:induction false} WithBrightnessConcat(s: seq<StarDetail>, t: seq<StarDetail>, b: real)
    ensures WithBrightness(s + t, b) == WithBrightness(s, b) + WithBrightness(t, b)
    decreases |s|
  {
    if s == [] {
      assert s + t == t;
    } else {
      var h := if s[0].view.brightness == b then [s[0]] else [];
      assert (s + t)[0] == s[0];
      assert (s + t)[1..] == s[1..] + t;
      assert WithBrightness(s + t, b) == h + WithBrightness(s[1..] + t, b);
      WithBrightnessConcat(s[1..], t, b);
      DetailsAssoc(h, WithBrightness(s[1..], b), WithBrightness(t, b));
    }
  }

  /** Inserting `x` into a sorted sequence puts it after every element of its own
      brightness. */
  lemma {:induction false} InsertKeepsTies(x: StarDetail, s: seq<StarDetail>, b: real)
    requires SortedByBrightness(s)
    ensures WithBrightness(Insert(x, s), b) == WithBrightness(s, b) + WithBrightness([x], b)
    decreases |s|
  {
    WithBrightnessCons(x, [], b);
    if s == [] {
    } else if s[0].view.brightness >= x.view.brightness {
      var t := Insert(x, s[1..]);
      assert Insert(x, s) == [s[0]] + t;
      SortedTail(s);
      InsertKeepsTies(x, s[1..], b);
      WithBrightnessCons(s[0], t, b);
      WithBrightnessCons(s[0], s[1..], b);
      assert s == [s[0]] + s[1..];
      DetailsAssoc(if s[0].view.brightness == b then [s[0]] else [], WithBrightness(s[1..], b), WithBrightness([x], b));
    } else {
      assert Insert(x, s) == [x] + s;
      WithBrightnessCons(x, s, b);
      NoneAtBrightness(s, x.view.brightness);
    }
  }

  /** The stars of brightness `b` in `[h] + t`. */
  lemma WithBrightnessCons(h: StarDetail, t: seq<StarDetail>, b: real)
    ensures WithBrightness([h] + t, b) == (if h.view.brightness == b then [h] else []) + WithBrightness(t, b)
  {
    assert ([h] + t)[1..] == t;
  }

  /** A sorted sequence stays sorted without its first element. */
  lemma SortedTail(s: seq<StarDetail>)
    requires s != [] && SortedByBrightness(s)
    ensures SortedByBrightness(s[1..])
  {
    forall i, j | 0 <= i < j < |s[1..]|
      ensures s[1..][i].view.brightness >= s[1..][j].view.brightness
    {
      assert s[1..][i] == s[i + 1] && s[1..][j] == s[j + 1];
    }
  }

  /** A sorted sequence that starts below `b` holds nothing of brightness `b`. */
  lemma {:induction false} NoneAtBrightness(s: seq<StarDetail>, b: real)
    requires SortedByBrightness(s)
    requires s != [] ==> s[0].view.brightness < b
    ensures WithBrightness(s, b) == []
    decreases |s|
  {
    if s != [] {
      NoneAtBrightness(s[1..], b);
    }
  }

  /** The sort is stable: the stars of any one brightness keep their input order. */
  lemma {:induction false} SortIsStable(s: seq<StarDetail>, b: real)
    ensures WithBrightness(SortByBrightness(s), b) == WithBrightness(s, b)
    decreases |s|
  {
    if s != [] {
      var init := s[..|s| - 1];
      SortIsStable(init, b);
      SortSorted(init);
      InsertKeepsTies(s[|s| - 1], SortByBrightness(init), b);
      assert s == init + [s[|s| - 1]];
      WithBrightnessConcat(init, [s[|s| - 1]], b);
    }
  }

  /** Every star of the popular list passed the threshold and was found, and the list
      is ordered by brightness, brightest first. */
  lemma PopularQualify(rows: seq<Entity>, counters: map<string, int>, keys: seq<string>, ctx: Ctx, faults: seq<bool>)
    requires forall k :: k in keys ==> Text.StartsWith(k, Popularity.KeyPrefix)
    ensures var r := SortByBrightness(Collected(rows, counters, keys, ctx, faults));
      && SortedByBrightness(r)
      && forall d :: d in r ==>
        exists i :: 0 <= i < |keys| && Likes(counters, keys[i]) >= ctx.threshold
          && StarLookup(rows, KeyId(keys[i]), Recent(true, counters, KeyId(keys[i])), ctx, FaultAt(faults, i)) == Ok(d)
  {
    var c := Collected(rows, counters, keys, ctx, faults);
    CollectedQualify(rows, counters, keys, ctx, faults);
    SortSorted(c);
    forall d | d in SortByBrightness(c) ensures d in c {
      assert d in multiset(SortByBrightness(c));
    }
  }

  // ---------------------------------------------------------------------------
  // Likes

  /** `min(100.0, b + 20.0)`. */
  function Boost(b: real): (r: real)
    ensures r <= 100.0
    ensures b <= 80.0 ==> r == b + 20.0
    ensures b >= 80.0 ==> r == 100.0
  {
    StarModel.Min(100.0, b + 20.0)
  }

  /** 100 is where repeated likes settle. */
  lemma BoostSettles(b: real)
    ensures Boost(Boost(b)) >= Boost(b)
    ensures Boost(b) == 100.0 ==> Boost(Boost(b)) == 100.0
  {
  }

  /** The found entity after `star["Brightness"] = min(...)` and
      `star["LastLiked"] = current_time`: those two properties change, nothing else. */
  function Liked(e: Entity, now: real): (f: Entity)
    requires NumAt(e, "Brightness").Some?
    ensures f.Keys == e.Keys + {"LastLiked"}
    ensures f["Brightness"] == VNum(Boost(AsNumber(e["Brightness"]))) && f["LastLiked"] == VNum(now)
    ensures forall k :: k in e && k != "Brightness" && k != "LastLiked" ==> f[k] == e[k]
  {
    e["Brightness" := VNum(Boost(AsNumber(e["Brightness"])))]["LastLiked" := VNum(now)]
  }

  /** Merging the liked entity into a well-keyed table replaces that one row by its
      liked version and leaves every other row as it was. */
  lemma MergeLiked(rows: seq<Entity>, i: nat, now: real)
    requires WellKeyed(rows) && i < |rows| && NumAt(rows[i], "Brightness").Some?
    ensures Keyed(Liked(rows[i], now))
    ensures MergeInto(rows, Liked(rows[i], now)) == rows[i := Liked(rows[i], now)]
  {
    var l := Liked(rows[i], now);
    assert KeyOf(l) == KeyOf(rows[i]);
    MergeEditedRow(rows, i, l);
  }

  /** The answer of `like_star`, which is also the payload of its "update" event. */
  datatype LikeReply = LikeReply(id: string, brightness: real, lastLiked: real)

  function LikePayload(r: LikeReply): seq<(string, Val)> {
    [("id", VStr(r.id)), ("brightness", VNum(r.brightness)), ("last_liked", VNum(r.lastLiked))]
  }

  // ---------------------------------------------------------------------------
  // New stars

  /** The `star_entity` dict of `add_star`, for the clock reading `now`, the month
      (`strftime('%Y%m')` of the UTC time) and a fresh uuid. */
  function NewStarEntity(s: StarModel.Star, now: real, yyyymm: string, uuid: string): (e: Entity)
    ensures Keyed(e) && KeyOf(e) == ("STAR_" + yyyymm, StarModel.IdOr(s.id, uuid))
    ensures "Brightness" in e && "LastLiked" in e && "CreatedAt" in e
    ensures e["Brightness"] == VNum(StarModel.RealOr(s.brightness, 100.0))
    ensures e["LastLiked"] == VNum(now) && e["CreatedAt"] == VNum(now)
  {
    map[
      "PartitionKey" := VStr("STAR_" + yyyymm),
      "RowKey" := VStr(StarModel.IdOr(s.id, uuid)),
      "X" := VNum(s.x),
      "Y" := VNum(s.y),
      "Message" := VStr(s.message),
      "Brightness" := VNum(StarModel.RealOr(s.brightness, 100.0)),
      "LastLiked" := VNum(now),
      "CreatedAt" := VNum(now)
    ]
  }

  /** `add_star` builds its entity by hand rather than with `Star.to_entity`. They
      agree on the keys, the coordinates, the message and CreatedAt; they differ on
      Brightness when the request had none or 0.0 (`to_entity` keeps it as it is),
      and on LastLiked when the request set one (`add_star` always uses the clock). */
  lemma NewStarVsToEntity(s: StarModel.Star, now: real, yyyymm: string, uuid: string)
    ensures var e := NewStarEntity(s, now, yyyymm, uuid);
      var t := StarModel.ToEntity(s, now, yyyymm, uuid);
      && (forall k :: k in ["PartitionKey", "RowKey", "X", "Y", "Message", "CreatedAt"] ==> k in t && t[k] == e[k])
      && (t["Brightness"] == e["Brightness"] <==> s.brightness.Some? && s.brightness.value != 0.0)
      && (t["LastLiked"] == e["LastLiked"] <==> s.lastLiked.None? || s.lastLiked.value == 0.0 || s.lastLiked.value == now)
  {
  }

  /** The answer of `add_star`, which is also the payload of its "create" event. */
  datatype AddReply = AddReply(id: string, x: real, y: real, message: string, brightness: real, lastLiked: real)

  /** The reply of `add_star`: the stored id and brightness, the request's
      coordinates and message, and the clock reading. */
  function AddReplyOf(s: StarModel.Star, e: Entity, now: real): (r: AddReply)
    requires "RowKey" in e && e["RowKey"].VStr?
    ensures r.id == e["RowKey"].str
  {
    AddReply(e["RowKey"].str, s.x, s.y, s.message, StarModel.RealOr(s.brightness, 100.0), now)
  }

  /** The answer and the "create" event report what was stored: the same id and
      brightness, and the same clock reading as LastLiked. */
  lemma AddReplyMatchesEntity(s: StarModel.Star, now: real, yyyymm: string, uuid: string)
    ensures var e := NewStarEntity(s, now, yyyymm, uuid);
      var r := AddReplyOf(s, e, now);
      && e["RowKey"] == VStr(r.id) && e["Brightness"] == VNum(r.brightness)
      && e["LastLiked"] == VNum(r.lastLiked) && e["X"] == VNum(r.x) && e["Y"] == VNum(r.y)
  {
  }

  function AddPayload(r: AddReply): seq<(string, Val)> {
    [("id", VStr(r.id)), ("x", VNum(r.x)), ("y", VNum(r.y)), ("message", VStr(r.message)),
     ("brightness", VNum(r.brightness)), ("last_liked", VNum(r.lastLiked))]
  }

  // ---------------------------------------------------------------------------
  // Removal

  /** The payload of the "delete" event: the id asked for, and the removed row's X,
      Y and Message read with `.get`. */
  function DeletePayload(id: string, e: Entity): seq<(string, Val)> {
    [("id", VStr(id)), ("x", GetOr(e, "X", VNone)), ("y", GetOr(e, "Y", VNone)),
     ("message", GetOr(e, "Message", VNone))]
  }

  /** Deleting by the found row's own key removes exactly that row. */
  lemma DeleteFound(rows: seq<Entity>, i: nat)
    requires WellKeyed(rows) && i < |rows|
    ensures Without(rows, KeyOf(rows[i])) == rows[..i] + rows[i + 1..]
  {
    IndexOfKeyUnique(rows, KeyOf(rows[i]), i);
    WithoutExactly(rows, KeyOf(rows[i]));
  }
}
