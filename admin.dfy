/** The admin endpoints (src/api/admin.py): the API-key check and the removal of
    every star. */
module Admin {
  import opened Wrappers
  import opened PyValue
  import opened TableStore
  import Text
  import Sse

  /** `get_api_key`: with no key configured (`ADMIN_API_KEY` empty) every request is
      refused with 503; otherwise the supplied `X-API-Key` header, absent or not, is
      accepted exactly when it equals the configured key, and returned unchanged. */
  function GetApiKey(configured: string, supplied: Option<string>): (r: Http<string>)
    ensures configured == "" ==> r.Fail? && r.status == 503
    ensures configured != "" ==> (r.Ok? <==> supplied == Some(configured))
    ensures configured != "" && r.Fail? ==> r.status == 401
    ensures r.Ok? ==> supplied == Some(r.value)
  {
    if configured == "" then Fail(503, "API key authentication is not configured")
    else if supplied == Some(configured) then Ok(configured)
    else Fail(401, "Invalid API Key")
  }

  /** The rows left after deleting each listed row whose delete succeeded: exactly
      the ones whose delete failed, in listing order. */
  function Survivors(listed: seq<Entity>, faults: seq<bool>): seq<Entity>
    decreases |listed|
  {
    if listed == [] then []
    else
      var n := |listed| - 1;
      Survivors(listed[..n], faults) + (if n < |faults| && faults[n] then [listed[n]] else [])
  }

  /** Every listed row whose delete failed survives. */
  lemma {:induction false} FailedSurvive(listed: seq<Entity>, faults: seq<bool>)
    ensures forall i :: 0 <= i < |listed| && i < |faults| && faults[i] ==> listed[i] in Survivors(listed, faults)
    decreases |listed|
  {
    if listed != [] {
      var n := |listed| - 1;
      FailedSurvive(listed[..n], faults);
      forall i | 0 <= i < |listed| && i < |faults| && faults[i] ensures listed[i] in Survivors(listed, faults) {
        if i < n {
          assert listed[..n][i] == listed[i];
        }
      }
    }
  }

  /** Only listed rows survive, and each of them only when its delete failed. */
  lemma {:induction false} SurvivorsListed(listed: seq<Entity>, faults: seq<bool>)
    ensures forall e :: e in Survivors(listed, faults) ==>
      exists i :: 0 <= i < |listed| && i < |faults| && faults[i] && listed[i] == e
    decreases |listed|
  {
    if listed != [] {
      var n := |listed| - 1;
      SurvivorsListed(listed[..n], faults);
      forall e | e in Survivors(listed, faults)
        ensures exists i :: 0 <= i < |listed| && i < |faults| && faults[i] && listed[i] == e
      {
        if e in Survivors(listed[..n], faults) {
          var i :| 0 <= i < n && i < |faults| && faults[i] && listed[..n][i] == e;
          assert listed[i] == e;
        } else {
          assert n < |faults| && faults[n] && listed[n] == e;
        }
      }
    }
  }

  /** With no failed delete the table ends up empty. */
  lemma {:induction false} NoFaultsNoSurvivors(listed: seq<Entity>, faults: seq<bool>)
    requires forall i :: 0 <= i < |faults| ==> !faults[i]
    ensures Survivors(listed, faults) == []
    decreases |listed|
  {
    if listed != [] {
      NoFaultsNoSurvivors(listed[..|listed| - 1], faults);
    }
  }

  /** The answer of `remove_all_stars`. */
  datatype RemoveAllReply = RemoveAllReply(message: string, count: nat)

  /** The event `remove_all_stars` puts: `{"event": "remove_all"}`, not the
      `{"type", "data"}` shape of the publisher. */
  const RemoveAllEvent := VDict([("event", VStr("remove_all"))])

  /** `DELETE /stars`: list the table (a failure is not caught: 500), attempt a delete
      for every listed row, the i-th failing when `deleteFaults` says so without
      stopping the others, put one event (a failed put, `putFault`, is only logged),
      and report how many rows were listed. */
  method RemoveAllStars(stars: Table, q: Sse.Queues, listFault: bool, deleteFaults: seq<bool>, putFault: bool)
    returns (r: Http<RemoveAllReply>)
    requires stars.Valid()
    modifies stars, q
    ensures stars.Valid()
    ensures r.Ok? <==> !listFault
    ensures r.Fail? ==> r.status == 500 && stars.rows == old(stars.rows) && q.stars == old(q.stars)
    ensures r.Ok? ==> stars.rows == Survivors(old(stars.rows), deleteFaults)
    ensures r.Ok? ==> r.value.count == |old(stars.rows)|
    ensures r.Ok? ==> r.value.message == "All stars removed (" + Text.NatToString(|old(stars.rows)|) + " total)"
    ensures r.Ok? ==> q.stars == old(q.stars) + (if putFault then [] else [RemoveAllEvent])
    ensures q.users == old(q.users)
  {
    var listed := stars.List(listFault);
    if listed.Failure? {
      return Fail(500, "Internal Server Error");
    }
    var all := listed.value;
    var count := |all|;
    DeleteEach(stars, all, deleteFaults);
    if !putFault {
      q.stars := q.stars + [RemoveAllEvent];
    }
    r := Ok(RemoveAllReply("All stars removed (" + Text.NatToString(count) + " total)", count));
  }

  /** The delete loop: a delete for every listed row, the i-th failing when
      `faults` says so; a failure does not stop the loop. */
  method DeleteEach(stars: Table, all: seq<Entity>, faults: seq<bool>)
    requires stars.Valid() && stars.rows == all
    modifies stars
    ensures stars.Valid()
    ensures stars.rows == Survivors(all, faults)
  {
    var i := 0;
    while i < |all|
      invariant 0 <= i <= |all|
      invariant stars.Valid() && WellKeyed(all)
      invariant stars.rows == Survivors(all[..i], faults) + all[i..]
    {
      var star := all[i];
      var failed := i < |faults| && faults[i];
      var _ := stars.Delete(KeyOf(star), failed);
      if failed {
        DeleteFailed(all, i, faults);
      } else {
        DeleteSucceeded(all, i, faults);
      }
      i := i + 1;
    }
    LoopDone(all, faults);
  }

  /** One step of the delete loop when the delete of the `i`-th listed row fails:
      that row stays among the survivors. */
  lemma DeleteFailed(all: seq<Entity>, i: nat, faults: seq<bool>)
    requires i < |all| && i < |faults| && faults[i]
    ensures Survivors(all[..i], faults) + all[i..] == Survivors(all[..i + 1], faults) + all[i + 1..]
  {
    var s := Survivors(all[..i], faults);
    SurvivorsSnoc(all, i, faults);
    SplitAt(s, all, i);
    assert s + ([all[i]] + all[i + 1..]) == (s + [all[i]]) + all[i + 1..];
  }

  /** One step of the delete loop when the delete of the `i`-th listed row
      succeeds: just that row goes. */
  lemma DeleteSucceeded(all: seq<Entity>, i: nat, faults: seq<bool>)
    requires WellKeyed(all) && i < |all| && !(i < |faults| && faults[i])
    ensures Without(Survivors(all[..i], faults) + all[i..], KeyOf(all[i])) == Survivors(all[..i + 1], faults) + all[i + 1..]
  {
    OthersLackKey(all, i, faults);
    DropListed(all, i, faults);
  }

  /** In a well-keyed listing, neither the survivors before row `i` nor the rows
      after it have row `i`'s key. */
  lemma OthersLackKey(all: seq<Entity>, i: nat, faults: seq<bool>)
    requires WellKeyed(all) && i < |all|
    ensures forall e :: e in Survivors(all[..i], faults) ==> !HasKey(e, KeyOf(all[i]))
    ensures forall e :: e in all[i + 1..] ==> !HasKey(e, KeyOf(all[i]))
  {
    var s := Survivors(all[..i], faults);
    var k := KeyOf(all[i]);
    SurvivorsListed(all[..i], faults);
    EarlierLackKey(all, i);
    forall e | e in s ensures !HasKey(e, k) {
      var j :| 0 <= j < i && j < |faults| && faults[j] && all[..i][j] == e;
      assert e in all[..i];
    }
    LaterLackKey(all, i);
  }

  lemma DropListed(all: seq<Entity>, i: nat, faults: seq<bool>)
    requires i < |all| && Keyed(all[i]) && !(i < |faults| && faults[i])
    requires forall e :: e in Survivors(all[..i], faults) ==> !HasKey(e, KeyOf(all[i]))
    requires forall e :: e in all[i + 1..] ==> !HasKey(e, KeyOf(all[i]))
    ensures Without(Survivors(all[..i], faults) + all[i..], KeyOf(all[i])) == Survivors(all[..i + 1], faults) + all[i + 1..]
  {
    var s := Survivors(all[..i], faults);
    SurvivorsSnoc(all, i, faults);
    SplitAt(s, all, i);
    DropKey(s, all[i], all[i + 1..], KeyOf(all[i]));
  }

  /** Visiting row `i` adds it to the survivors exactly when its delete fails. */
  lemma SurvivorsSnoc(all: seq<Entity>, i: nat, faults: seq<bool>)
    requires i < |all|
    ensures i < |faults| && faults[i] ==> Survivors(all[..i + 1], faults) == Survivors(all[..i], faults) + [all[i]]
    ensures !(i < |faults| && faults[i]) ==> Survivors(all[..i + 1], faults) == Survivors(all[..i], faults)
  {
    assert all[..i + 1][..i] == all[..i];
    assert all[..i + 1][i] == all[i];
  }

  /** The rows from `i` on are row `i` followed by the rows after it. */
  lemma SplitAt(s: seq<Entity>, all: seq<Entity>, i: nat)
    requires i < |all|
    ensures s + all[i..] == s + ([all[i]] + all[i + 1..])
  {
    assert all[i..] == [all[i]] + all[i + 1..];
  }

  lemma LoopDone(all: seq<Entity>, faults: seq<bool>)
    ensures Survivors(all[..|all|], faults) + all[|all|..] == Survivors(all, faults)
  {
    assert all[..|all|] == all;
    assert all[|all|..] == [];
  }

  /** Removing the key of `x` from `s + [x] + rest`, where no other row has it. */
  lemma DropKey(s: seq<Entity>, x: Entity, rest: seq<Entity>, k: Key)
    requires HasKey(x, k)
    requires forall e :: e in s ==> !HasKey(e, k)
    requires forall e :: e in rest ==> !HasKey(e, k)
    ensures Without(s + ([x] + rest), k) == s + rest
  {
    WithoutConcat(s, [x] + rest, k);
    WithoutAbsent(s, k);
    var xr := [x] + rest;
    assert xr[0] == x && xr[1..] == rest;
    assert Without(xr, k) == Without(rest, k);
    WithoutAbsent(rest, k);
  }

  lemma EarlierLackKey(all: seq<Entity>, i: nat)
    requires WellKeyed(all) && i < |all|
    ensures forall e :: e in all[..i] ==> !HasKey(e, KeyOf(all[i]))
  {
    forall e | e in all[..i] ensures !HasKey(e, KeyOf(all[i])) {
      var j :| 0 <= j < i && all[..i][j] == e;
      assert all[j] == e;
    }
  }

  lemma LaterLackKey(all: seq<Entity>, i: nat)
    requires WellKeyed(all) && i < |all|
    ensures forall e :: e in all[i + 1..] ==> !HasKey(e, KeyOf(all[i]))
  {
    forall e | e in all[i + 1..] ensures !HasKey(e, KeyOf(all[i])) {
      var j :| 0 <= j < |all| - (i + 1) && all[i + 1..][j] == e;
      assert all[i + 1 + j] == e;
    }
  }
}
