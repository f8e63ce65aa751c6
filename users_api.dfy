/** The user endpoints (src/api/users.py), on the Users table client and the user
    event queue. Whether each table call fails is a parameter. */
module UsersApi {
  import opened Wrappers
  import opened PyValue
  import opened TableStore
  import opened UserModel
  import StarModel
  import Sse
  import SsePublisher

  /** The partition every user lives in. */
  const UserPartition := "USER"

  /** A user as the read endpoints answer it. */
  datatype UserView = UserView(id: Val, name: Val, email: Val, createdAt: Val)

  /** An entity the read endpoints can answer from: a missing RowKey, Username or
      Email is a KeyError. */
  predicate Readable(e: Entity) {
    "RowKey" in e && "Username" in e && "Email" in e
  }

  /** The answer for one entity; CreatedAt is read with `.get`. */
  function ViewOf(e: Entity): UserView
    requires Readable(e)
  {
    UserView(e["RowKey"], e["Username"], e["Email"], GetOr(e, "CreatedAt", VNone))
  }

  /** `existing_user["Username"] = user.name; existing_user["Email"] = user.email`:
      only those two properties change. */
  function Edited(e: Entity, u: User): (f: Entity)
    ensures f.Keys == e.Keys + {"Username", "Email"}
    ensures f["Username"] == VStr(u.name) && f["Email"] == VStr(u.email)
    ensures forall k :: k in e && k != "Username" && k != "Email" ==> f[k] == e[k]
  {
    e["Username" := VStr(u.name)]["Email" := VStr(u.email)]
  }

  /** The answer of `create_user`: the stored RowKey as `user_id`, then the request's
      fields as `model_dump()` gives them (its `id` may be None). */
  datatype CreateReply = CreateReply(userId: string, user: User)

  function UserPayload(id: string, u: User): seq<(string, Val)> {
    [("id", VStr(id)), ("name", VStr(u.name)), ("email", VStr(u.email))]
  }

  /** `POST /`: a request the validator refuses never reaches the handler (422).
      The entity `to_entity` builds is created; a failed or duplicate create is an
      exception the handler does not catch (500). One "create" event follows. */
  method CreateUser(users: Table, q: Sse.Queues, u: User, now: string, uuid: string, fault: bool)
    returns (r: Http<CreateReply>)
    requires users.Valid()
    modifies users, q
    ensures users.Valid()
    ensures !Valid(u) ==> r.Fail? && r.status == 422
    ensures var e := ToEntity(u, now, uuid);
      && (r.Ok? <==> Valid(u) && !fault && IndexOfKey(old(users.rows), KeyOf(e)).None?)
      && (Valid(u) && r.Fail? ==> r.status == 500)
      && users.rows == (if r.Ok? then InsertByKey(old(users.rows), e) else old(users.rows))
      && (r.Ok? ==> VStr(r.value.userId) == e["RowKey"] && r.value.user == u)
    ensures q.users == if r.Ok? then old(q.users) + [SsePublisher.TypedEvent("create", UserPayload(r.value.userId, u))]
                       else old(q.users)
    ensures q.stars == old(q.stars)
  {
    if !Valid(u) {
      return Fail(422, "Unprocessable Entity");
    }
    var e := ToEntity(u, now, uuid);
    var ok := users.Create(e, fault);
    if !ok {
      return Fail(500, "Internal Server Error");
    }
    var id := StarModel.IdOr(u.id, uuid);
    SsePublisher.PublishUserEvent(q, "create", UserPayload(id, u));
    r := Ok(CreateReply(id, u));
  }

  /** `GET /`: the rows of partition USER in listing order; a failed query or a row
      without RowKey, Username or Email answers 500. */
  method GetUsers(users: Table, fault: bool) returns (r: Http<seq<UserView>>)
    ensures var part := InPartition(users.rows, UserPartition);
      && (r.Ok? <==> !fault && forall i :: 0 <= i < |part| ==> Readable(part[i]))
      && (r.Fail? ==> r.status == 500)
      && (r.Ok? ==> |r.value| == |part| && forall i :: 0 <= i < |part| ==> r.value[i] == ViewOf(part[i]))
  {
    var listed := users.Query(UserPartition, fault);
    if listed.Failure? {
      return Fail(500, "Error retrieving users");
    }
    var part := listed.value;
    var out := [];
    var i := 0;
    while i < |part|
      invariant 0 <= i <= |part|
      invariant |out| == i
      invariant forall j :: 0 <= j < i ==> Readable(part[j]) && out[j] == ViewOf(part[j])
    {
      if !Readable(part[i]) {
        return Fail(500, "Error retrieving users");
      }
      out := out + [ViewOf(part[i])];
      i := i + 1;
    }
    r := Ok(out);
  }

  /** Every user `get_users` answers lives in partition USER. */
  lemma GetUsersOnlyUsers(rows: seq<Entity>)
    ensures forall e :: e in InPartition(rows, UserPartition) ==>
      "PartitionKey" in e && e["PartitionKey"] == VStr("USER")
  {
  }

  /** `GET /{user_id}`: the row (USER, user_id); 404 when it is missing, when the
      call fails, or when the row cannot be read. */
  method GetUser(users: Table, id: string, fault: bool) returns (r: Http<UserView>)
    ensures var i := IndexOfKey(users.rows, (UserPartition, id));
      && (r.Ok? <==> !fault && i.Some? && Readable(users.rows[i.value]))
      && (r.Ok? ==> r.value == ViewOf(users.rows[i.value]))
      && (r.Fail? ==> r.status == 404)
  {
    var got := users.Get((UserPartition, id), fault);
    if got.Failure? || !Readable(got.value) {
      return Fail(404, "User not found");
    }
    r := Ok(ViewOf(got.value));
  }

  /** `PUT /{user_id}`: fetch (USER, user_id), set Username and Email, merge it back.
      A missing user or any failed call answers 404 and changes nothing; the other
      properties, CreatedAt among them, are kept, and the answer reports the stored
      CreatedAt. */
  method UpdateUser(users: Table, q: Sse.Queues, id: string, u: User, getFault: bool, updateFault: bool)
    returns (r: Http<UserView>)
    requires users.Valid()
    modifies users, q
    ensures users.Valid()
    ensures !Valid(u) ==> r.Fail? && r.status == 422
    ensures var i := IndexOfKey(old(users.rows), (UserPartition, id));
      && (r.Ok? <==> Valid(u) && !getFault && i.Some? && !updateFault)
      && (Valid(u) && r.Fail? ==> r.status == 404)
      && (r.Fail? ==> users.rows == old(users.rows))
      && (r.Ok? ==> users.rows == old(users.rows)[i.value := Edited(old(users.rows)[i.value], u)])
      && (r.Ok? ==> r.value == UserView(VStr(id), VStr(u.name), VStr(u.email),
                                        GetOr(old(users.rows)[i.value], "CreatedAt", VNone)))
    ensures q.users == if r.Ok? then old(q.users) + [SsePublisher.TypedEvent("update", UserPayload(id, u))]
                       else old(q.users)
    ensures q.stars == old(q.stars)
  {
    if !Valid(u) {
      return Fail(422, "Unprocessable Entity");
    }
    var got := users.Get((UserPartition, id), getFault);
    if got.Failure? {
      return Fail(404, "User not found");
    }
    var existing := got.value;
    ghost var i := IndexOfKey(users.rows, (UserPartition, id)).value;
    var edited := Edited(existing, u);
    assert KeyOf(edited) == KeyOf(existing);
    MergeEditedRow(users.rows, i, edited);
    var ok := users.Update(edited, updateFault);
    if !ok {
      return Fail(404, "User not found");
    }
    SsePublisher.PublishUserEvent(q, "update", UserPayload(id, u));
    r := Ok(UserView(VStr(id), VStr(u.name), VStr(u.email), GetOr(existing, "CreatedAt", VNone)));
  }

  /** `DELETE /{user_id}`: fetch (USER, user_id) to check it exists, delete it and
      publish a "delete" event carrying only the id. A missing user or any failed
      call answers 404 and changes nothing. */
  method DeleteUser(users: Table, q: Sse.Queues, id: string, getFault: bool, deleteFault: bool)
    returns (r: Http<Val>)
    requires users.Valid()
    modifies users, q
    ensures users.Valid()
    ensures var i := IndexOfKey(old(users.rows), (UserPartition, id));
      && (r.Ok? <==> !getFault && i.Some? && !deleteFault)
      && (r.Fail? ==> r.status == 404 && users.rows == old(users.rows))
      && (r.Ok? ==> users.rows == old(users.rows)[..i.value] + old(users.rows)[i.value + 1..])
      && (r.Ok? ==> r.value == VDict([("id", VStr(id)), ("status", VStr("deleted"))]))
    ensures q.users == if r.Ok? then old(q.users) + [SsePublisher.TypedEvent("delete", [("id", VStr(id))])]
                       else old(q.users)
    ensures q.stars == old(q.stars)
  {
    var got := users.Get((UserPartition, id), getFault);
    if got.Failure? {
      return Fail(404, "User not found");
    }
    WithoutExactly(users.rows, (UserPartition, id));
    var ok := users.Delete((UserPartition, id), deleteFault);
    if !ok {
      return Fail(404, "User not found");
    }
    SsePublisher.PublishUserEvent(q, "delete", [("id", VStr(id))]);
    r := Ok(VDict([("id", VStr(id)), ("status", VStr("deleted"))]));
  }

  /** `GET /{user_id}/stars`: an empty list for every existing user, 404 otherwise. */
  method GetUserStars(users: Table, id: string, fault: bool) returns (r: Http<seq<Val>>)
    ensures r.Ok? <==> !fault && IndexOfKey(users.rows, (UserPartition, id)).Some?
    ensures r.Ok? ==> r.value == []
    ensures r.Fail? ==> r.status == 404
  {
    var got := users.Get((UserPartition, id), fault);
    if got.Failure? {
      return Fail(404, "User not found");
    }
    r := Ok([]);
  }
}
