/** The user record (src/models/user.py): the name validator and the conversion to
    and from a table entity. */
module UserModel {
  import opened Wrappers
  import opened PyValue
  import StarModel

  /** A user as the API receives it. `createdAt` is the ISO text of the timestamp;
      parsing it into a datetime is not modelled. */
  datatype User = User(id: Option<string>, name: string, email: string, createdAt: Option<string>)

  /** The shortest name a user may have. */
  const MinNameLength := 2

  /** `validate_name`: at least 2 characters. */
  function ValidateName(v: string): (r: Result<string>)
    ensures r.Success? <==> |v| >= MinNameLength
    ensures r.Success? ==> r.value == v
  {
    if |v| < MinNameLength then Failure("Name must be at least 2 characters") else Success(v)
  }

  /** What the model's validators accept. The email is a plain `str`: nothing checks
      its form. */
  predicate Valid(u: User) {
    ValidateName(u.name).Success?
  }

  /** A user is valid exactly when its name has two characters or more, whatever its
      email is. */
  lemma ValidIff(u: User)
    ensures Valid(u) <==> |u.name| >= 2
    ensures forall email: string :: Valid(u.(email := email)) == Valid(u)
  {
  }

  /** `to_entity`, with the clock's ISO text and a fresh uuid as parameters. */
  function ToEntity(u: User, now: string, uuid: string): (e: Entity)
    ensures "PartitionKey" in e && e["PartitionKey"] == VStr("USER")
    ensures "RowKey" in e && e["RowKey"] == VStr(StarModel.IdOr(u.id, uuid))
    ensures "Username" in e && e["Username"] == VStr(u.name)
    ensures "Email" in e && e["Email"] == VStr(u.email)
  {
    map[
      "PartitionKey" := VStr("USER"),
      "RowKey" := VStr(StarModel.IdOr(u.id, uuid)),
      "Username" := VStr(u.name),
      "Email" := VStr(u.email),
      "CreatedAt" := VStr(now)
    ]
  }

  /** `from_entity`: a missing RowKey, Username or Email is a KeyError; a value of
      the wrong kind, or a name the validator refuses, is a validation error. */
  function FromEntity(e: Entity): (r: Result<User>)
    ensures r.Success? ==> Valid(r.value)
    ensures r.Success? ==> "Username" in e && e["Username"] == VStr(r.value.name)
    ensures r.Success? ==> "Email" in e && e["Email"] == VStr(r.value.email)
  {
    if !("RowKey" in e && "Username" in e && "Email" in e) then Failure("KeyError")
    else if !((e["RowKey"].VStr? || e["RowKey"].VNone?) && e["Username"].VStr? && e["Email"].VStr?) then
      Failure("Input should be a valid string")
    else
      var created := GetOr(e, "CreatedAt", VNone);
      if !(created.VStr? || created.VNone?) then Failure("Input should be a valid datetime")
      else
        var u := User(if e["RowKey"].VStr? then Some(e["RowKey"].str) else None,
                      e["Username"].str, e["Email"].str,
                      if created.VStr? then Some(created.str) else None);
        if Valid(u) then Success(u) else Failure("Name must be at least 2 characters")
  }

  /** Reading back a valid user's entity gives the same name and email, the same id
      when it was non-empty (else the fresh uuid), and the stored creation time. */
  lemma EntityRoundTrip(u: User, now: string, uuid: string)
    requires Valid(u)
    ensures FromEntity(ToEntity(u, now, uuid)).Success?
    ensures var t := FromEntity(ToEntity(u, now, uuid)).value;
      && t.name == u.name && t.email == u.email && t.createdAt == Some(now)
      && (u.id.Some? && u.id.value != "" ==> t.id == u.id)
      && (u.id.None? || u.id.value == "" ==> t.id == Some(uuid))
  {
  }
}
