/**
 * The profile update of app/api/user/update/route.ts: who may update, the
 * name and avatar rules, and the one user row that changes. The session,
 * the request body and the user table are parameters.
 */
module UserUpdate {
  import opened Options
  import opened Json
  import opened Text

  /** A user row; `update` may change only `name` and `image`. */
  datatype UserRow = UserRow(name: Option<string>, image: Option<string>, email: Option<string>, isBanned: bool)

  /** The answers of `POST`, each with its HTTP status code. */
  datatype UpdateResponse =
    | Unauthorized                                  // 401
    | NameTooShort                                  // 400
    | InvalidImage                                  // 400
    | Failed                                        // 500
    | Updated(name: string, image: Option<string>)  // 200

  /** The verdict of the two field checks on the destructured body. */
  datatype Validation =
    | BadName
    | BadImage
    | TypeError
    | Accepted(name: string, image: Option<string>)

  const MinNameLength := 2

  /** `body.key` for a body that is not `null`: `None` stands for `undefined`. */
  function Property(body: Value, key: string): Option<Value> {
    if body.Obj? && key in body.fields then Some(body.fields[key]) else None
  }

  predicate Falsy(v: Option<Value>) {
    v.None? || !Truthy(v.value)
  }

  /** An avatar is a URL or a path under the uploads directory. */
  predicate AllowedImage(image: string) {
    StartsWith(image, "http") || StartsWith(image, "/uploads/")
  }

  /** The checks on `name` and then `image`. A falsy name is refused; a truthy
      name that is not a string has no `trim` and throws; a string name must
      keep two characters once trimmed. Only then is the image looked at: a
      falsy image means none; a truthy one that is not a string has no
      `startsWith` and throws; a string must be an allowed avatar. */
  function Validate(name: Option<Value>, image: Option<Value>): (v: Validation)
    ensures v.Accepted? <==>
      && name.Some? && name.value.Str? && |Trim(name.value.s)| >= MinNameLength
      && (Falsy(image) || (image.value.Str? && AllowedImage(image.value.s)))
    ensures v.Accepted? ==>
      && v.name == Trim(name.value.s)
      && (v.image.None? <==> Falsy(image))
      && (v.image.Some? ==> v.image.value == image.value.s && v.image.value != [] && AllowedImage(v.image.value))
    ensures Falsy(name) ==> v == BadName
  {
    if Falsy(name) then BadName
    else if !name.value.Str? then TypeError
    else if |Trim(name.value.s)| < MinNameLength then BadName
    else if Falsy(image) then Accepted(Trim(name.value.s), None)
    else if !image.value.Str? then TypeError
    else if !AllowedImage(image.value.s) then BadImage
    else Accepted(Trim(name.value.s), Some(image.value.s))
  }

  datatype UpdateOutcome = UpdateOutcome(response: UpdateResponse, users: map<string, UserRow>)

  /** `POST /api/user/update` for the signed-in user id `session` (or none)
      and the body `body` (`None` when it is not JSON). Without a session the
      body is not read; only an update that is answered 200 changes the table,
      and then only the session user's name and image. */
  function UpdateProfile(users: map<string, UserRow>, session: Option<string>, body: Option<Value>): (o: UpdateOutcome)
    ensures o.response.Unauthorized? <==> session.None?
    ensures !o.response.Updated? ==> o.users == users
    ensures o.response.Updated? ==>
      && session.Some? && session.value in users
      && o.users == users[session.value := users[session.value].(name := Some(o.response.name), image := o.response.image)]
    ensures o.response.Updated? ==>
      && body.Some?
      && Validate(Property(body.value, "name"), Property(body.value, "image")) == Accepted(o.response.name, o.response.image)
  {
    if session.None? then UpdateOutcome(Unauthorized, users)
    else if body.None? || body.value.Null? then UpdateOutcome(Failed, users)
    else
      match Validate(Property(body.value, "name"), Property(body.value, "image"))
      case BadName => UpdateOutcome(NameTooShort, users)
      case BadImage => UpdateOutcome(InvalidImage, users)
      case TypeError => UpdateOutcome(Failed, users)
      case Accepted(name, image) =>
        var id := session.value;
        if id !in users then UpdateOutcome(Failed, users)
        else UpdateOutcome(Updated(name, image), users[id := users[id].(name := Some(name), image := image)])
  }

  /** A name that is missing, empty, or shorter than two characters once
      trimmed is answered 400, whatever the image. */
  lemma ShortNameRefused(users: map<string, UserRow>, id: string, fields: map<string, Value>)
    requires "name" !in fields || !Truthy(fields["name"]) ||
             (fields["name"].Str? && |Trim(fields["name"].s)| < MinNameLength)
    ensures UpdateProfile(users, Some(id), Some(Obj(fields))).response == NameTooShort
  {
  }

  /** The name is checked before the image: a body whose name fails gets the
      name's answer whatever its image is. */
  lemma NameCheckedFirst(users: map<string, UserRow>, id: string, fields: map<string, Value>, image: Value)
    requires "name" !in fields || !Truthy(fields["name"]) ||
             (fields["name"].Str? && |Trim(fields["name"].s)| < MinNameLength)
    ensures UpdateProfile(users, Some(id), Some(Obj(fields["image" := image]))).response
         == UpdateProfile(users, Some(id), Some(Obj(fields))).response
  {
    assert Property(Obj(fields["image" := image]), "name") == Property(Obj(fields), "name");
  }

  /** With a good name, a non-empty image that is neither a URL nor an upload
      path is answered 400, and an empty image is accepted as no image. */
  lemma ImageRule(users: map<string, UserRow>, id: string, name: string, image: string)
    requires |Trim(name)| >= MinNameLength && id in users
    ensures var o := UpdateProfile(users, Some(id), Some(Obj(map["name" := Str(name), "image" := Str(image)])));
      && (image != [] && !AllowedImage(image) ==> o.response == InvalidImage)
      && (image == [] ==> o.response == Updated(Trim(name), None))
      && (image != [] && AllowedImage(image) ==> o.response == Updated(Trim(name), Some(image)))
  {
    var body := Obj(map["name" := Str(name), "image" := Str(image)]);
    assert Property(body, "name") == Some(Str(name));
    assert Property(body, "image") == Some(Str(image));
    ValidateStrings(name, image);
    var v := Validate(Some(Str(name)), Some(Str(image)));
    var o := UpdateProfile(users, Some(id), Some(body));
    if v.Accepted? {
      assert o.response == Updated(v.name, v.image);
    } else {
      assert o.response == InvalidImage;
    }
  }

  /** The checks on a string name that is long enough and a string image. */
  lemma ValidateStrings(name: string, image: string)
    requires |Trim(name)| >= MinNameLength
    ensures Validate(Some(Str(name)), Some(Str(image))) ==
      if image == [] then Accepted(Trim(name), None)
      else if AllowedImage(image) then Accepted(Trim(name), Some(image))
      else BadImage
  {
    assert name != [];
    assert !Falsy(Some(Str(name)));
    assert Falsy(Some(Str(image))) <==> image == [];
  }

  /** The name that is stored is the trimmed name, of at least two characters. */
  lemma StoredName(users: map<string, UserRow>, session: Option<string>, body: Option<Value>)
    ensures var o := UpdateProfile(users, session, body);
      o.response.Updated? ==>
        && body.Some? && body.value.Obj? && "name" in body.value.fields && body.value.fields["name"].Str?
        && o.response.name == Trim(body.value.fields["name"].s)
        && |o.response.name| >= MinNameLength
  {
    var o := UpdateProfile(users, session, body);
    if o.response.Updated? {
      var name := Property(body.value, "name");
      var v := Validate(name, Property(body.value, "image"));
      assert v.Accepted? && o.response.name == v.name;
      assert name.Some? && name.value.Str? && v.name == Trim(name.value.s);
      assert body.value.Obj? && "name" in body.value.fields && name.value == body.value.fields["name"];
    }
  }

  /** The answer echoes the row as stored; the row's other columns are kept. */
  lemma StoredRow(users: map<string, UserRow>, session: Option<string>, body: Option<Value>)
    ensures var o := UpdateProfile(users, session, body);
      o.response.Updated? ==>
        var row := o.users[session.value];
        && row.name == Some(o.response.name) && row.image == o.response.image
        && row.email == users[session.value].email && row.isBanned == users[session.value].isBanned
  {
  }

  /** Sending the same update again changes nothing more. */
  lemma UpdateIdempotent(users: map<string, UserRow>, session: Option<string>, body: Option<Value>)
    ensures var o := UpdateProfile(users, session, body);
      UpdateProfile(o.users, session, body) == o
  {
    var o := UpdateProfile(users, session, body);
    if o.response.Updated? {
      var id := session.value;
      var v := Validate(Property(body.value, "name"), Property(body.value, "image"));
      assert v == Accepted(o.response.name, o.response.image);
      assert id in o.users;
      assert o.users[id := o.users[id].(name := Some(v.name), image := v.image)] == o.users;
    }
  }

  /** The user table, changed in place by a successful update. */
  class UserTable {
    var users: map<string, UserRow>

    constructor (users: map<string, UserRow>)
      ensures this.users == users
    {
      this.users := users;
    }

    /** `POST /api/user/update`. */
    method Update(session: Option<string>, body: Option<Value>) returns (response: UpdateResponse)
      modifies this
      ensures UpdateOutcome(response, users) == UpdateProfile(old(users), session, body)
    {
      if session.None? {
        return Unauthorized;
      }
      if body.None? || body.value.Null? {
        return Failed;
      }
      var checked := Validate(Property(body.value, "name"), Property(body.value, "image"));
      match checked {
        case BadName => return NameTooShort;
        case BadImage => return InvalidImage;
        case TypeError => return Failed;
        case Accepted(name, image) =>
          var id := session.value;
          if id !in users {
            return Failed;
          }
          users := users[id := users[id].(name := Some(name), image := image)];
          response := Updated(name, image);
      }
    }
  }
}
