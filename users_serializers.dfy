/** The registration serializer (users/serializers.py): the password
    confirmation check, and the create step that drops the confirmation,
    stores the user with its optional columns defaulted, and stores the
    password only through the password hasher. */
module UsersSerializers {
  import opened Common
  import opened Users
  import opened Db

  /** A validated input value: text, a date (as a day number), an uploaded
      file (by its path), or an explicit null. */
  datatype Value = Text(text: string) | Day(day: int) | File(path: string) | Null

  /** A serializer error keyed by field. */
  datatype ValidationError = ValidationError(field: string, message: string)

  const PasswordMismatch: string := "Password fields didn't match."

  /** RegisterSerializer.validate. Both password fields are required, so
      they are present by the time it runs. */
  function Validate(attrs: map<string, Value>): (r: Result<map<string, Value>, ValidationError>)
    requires "password" in attrs && "password2" in attrs
    ensures r.Ok? <==> attrs["password"] == attrs["password2"]
    ensures r.Ok? ==> r.value == attrs
    ensures r.Err? ==> r.error == ValidationError("password", PasswordMismatch)
  {
    if attrs["password"] != attrs["password2"] then Err(ValidationError("password", PasswordMismatch))
    else Ok(attrs)
  }

  /** What create may read from validated data: the required text fields,
      and the optional ones of the right kind when present. */
  predicate Validated(data: map<string, Value>) {
    "email" in data && data["email"].Text? &&
    "username" in data && data["username"].Text? &&
    "password" in data && data["password"].Text? &&
    "password2" in data &&
    ("bio" in data ==> data["bio"].Text?) &&
    ("gender" in data ==> data["gender"].Text?) &&
    ("date_of_birth" in data ==> data["date_of_birth"].Day? || data["date_of_birth"].Null?) &&
    ("profile_picture" in data ==> data["profile_picture"].File? || data["profile_picture"].Null?)
  }

  /** validated_data.get(key, '') for a text field. */
  function TextOr(data: map<string, Value>, key: string): (s: string)
    requires key in data ==> data[key].Text?
    ensures key !in data ==> s == ""
    ensures key in data ==> s == data[key].text
  {
    if key in data then data[key].text else ""
  }

  /** validated_data.get('date_of_birth'): none when absent or null. */
  function DayOrNone(data: map<string, Value>, key: string): (d: Option<int>)
    requires key in data ==> data[key].Day? || data[key].Null?
    ensures d.Some? <==> key in data && data[key].Day?
    ensures d.Some? ==> d.value == data[key].day
  {
    if key in data && data[key].Day? then Some(data[key].day) else None
  }

  /** validated_data.get('profile_picture'): none when absent or null. */
  function FileOrNone(data: map<string, Value>, key: string): (f: Option<string>)
    requires key in data ==> data[key].File? || data[key].Null?
    ensures f.Some? <==> key in data && data[key].File?
    ensures f.Some? ==> f.value == data[key].path
  {
    if key in data && data[key].File? then Some(data[key].path) else None
  }

  /** The user row create stores before the password is set: the required
      columns copied, the optional ones defaulted, and the password column
      still empty. */
  function NewUser(data: map<string, Value>, id: UserId, createdAt: int): (u: User)
    requires Validated(data)
    ensures u.id == id && u.createdAt == createdAt
    ensures u.email == data["email"].text && u.username == data["username"].text
    ensures u.password == ""
    ensures "bio" !in data ==> u.bio == ""
    ensures "gender" !in data ==> u.gender == ""
    ensures "date_of_birth" !in data ==> u.dateOfBirth.None?
    ensures "profile_picture" !in data ==> u.profilePicture.None?
    ensures u.bio == TextOr(data, "bio") && u.gender == TextOr(data, "gender")
    ensures u.dateOfBirth == DayOrNone(data, "date_of_birth")
    ensures u.profilePicture == FileOrNone(data, "profile_picture")
    ensures !u.isPrivateAccount
  {
    User(id, data["email"].text, data["username"].text, "", TextOr(data, "bio"),
         DayOrNone(data, "date_of_birth"), TextOr(data, "gender"), FileOrNone(data, "profile_picture"),
         false, createdAt)
  }

  /** RegisterSerializer.create. `hash` stands for the password hasher behind
      set_password; `remaining` is validated_data after pop('password2').
      A failed insert on a unique column returns the database's error and
      leaves the user table as it was. */
  method Create(db: Database, validatedData: map<string, Value>, hash: string -> string)
    returns (r: Result<User, string>, remaining: map<string, Value>)
    requires db.Valid()
    requires Validated(validatedData)
    modifies db
    ensures db.Valid()
    ensures remaining == validatedData - {"password2"}
    ensures "password2" !in remaining
    ensures r.Err? <==>
      exists u :: u in old(db.users) &&
        (u.email == validatedData["email"].text || u.username == validatedData["username"].text)
    ensures r.Err? ==> r.error == IntegrityError && db.users == old(db.users) &&
                       db.nextUserId == old(db.nextUserId) && db.clock == old(db.clock)
    ensures r.Ok? ==>
      r.value == NewUser(validatedData, old(db.nextUserId), old(db.clock))
                   .(password := hash(validatedData["password"].text)) &&
      db.users == old(db.users) + [r.value] &&
      db.nextUserId == old(db.nextUserId) + 1 && db.clock == old(db.clock) + 1
    ensures db.requests == old(db.requests) && db.friendships == old(db.friendships)
    ensures db.posts == old(db.posts) && db.media == old(db.media)
    ensures db.nextRequestId == old(db.nextRequestId) && db.nextFriendshipId == old(db.nextFriendshipId)
    ensures db.nextPostId == old(db.nextPostId) && db.nextMediaId == old(db.nextMediaId)
  {
    remaining := validatedData - {"password2"};
    var created := db.CreateUser(remaining["email"].text, remaining["username"].text,
                                 TextOr(remaining, "bio"), DayOrNone(remaining, "date_of_birth"),
                                 TextOr(remaining, "gender"), FileOrNone(remaining, "profile_picture"));
    if created.Err? {
      return created, remaining;
    }
    var user := created.value;
    var hashed := hash(remaining["password"].text);
    db.SetPassword(user.id, hashed);
    PasswordOfNewestUser(old(db.users), user, hashed, db.users);
    r := Ok(user.(password := hashed));
  }

  /** Setting the password of a user just appended touches only that row,
      since every earlier row has a smaller key. */
  lemma PasswordOfNewestUser(users0: seq<User>, user: User, hashed: string, after: seq<User>)
    requires forall u :: u in users0 ==> u.id < user.id
    requires |after| == |users0 + [user]|
    requires forall k :: 0 <= k < |after| ==>
      after[k] == if (users0 + [user])[k].id == user.id then (users0 + [user])[k].(password := hashed)
                  else (users0 + [user])[k]
    ensures after == users0 + [user.(password := hashed)]
  {
    forall k | 0 <= k < |users0| ensures after[k] == users0[k] {
      assert users0[k] in users0;
      assert (users0 + [user])[k] == users0[k];
    }
  }
}
