/** The user table (users/models.py): the record shape the friend, post and
    registration logic reads and writes, the table constraints the database
    enforces on it, and the by-username lookup the friend-request view uses. */
module Users {
  import opened Common

  /** A user's primary key. */
  type UserId = nat

  /** One row of the user table. `password` holds what set_password stored,
      never the raw password. */
  datatype User = User(
    id: UserId,
    email: string,
    username: string,
    password: string,
    bio: string,
    dateOfBirth: Option<int>,
    gender: string,
    profilePicture: Option<string>,
    isPrivateAccount: bool,
    createdAt: int)

  /** Two rows in table order: keys and timestamps grow, and the unique
      `email` and `username` columns differ. */
  predicate UserBefore(a: User, b: User) {
    a.id < b.id && a.createdAt < b.createdAt && a.email != b.email && a.username != b.username
  }

  /** The constraints the database keeps on the user table. */
  ghost predicate UsersValid(users: seq<User>, nextId: nat, clock: int) {
    Pairwise(users, UserBefore) &&
    forall u :: u in users ==> u.id < nextId && u.createdAt < clock
  }

  /** The primary keys present in the table. */
  function UserIds(users: seq<User>): set<UserId> {
    set u | u in users :: u.id
  }

  /** The user whose username is `name`, as get_object_or_404 finds it. */
  function FindByUsername(users: seq<User>, name: string): (r: Option<User>)
    ensures r.Some? ==> r.value in users && r.value.username == name
    ensures r.None? ==> forall u :: u in users ==> u.username != name
  {
    if users == [] then None
    else if users[0].username == name then Some(users[0])
    else FindByUsername(users[1..], name)
  }

  /** With unique usernames the lookup finds the one user with that name. */
  lemma FindByUsernameUnique(users: seq<User>, nextId: nat, clock: int, u: User)
    requires UsersValid(users, nextId, clock)
    requires u in users
    ensures FindByUsername(users, u.username) == Some(u)
  {
    var r := FindByUsername(users, u.username);
    var i :| 0 <= i < |users| && users[i] == u;
    var j :| 0 <= j < |users| && users[j] == r.value;
    if i != j {
      assert false;
    }
  }

  /** The users left after deleting user u. */
  function UsersWithoutId(users: seq<User>, u: UserId): (r: seq<User>)
    ensures forall x :: x in r <==> x in users && x.id != u
  {
    Filter(users, (x: User) => x.id != u)
  }

  /** Deleting a user keeps the table constraints and removes exactly that
      key from the table's keys. */
  lemma DeleteUserKeepsValid(users: seq<User>, nextId: nat, clock: int, u: UserId)
    requires UsersValid(users, nextId, clock)
    ensures UsersValid(UsersWithoutId(users, u), nextId, clock)
    ensures UserIds(UsersWithoutId(users, u)) == UserIds(users) - {u}
  {
    FilterPairwise(users, (x: User) => x.id != u, UserBefore);
    var rest := UsersWithoutId(users, u);
    forall v | v in UserIds(users) - {u} ensures v in UserIds(rest) {
      var x :| x in users && x.id == v;
      assert x in rest;
    }
  }

  /** The table after user.set_password(...) and user.save() on user `id`:
      that row's password is replaced, every other column and row is kept. */
  function WithPassword(users: seq<User>, id: UserId, hashed: string): (r: seq<User>)
    ensures |r| == |users|
    ensures forall k :: 0 <= k < |r| ==>
      r[k] == if users[k].id == id then users[k].(password := hashed) else users[k]
  {
    seq(|users|, k requires 0 <= k < |users| =>
      if users[k].id == id then users[k].(password := hashed) else users[k])
  }

  /** Replacing a password keeps the table constraints and the set of keys. */
  lemma SetPasswordKeepsValid(users: seq<User>, nextId: nat, clock: int, id: UserId, hashed: string)
    requires UsersValid(users, nextId, clock)
    ensures UsersValid(WithPassword(users, id, hashed), nextId, clock)
    ensures UserIds(WithPassword(users, id, hashed)) == UserIds(users)
  {
    var r := WithPassword(users, id, hashed);
    forall i, j | 0 <= i < j < |r| ensures UserBefore(r[i], r[j]) {
      assert UserBefore(users[i], users[j]);
    }
    forall x | x in r ensures x.id < nextId && x.createdAt < clock && x.id in UserIds(users) {
      var k :| 0 <= k < |r| && r[k] == x;
      assert users[k] in users;
    }
    forall v | v in UserIds(users) ensures v in UserIds(r) {
      var x :| x in users && x.id == v;
      var k :| 0 <= k < |users| && users[k] == x;
      assert r[k] in r;
    }
  }
}
