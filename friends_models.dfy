/** The friend-request and friendship tables (friends/models.py): their
    records, the status choices and default, the ordered-pair uniqueness the
    database enforces, the cascades from the user table, and the
    application-level invariant that the request view keeps on top of them. */
module FriendsModels {
  import opened Common
  import opened Users

  /** The three values of FriendRequest.status. */
  datatype Status = Pending | Accepted | Rejected

  /** The value stored in the status column for each choice. */
  function StatusValue(s: Status): string {
    match s
    case Pending => "pending"
    case Accepted => "accepted"
    case Rejected => "rejected"
  }

  /** The choice a stored status value names, if it is one of the three. */
  function ParseStatus(v: string): (r: Option<Status>)
    ensures r.Some? <==> v == "pending" || v == "accepted" || v == "rejected"
  {
    if v == "pending" then Some(Pending)
    else if v == "accepted" then Some(Accepted)
    else if v == "rejected" then Some(Rejected)
    else None
  }

  /** Stored values and choices correspond one to one, and the column
      default is stored as 'pending'. */
  lemma StatusRoundTrip(s: Status, v: string)
    ensures ParseStatus(StatusValue(s)) == Some(s)
    ensures ParseStatus(v) == Some(s) ==> StatusValue(s) == v
    ensures StatusValue(DefaultStatus) == "pending"
  {
  }

  /** The column default of FriendRequest.status. */
  const DefaultStatus: Status := Pending

  datatype FriendRequest = FriendRequest(id: nat, sender: UserId, receiver: UserId, status: Status, createdAt: int)

  datatype Friendship = Friendship(id: nat, user1: UserId, user2: UserId, createdAt: int)

  /** Two requests in table order: keys and timestamps grow, and
      unique_together('sender', 'receiver') keeps their ordered pairs apart. */
  predicate RequestBefore(a: FriendRequest, b: FriendRequest) {
    a.id < b.id && a.createdAt < b.createdAt && (a.sender, a.receiver) != (b.sender, b.receiver)
  }

  /** Two friendships in table order: unique_together('user1', 'user2') keeps
      their ordered pairs apart; a reversed pair is allowed. */
  predicate FriendshipBefore(a: Friendship, b: Friendship) {
    a.id < b.id && a.createdAt < b.createdAt && (a.user1, a.user2) != (b.user1, b.user2)
  }

  /** The constraints the database keeps on the request table: keys,
      timestamps, the ordered-pair uniqueness and both foreign keys. */
  ghost predicate RequestsValid(reqs: seq<FriendRequest>, userIds: set<UserId>, nextId: nat, clock: int) {
    Pairwise(reqs, RequestBefore) &&
    forall r :: r in reqs ==>
      r.id < nextId && r.createdAt < clock && r.sender in userIds && r.receiver in userIds
  }

  /** The constraints the database keeps on the friendship table. */
  ghost predicate FriendshipsValid(fs: seq<Friendship>, userIds: set<UserId>, nextId: nat, clock: int) {
    Pairwise(fs, FriendshipBefore) &&
    forall f :: f in fs ==>
      f.id < nextId && f.createdAt < clock && f.user1 in userIds && f.user2 in userIds
  }

  /** Some request joins a and b, sent by either of them. */
  predicate HasRequestBetween(reqs: seq<FriendRequest>, a: UserId, b: UserId) {
    exists r :: r in reqs && ((r.sender == a && r.receiver == b) || (r.sender == b && r.receiver == a))
  }

  /** Some friendship joins a and b, in either orientation. */
  predicate HasFriendshipBetween(fs: seq<Friendship>, a: UserId, b: UserId) {
    exists f :: f in fs && ((f.user1 == a && f.user2 == b) || (f.user1 == b && f.user2 == a))
  }

  /** Two requests join the same unordered pair of users. */
  predicate SamePair(a: FriendRequest, b: FriendRequest) {
    (a.sender == b.sender && a.receiver == b.receiver) ||
    (a.sender == b.receiver && a.receiver == b.sender)
  }

  predicate DifferentPair(a: FriendRequest, b: FriendRequest) {
    !SamePair(a, b)
  }

  /** The application invariant on requests: nobody is their own receiver,
      and each unordered pair of users has at most one request. */
  ghost predicate RequestsWellFormed(reqs: seq<FriendRequest>) {
    (forall r :: r in reqs ==> r.sender != r.receiver) &&
    Pairwise(reqs, DifferentPair)
  }

  /** The application invariant is stronger than the database's ordered-pair
      uniqueness. */
  lemma WellFormedImpliesOrderedUnique(reqs: seq<FriendRequest>)
    requires RequestsWellFormed(reqs)
    ensures forall i, j :: 0 <= i < j < |reqs| ==>
      (reqs[i].sender, reqs[i].receiver) != (reqs[j].sender, reqs[j].receiver)
  {
    forall i, j | 0 <= i < j < |reqs|
      ensures (reqs[i].sender, reqs[i].receiver) != (reqs[j].sender, reqs[j].receiver)
    {
      assert DifferentPair(reqs[i], reqs[j]);
    }
  }

  /** unique_together('user1', 'user2') alone admits a friendship stored in
      both orientations. */
  lemma ReversedFriendshipAllowed(a: UserId, b: UserId)
    requires a != b
    ensures FriendshipsValid([Friendship(1, a, b, 0), Friendship(2, b, a, 1)], {a, b}, 3, 2)
  {
    var fs := [Friendship(1, a, b, 0), Friendship(2, b, a, 1)];
    assert FriendshipBefore(fs[0], fs[1]);
  }

  /** The table admits a request answered by a counter-request; the
      application invariant does not. */
  lemma CounterRequestOnlyExcludedByView(a: UserId, b: UserId)
    requires a != b
    ensures RequestsValid([FriendRequest(1, a, b, Pending, 0), FriendRequest(2, b, a, Pending, 1)], {a, b}, 3, 2)
    ensures !RequestsWellFormed([FriendRequest(1, a, b, Pending, 0), FriendRequest(2, b, a, Pending, 1)])
  {
    var rs := [FriendRequest(1, a, b, Pending, 0), FriendRequest(2, b, a, Pending, 1)];
    assert RequestBefore(rs[0], rs[1]);
    assert !DifferentPair(rs[0], rs[1]);
  }

  /** Adding a request between two distinct users with no request in either
      direction keeps the application invariant. */
  lemma AddKeepsWellFormed(reqs: seq<FriendRequest>, r: FriendRequest)
    requires RequestsWellFormed(reqs)
    requires r.sender != r.receiver
    requires !HasRequestBetween(reqs, r.sender, r.receiver)
    ensures RequestsWellFormed(reqs + [r])
  {
    forall i | 0 <= i < |reqs| ensures DifferentPair(reqs[i], r) {
      assert reqs[i] in reqs;
    }
    PairwiseAppend(reqs, r, DifferentPair);
  }

  /** The requests that survive deleting user u: on_delete=CASCADE on both
      `sender` and `receiver` removes every request that references u. */
  function RequestsWithoutUser(reqs: seq<FriendRequest>, u: UserId): (r: seq<FriendRequest>)
    ensures forall x :: x in r <==> x in reqs && x.sender != u && x.receiver != u
  {
    Filter(reqs, (x: FriendRequest) => x.sender != u && x.receiver != u)
  }

  /** The friendships that survive deleting user u: on_delete=CASCADE on both
      `user1` and `user2`. */
  function FriendshipsWithoutUser(fs: seq<Friendship>, u: UserId): (r: seq<Friendship>)
    ensures forall f :: f in r <==> f in fs && f.user1 != u && f.user2 != u
  {
    Filter(fs, (f: Friendship) => f.user1 != u && f.user2 != u)
  }

  /** The request cascade keeps the table constraints, now over the
      remaining users. */
  lemma RequestCascadeKeepsValid(reqs: seq<FriendRequest>, userIds: set<UserId>, nextId: nat, clock: int, u: UserId)
    requires RequestsValid(reqs, userIds, nextId, clock)
    ensures RequestsValid(RequestsWithoutUser(reqs, u), userIds - {u}, nextId, clock)
  {
    FilterPairwise(reqs, (x: FriendRequest) => x.sender != u && x.receiver != u, RequestBefore);
  }

  /** The friendship cascade keeps the table constraints. */
  lemma FriendshipCascadeKeepsValid(fs: seq<Friendship>, userIds: set<UserId>, nextId: nat, clock: int, u: UserId)
    requires FriendshipsValid(fs, userIds, nextId, clock)
    ensures FriendshipsValid(FriendshipsWithoutUser(fs, u), userIds - {u}, nextId, clock)
  {
    FilterPairwise(fs, (f: Friendship) => f.user1 != u && f.user2 != u, FriendshipBefore);
  }

  /** The request cascade keeps the application invariant. */
  lemma RequestCascadeKeepsWellFormed(reqs: seq<FriendRequest>, u: UserId)
    requires RequestsWellFormed(reqs)
    ensures RequestsWellFormed(RequestsWithoutUser(reqs, u))
  {
    FilterPairwise(reqs, (x: FriendRequest) => x.sender != u && x.receiver != u, DifferentPair);
  }

  /** The friends of u: the other endpoint of every friendship u is part of,
      whichever column u is stored in. */
  function FriendsOf(fs: seq<Friendship>, u: UserId): set<UserId> {
    (set f | f in fs && f.user1 == u :: f.user2) + (set f | f in fs && f.user2 == u :: f.user1)
  }

  /** Friendship is symmetric whatever the orientation of the stored pair. */
  lemma FriendsOfSymmetric(fs: seq<Friendship>, u: UserId, v: UserId)
    ensures v in FriendsOf(fs, u) <==> u in FriendsOf(fs, v)
  {
    if v in FriendsOf(fs, u) {
      var f :| f in fs && ((f.user1 == u && f.user2 == v) || (f.user2 == u && f.user1 == v));
      assert u in FriendsOf(fs, v);
    }
    if u in FriendsOf(fs, v) {
      var f :| f in fs && ((f.user1 == v && f.user2 == u) || (f.user2 == v && f.user1 == u));
      assert v in FriendsOf(fs, u);
    }
  }

  /** Being friends in the feed's sense is the either-orientation check of the
      request view. */
  lemma FriendsOfIsFriendshipBetween(fs: seq<Friendship>, u: UserId, v: UserId)
    ensures v in FriendsOf(fs, u) <==> HasFriendshipBetween(fs, u, v)
  {
    if v in FriendsOf(fs, u) {
      var f :| f in fs && ((f.user1 == u && f.user2 == v) || (f.user2 == u && f.user1 == v));
    }
    if HasFriendshipBetween(fs, u, v) {
      var f :| f in fs && ((f.user1 == u && f.user2 == v) || (f.user1 == v && f.user2 == u));
      assert v in FriendsOf(fs, u);
    }
  }
}
