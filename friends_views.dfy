/** The friend-request endpoint (friends/views.py): look the receiver up by
    username, then refuse a request to oneself, a request between users who
    are already friends and a request between users who already have one,
    in that order; otherwise record one pending request. */
module FriendsViews {
  import opened Common
  import opened Users
  import opened FriendsModels
  import opened Db

  const SelfRequestError: string := "You cannot send friend request to yourself."
  const AlreadyFriendsError: string := "You are already friends."
  const RequestExistsError: string := "Friend request already exists."
  const RequestSentMessage: string := "Friend request sent successfully."

  /** The outcomes of the endpoint: 201 with a message, 400 with an error,
      or 404 when no user has the username. */
  datatype Response = Created(message: string) | BadRequest(error: string) | NotFound

  /** SendFriendRequestView.post for the authenticated `sender`. */
  method SendFriendRequest(db: Database, sender: UserId, username: string) returns (r: Response)
    requires db.Valid()
    requires sender in UserIds(db.users)
    modifies db
    ensures db.Valid()
    ensures var found := FindByUsername(old(db.users), username);
      && (r == NotFound <==> found.None?)
      && (r == BadRequest(SelfRequestError) <==> found.Some? && found.value.id == sender)
      && (r == BadRequest(AlreadyFriendsError) <==>
            found.Some? && found.value.id != sender &&
            HasFriendshipBetween(old(db.friendships), sender, found.value.id))
      && (r == BadRequest(RequestExistsError) <==>
            found.Some? && found.value.id != sender &&
            !HasFriendshipBetween(old(db.friendships), sender, found.value.id) &&
            HasRequestBetween(old(db.requests), sender, found.value.id))
      && (r.Created? <==>
            found.Some? && found.value.id != sender &&
            !HasFriendshipBetween(old(db.friendships), sender, found.value.id) &&
            !HasRequestBetween(old(db.requests), sender, found.value.id))
      && (r.Created? ==>
            r.message == RequestSentMessage &&
            db.requests == old(db.requests) +
              [FriendRequest(old(db.nextRequestId), sender, found.value.id, Pending, old(db.clock))])
    ensures !r.Created? ==>
      db.requests == old(db.requests) && db.nextRequestId == old(db.nextRequestId) && db.clock == old(db.clock)
    ensures db.users == old(db.users) && db.friendships == old(db.friendships)
    ensures db.posts == old(db.posts) && db.media == old(db.media)
    ensures r.Created? ==> db.nextRequestId == old(db.nextRequestId) + 1 && db.clock == old(db.clock) + 1
    ensures db.nextUserId == old(db.nextUserId) && db.nextFriendshipId == old(db.nextFriendshipId)
    ensures db.nextPostId == old(db.nextPostId) && db.nextMediaId == old(db.nextMediaId)
    ensures old(RequestsWellFormed(db.requests)) ==> RequestsWellFormed(db.requests)
  {
    var found := FindByUsername(db.users, username);
    if found.None? {
      return NotFound;
    }
    var receiver := found.value;
    if sender == receiver.id {
      return BadRequest(SelfRequestError);
    }
    if HasFriendshipBetween(db.friendships, sender, receiver.id) {
      return BadRequest(AlreadyFriendsError);
    }
    if HasRequestBetween(db.requests, sender, receiver.id) {
      return BadRequest(RequestExistsError);
    }
    ghost var before := db.requests;
    var fr := db.CreateFriendRequest(sender, receiver.id, Pending);
    if RequestsWellFormed(before) {
      AddKeepsWellFormed(before, fr);
    }
    return Created(RequestSentMessage);
  }
}
