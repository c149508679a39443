/** The relational store beneath the views: one table per model, one key
    sequence per table, and one clock that stamps created_at. Each method is
    one ORM call the views make (objects.create, instance.save,
    instance.delete with its cascades), and Valid() holds the constraints the
    database itself enforces: keys, unique columns, unique_together and
    foreign keys. */
module Db {
  import opened Common
  import opened Users
  import opened FriendsModels
  import opened PostsModels

  const IntegrityError: string := "UNIQUE constraint failed"

  /** Every table constraint, over the tables' values. */
  ghost predicate TablesValid(
    users: seq<User>, requests: seq<FriendRequest>, friendships: seq<Friendship>,
    posts: seq<Post>, media: seq<PostMedia>,
    nextUserId: nat, nextRequestId: nat, nextFriendshipId: nat, nextPostId: nat, nextMediaId: nat,
    clock: int)
  {
    UsersValid(users, nextUserId, clock) &&
    RequestsValid(requests, UserIds(users), nextRequestId, clock) &&
    FriendshipsValid(friendships, UserIds(users), nextFriendshipId, clock) &&
    PostsValid(posts, UserIds(users), nextPostId, clock) &&
    MediaValid(media, PostIds(posts), nextMediaId, clock)
  }

  class Database {
    var users: seq<User>
    var requests: seq<FriendRequest>
    var friendships: seq<Friendship>
    var posts: seq<Post>
    var media: seq<PostMedia>

    /** The next key of each table's auto-increment sequence. */
    var nextUserId: nat
    var nextRequestId: nat
    var nextFriendshipId: nat
    var nextPostId: nat
    var nextMediaId: nat

    /** The value the next auto_now_add column receives; every insert
        advances it. */
    var clock: int

    ghost predicate Valid()
      reads this
    {
      TablesValid(users, requests, friendships, posts, media,
                  nextUserId, nextRequestId, nextFriendshipId, nextPostId, nextMediaId, clock)
    }

    /** An empty database. */
    constructor ()
      ensures Valid()
      ensures users == [] && requests == [] && friendships == [] && posts == [] && media == []
    {
      users, requests, friendships, posts, media := [], [], [], [], [];
      nextUserId, nextRequestId, nextFriendshipId, nextPostId, nextMediaId := 1, 1, 1, 1, 1;
      clock := 0;
    }

    /** User.objects.create: inserts a user with an empty password, or fails
        on the unique email or username column. */
    method CreateUser(email: string, username: string, bio: string, dateOfBirth: Option<int>,
                      gender: string, profilePicture: Option<string>) returns (r: Result<User, string>)
      requires Valid()
      modifies this
      ensures Valid()
      ensures r.Err? <==> exists u :: u in old(users) && (u.email == email || u.username == username)
      ensures r.Err? ==> r.error == IntegrityError && users == old(users) &&
                         nextUserId == old(nextUserId) && clock == old(clock)
      ensures r.Ok? ==>
        r.value == User(old(nextUserId), email, username, "", bio, dateOfBirth, gender, profilePicture,
                        false, old(clock)) &&
        users == old(users) + [r.value] && nextUserId == old(nextUserId) + 1 && clock == old(clock) + 1
      ensures requests == old(requests) && friendships == old(friendships)
      ensures posts == old(posts) && media == old(media)
      ensures nextRequestId == old(nextRequestId) && nextFriendshipId == old(nextFriendshipId)
      ensures nextPostId == old(nextPostId) && nextMediaId == old(nextMediaId)
    {
      if exists u :: u in users && (u.email == email || u.username == username) {
        r := Err(IntegrityError);
        return;
      }
      var user := User(nextUserId, email, username, "", bio, dateOfBirth, gender, profilePicture,
                       false, clock);
      forall i | 0 <= i < |users| ensures UserBefore(users[i], user) {
        assert users[i] in users;
      }
      PairwiseAppend(users, user, UserBefore);
      users := users + [user];
      nextUserId := nextUserId + 1;
      clock := clock + 1;
      r := Ok(user);
    }

    /** user.set_password followed by user.save: replaces the stored password
        of user `id` and nothing else. */
    method SetPassword(id: UserId, hashed: string)
      requires Valid()
      modifies this
      ensures Valid()
      ensures |users| == |old(users)|
      ensures forall k :: 0 <= k < |users| ==>
        users[k] == if old(users)[k].id == id then old(users)[k].(password := hashed) else old(users)[k]
      ensures requests == old(requests) && friendships == old(friendships)
      ensures posts == old(posts) && media == old(media)
      ensures nextUserId == old(nextUserId) && nextRequestId == old(nextRequestId)
      ensures nextFriendshipId == old(nextFriendshipId) && nextPostId == old(nextPostId)
      ensures nextMediaId == old(nextMediaId) && clock == old(clock)
    {
      SetPasswordKeepsValid(users, nextUserId, clock, id, hashed);
      users := WithPassword(users, id, hashed);
    }

    /** FriendRequest.objects.create. The caller guarantees both users exist
        and that unique_together('sender', 'receiver') admits the row. */
    method CreateFriendRequest(sender: UserId, receiver: UserId, status: Status) returns (fr: FriendRequest)
      requires Valid()
      requires sender in UserIds(users) && receiver in UserIds(users)
      requires forall x :: x in requests ==> (x.sender, x.receiver) != (sender, receiver)
      modifies this
      ensures Valid()
      ensures fr == FriendRequest(old(nextRequestId), sender, receiver, status, old(clock))
      ensures requests == old(requests) + [fr]
      ensures nextRequestId == old(nextRequestId) + 1 && clock == old(clock) + 1
      ensures users == old(users) && friendships == old(friendships)
      ensures posts == old(posts) && media == old(media)
      ensures nextUserId == old(nextUserId) && nextFriendshipId == old(nextFriendshipId)
      ensures nextPostId == old(nextPostId) && nextMediaId == old(nextMediaId)
    {
      fr := FriendRequest(nextRequestId, sender, receiver, status, clock);
      forall i | 0 <= i < |requests| ensures RequestBefore(requests[i], fr) {
        assert requests[i] in requests;
      }
      PairwiseAppend(requests, fr, RequestBefore);
      requests := requests + [fr];
      nextRequestId := nextRequestId + 1;
      clock := clock + 1;
    }

    /** Post.objects.create for an existing author. */
    method CreatePost(author: UserId, content: Option<string>, visibility: string) returns (p: Post)
      requires Valid()
      requires author in UserIds(users)
      modifies this
      ensures Valid()
      ensures p == Post(old(nextPostId), author, content, visibility, old(clock))
      ensures posts == old(posts) + [p]
      ensures nextPostId == old(nextPostId) + 1 && clock == old(clock) + 1
      ensures users == old(users) && requests == old(requests)
      ensures friendships == old(friendships) && media == old(media)
      ensures nextUserId == old(nextUserId) && nextRequestId == old(nextRequestId)
      ensures nextFriendshipId == old(nextFriendshipId) && nextMediaId == old(nextMediaId)
    {
      p := Post(nextPostId, author, content, visibility, clock);
      forall i | 0 <= i < |posts| ensures PostBefore(posts[i], p) {
        assert posts[i] in posts;
      }
      PairwiseAppend(posts, p, PostBefore);
      assert PostIds(posts + [p]) == PostIds(posts) + {p.id};
      posts := posts + [p];
      nextPostId := nextPostId + 1;
      clock := clock + 1;
    }

    /** PostMedia.objects.create for an existing post. */
    method CreatePostMedia(post: nat, mediaType: MediaType, file: string) returns (m: PostMedia)
      requires Valid()
      requires post in PostIds(posts)
      modifies this
      ensures Valid()
      ensures m == PostMedia(old(nextMediaId), post, mediaType, file, old(clock))
      ensures media == old(media) + [m]
      ensures nextMediaId == old(nextMediaId) + 1 && clock == old(clock) + 1
      ensures users == old(users) && requests == old(requests)
      ensures friendships == old(friendships) && posts == old(posts)
      ensures nextUserId == old(nextUserId) && nextRequestId == old(nextRequestId)
      ensures nextFriendshipId == old(nextFriendshipId) && nextPostId == old(nextPostId)
    {
      m := PostMedia(nextMediaId, post, mediaType, file, clock);
      forall i | 0 <= i < |media| ensures MediaBefore(media[i], m) {
        assert media[i] in media;
      }
      PairwiseAppend(media, m, MediaBefore);
      media := media + [m];
      nextMediaId := nextMediaId + 1;
      clock := clock + 1;
    }

    /** post.delete(): removes the post and, by the cascade, all its media. */
    method DeletePost(pid: nat)
      requires Valid()
      modifies this
      ensures Valid()
      ensures posts == PostsWithoutId(old(posts), pid)
      ensures media == MediaWithoutPost(old(media), pid)
      ensures users == old(users) && requests == old(requests) && friendships == old(friendships)
      ensures nextUserId == old(nextUserId) && nextRequestId == old(nextRequestId)
      ensures nextFriendshipId == old(nextFriendshipId) && nextPostId == old(nextPostId)
      ensures nextMediaId == old(nextMediaId) && clock == old(clock)
    {
      DeletePostKeepsValid(posts, media, UserIds(users), nextPostId, nextMediaId, clock, pid);
      posts, media := PostsWithoutId(posts, pid), MediaWithoutPost(media, pid);
    }

    /** user.delete(): removes the user and, by the cascades, every request
        and friendship that references them, their posts, and those posts'
        media. */
    method DeleteUser(u: UserId)
      requires Valid()
      modifies this
      ensures Valid()
      ensures users == UsersWithoutId(old(users), u)
      ensures requests == RequestsWithoutUser(old(requests), u)
      ensures friendships == FriendshipsWithoutUser(old(friendships), u)
      ensures posts == PostsWithoutAuthor(old(posts), u)
      ensures media == MediaOfPosts(old(media), PostIds(posts))
      ensures old(RequestsWellFormed(requests)) ==> RequestsWellFormed(requests)
      ensures nextUserId == old(nextUserId) && nextRequestId == old(nextRequestId)
      ensures nextFriendshipId == old(nextFriendshipId) && nextPostId == old(nextPostId)
      ensures nextMediaId == old(nextMediaId) && clock == old(clock)
    {
      DeleteUserKeepsTablesValid(users, requests, friendships, posts, media, nextUserId, nextRequestId,
                                 nextFriendshipId, nextPostId, nextMediaId, clock, u);
      var posts' := PostsWithoutAuthor(posts, u);
      ReplaceTables(UsersWithoutId(users, u), RequestsWithoutUser(requests, u),
                    FriendshipsWithoutUser(friendships, u), posts', MediaOfPosts(media, PostIds(posts')));
    }

    /** Stores new contents for the five tables, keeping every key sequence
        and the clock; the caller shows that the new contents are valid. */
    method ReplaceTables(users': seq<User>, requests': seq<FriendRequest>, friendships': seq<Friendship>,
                         posts': seq<Post>, media': seq<PostMedia>)
      requires TablesValid(users', requests', friendships', posts', media',
                           nextUserId, nextRequestId, nextFriendshipId, nextPostId, nextMediaId, clock)
      modifies this
      ensures Valid()
      ensures users == users' && requests == requests' && friendships == friendships'
      ensures posts == posts' && media == media'
      ensures nextUserId == old(nextUserId) && nextRequestId == old(nextRequestId)
      ensures nextFriendshipId == old(nextFriendshipId) && nextPostId == old(nextPostId)
      ensures nextMediaId == old(nextMediaId) && clock == old(clock)
    {
      users, requests, friendships, posts, media := users', requests', friendships', posts', media';
    }
  }

  /** The user cascade, table by table, keeps every constraint of Valid()
      and the application invariant on requests. */
  lemma DeleteUserKeepsTablesValid(
    users: seq<User>, requests: seq<FriendRequest>, friendships: seq<Friendship>,
    posts: seq<Post>, media: seq<PostMedia>,
    nextUserId: nat, nextRequestId: nat, nextFriendshipId: nat, nextPostId: nat, nextMediaId: nat,
    clock: int, u: UserId)
    requires TablesValid(users, requests, friendships, posts, media,
                         nextUserId, nextRequestId, nextFriendshipId, nextPostId, nextMediaId, clock)
    ensures TablesValid(UsersWithoutId(users, u), RequestsWithoutUser(requests, u),
                        FriendshipsWithoutUser(friendships, u), PostsWithoutAuthor(posts, u),
                        MediaOfPosts(media, PostIds(PostsWithoutAuthor(posts, u))),
                        nextUserId, nextRequestId, nextFriendshipId, nextPostId, nextMediaId, clock)
    ensures RequestsWellFormed(requests) ==> RequestsWellFormed(RequestsWithoutUser(requests, u))
  {
    if RequestsWellFormed(requests) {
      RequestCascadeKeepsWellFormed(requests, u);
    }
    DeleteUserKeepsValid(users, nextUserId, clock, u);
    RequestCascadeKeepsValid(requests, UserIds(users), nextRequestId, clock, u);
    FriendshipCascadeKeepsValid(friendships, UserIds(users), nextFriendshipId, clock, u);
    DeleteAuthorKeepsValid(posts, media, UserIds(users), nextPostId, nextMediaId, clock, u);
  }
}
