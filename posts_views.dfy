/** The post endpoints (posts/views.py): creating a post with text and/or
    uploaded files, classifying each file by its content type and rolling
    the post back on the first file that is neither image nor video; and
    the feed, which gathers the user's friends from the friendship table and
    lists their posts and the user's own, newest first. */
module PostsViews {
  import opened Common
  import opened Users
  import opened FriendsModels
  import opened PostsModels
  import opened Db

  /** An uploaded file: the form key it was sent under, its name and its
      content type. request.FILES is the sequence of these, in upload order. */
  datatype Upload = Upload(field: string, name: string, contentType: string)

  /** request.FILES.getlist(key): the files sent under `key`, in order. */
  function GetList(uploads: seq<Upload>, key: string): (r: seq<Upload>)
    ensures forall f :: f in r <==> f in uploads && f.field == key
  {
    Filter(uploads, (f: Upload) => f.field == key)
  }

  const EmptyPostError: string := "Post must contain text or at least one media file."
  const MediaTypeError: string := "Only image and video files are allowed."

  /** The outcomes of the create endpoint: 201 with the post, or 400. */
  datatype CreateResponse = Created(post: Post) | BadRequest(error: string)

  /** Python truthiness of the optional `content` value: present and not empty. */
  predicate Truthy(content: Option<string>) {
    content.Some? && content.value != ""
  }

  /** The media type given to a file: IMAGE for a content type starting with
      "image", VIDEO for one starting with "video", none for any other. */
  function ClassifyMedia(contentType: string): (r: Option<MediaType>)
    ensures r == Some(Image) <==> StartsWith(contentType, "image")
    ensures r == Some(Video) <==> StartsWith(contentType, "video")
    ensures r.None? <==> !StartsWith(contentType, "image") && !StartsWith(contentType, "video")
  {
    if StartsWith(contentType, "image") then
      assert contentType[0] == 'i';
      Some(Image)
    else if StartsWith(contentType, "video") then Some(Video)
    else None
  }

  /** Every file is an image or a video. */
  predicate AllMediaAllowed(files: seq<Upload>) {
    forall k :: 0 <= k < |files| ==> ClassifyMedia(files[k].contentType).Some?
  }

  /** The media row made for files[k] of post `post`. */
  predicate MediaForFile(m: PostMedia, post: nat, file: Upload) {
    m.post == post && Some(m.mediaType) == ClassifyMedia(file.contentType) && m.file == file.name
  }

  /** `created` is the list of rows made for `files`, one per file, in order. */
  predicate MediaForFiles(created: seq<PostMedia>, post: nat, files: seq<Upload>) {
    |created| == |files| &&
    forall k :: 0 <= k < |files| ==> MediaForFile(created[k], post, files[k])
  }

  /** The visibility stored for a request, with 'FRIENDS' when none is sent. */
  function VisibilityOrDefault(visibility: Option<string>): (s: string)
    ensures visibility.None? ==> s == DefaultVisibility
    ensures visibility.Some? ==> s == visibility.value
  {
    if visibility.Some? then visibility.value else DefaultVisibility
  }

  /** CreatePostView.post for the authenticated `author`; `uploads` is
      request.FILES, of which only the files under "media" are used. */
  method CreatePost(db: Database, author: UserId, content: Option<string>, visibility: Option<string>,
                    uploads: seq<Upload>) returns (r: CreateResponse)
    requires db.Valid()
    requires author in UserIds(db.users)
    modifies db
    ensures db.Valid()
    ensures db.users == old(db.users) && db.requests == old(db.requests)
    ensures db.friendships == old(db.friendships)
    ensures db.nextUserId == old(db.nextUserId) && db.nextRequestId == old(db.nextRequestId)
    ensures db.nextFriendshipId == old(db.nextFriendshipId)
    ensures var files := GetList(uploads, "media");
      !Truthy(content) && files == [] ==>
      r == BadRequest(EmptyPostError) && db.posts == old(db.posts) && db.media == old(db.media) &&
      db.nextPostId == old(db.nextPostId) && db.nextMediaId == old(db.nextMediaId) && db.clock == old(db.clock)
    ensures var files := GetList(uploads, "media");
      (Truthy(content) || files != []) && !AllMediaAllowed(files) ==>
      r == BadRequest(MediaTypeError) && db.posts == old(db.posts) && db.media == old(db.media) &&
      db.nextPostId == old(db.nextPostId) + 1
    ensures var files := GetList(uploads, "media");
      r.Created? <==> (Truthy(content) || files != []) && AllMediaAllowed(files)
    ensures var files := GetList(uploads, "media");
      r.Created? ==>
      r.post == Post(old(db.nextPostId), author, content, VisibilityOrDefault(visibility), old(db.clock)) &&
      db.posts == old(db.posts) + [r.post] && db.nextPostId == old(db.nextPostId) + 1 &&
      |old(db.media)| <= |db.media| && db.media[..|old(db.media)|] == old(db.media) &&
      MediaForFiles(db.media[|old(db.media)|..], r.post.id, files) &&
      MediaOf(db.media, r.post.id) == db.media[|old(db.media)|..]
  {
    var files := GetList(uploads, "media");
    if !Truthy(content) && files == [] {
      return BadRequest(EmptyPostError);
    }
    var post := db.CreatePost(author, content, VisibilityOrDefault(visibility));
    forall m | m in db.media ensures m.post != post.id {
      var p :| p in old(db.posts) && p.id == m.post;
    }
    var ok := AttachMedia(db, post, files);
    if !ok {
      return BadRequest(MediaTypeError);
    }
    return Created(post);
  }

  /** The loop of CreatePostView.post over the uploaded files of the post
      just created (the last row of the post table): one media row per file
      while the files are images or videos; at the first other file, the
      post is deleted and, by the cascade, the media made so far with it. */
  method AttachMedia(db: Database, post: Post, files: seq<Upload>) returns (ok: bool)
    requires db.Valid()
    requires |db.posts| > 0 && db.posts[|db.posts| - 1] == post
    requires forall m :: m in db.media ==> m.post != post.id
    modifies db
    ensures db.Valid()
    ensures db.users == old(db.users) && db.requests == old(db.requests)
    ensures db.friendships == old(db.friendships)
    ensures db.nextUserId == old(db.nextUserId) && db.nextRequestId == old(db.nextRequestId)
    ensures db.nextFriendshipId == old(db.nextFriendshipId) && db.nextPostId == old(db.nextPostId)
    ensures ok <==> AllMediaAllowed(files)
    ensures !ok ==> db.posts == old(db.posts)[..|old(db.posts)| - 1] && db.media == old(db.media)
    ensures ok ==>
      db.posts == old(db.posts) &&
      |old(db.media)| <= |db.media| && db.media[..|old(db.media)|] == old(db.media) &&
      MediaForFiles(db.media[|old(db.media)|..], post.id, files) &&
      MediaOf(db.media, post.id) == db.media[|old(db.media)|..]
  {
    ghost var posts0 := db.posts[..|db.posts| - 1];
    ghost var media0 := db.media;
    FreshPostFacts(posts0, post, media0, db.posts);
    ghost var created: seq<PostMedia> := [];
    var i := 0;
    while i < |files|
      invariant 0 <= i <= |files|
      invariant db.Valid()
      invariant db.users == old(db.users) && db.requests == old(db.requests)
      invariant db.friendships == old(db.friendships)
      invariant db.nextUserId == old(db.nextUserId) && db.nextRequestId == old(db.nextRequestId)
      invariant db.nextFriendshipId == old(db.nextFriendshipId) && db.nextPostId == old(db.nextPostId)
      invariant db.posts == posts0 + [post]
      invariant db.media == media0 + created
      invariant MediaForFiles(created, post.id, files[..i])
    {
      var kind := ClassifyMedia(files[i].contentType);
      if kind.None? {
        RollbackRestoresTables(posts0, post, media0, created);
        db.DeletePost(post.id);
        return false;
      }
      assert post.id in PostIds(db.posts);
      var m := db.CreatePostMedia(post.id, kind.value, files[i].name);
      created := created + [m];
      i := i + 1;
    }
    assert files[..i] == files;
    NewMediaAreThePostsMedia(posts0, post, media0, created);
    assert db.media[..|media0|] == media0 && db.media[|media0|..] == created;
    return true;
  }

  /** What the tables say about a post just appended: every earlier post has
      a smaller key, and the earlier media all belong to earlier posts. */
  lemma FreshPostFacts(posts0: seq<Post>, post: Post, media0: seq<PostMedia>, posts: seq<Post>)
    requires posts == posts0 + [post]
    requires Pairwise(posts, PostBefore)
    requires forall m :: m in media0 ==> m.post in PostIds(posts) && m.post != post.id
    ensures forall p :: p in posts0 ==> p.id < post.id
    ensures forall m :: m in media0 ==> m.post in PostIds(posts0)
  {
    forall p | p in posts0 ensures p.id < post.id {
      var k :| 0 <= k < |posts0| && posts0[k] == p;
      assert PostBefore(posts[k], posts[|posts0|]);
    }
    forall m | m in media0 ensures m.post in PostIds(posts0) {
      var p :| p in posts && p.id == m.post;
      assert p in posts0;
    }
  }

  /** Deleting the just-created post brings the post and media tables back
      to what they were: earlier posts have smaller keys, and earlier media
      belong to earlier posts. */
  lemma RollbackRestoresTables(posts0: seq<Post>, post: Post, media0: seq<PostMedia>,
                               created: seq<PostMedia>)
    requires forall p :: p in posts0 ==> p.id < post.id
    requires forall m :: m in media0 ==> m.post in PostIds(posts0)
    requires forall m :: m in created ==> m.post == post.id
    ensures PostsWithoutId(posts0 + [post], post.id) == posts0
    ensures MediaWithoutPost(media0 + created, post.id) == media0
  {
    FilterAppend(posts0, [post], (p: Post) => p.id != post.id);
    FilterKeepsAll(posts0, (p: Post) => p.id != post.id);
    FilterAppend(media0, created, (m: PostMedia) => m.post != post.id);
    forall m | m in media0 ensures m.post != post.id {
      var p :| p in posts0 && p.id == m.post;
    }
    FilterKeepsAll(media0, (m: PostMedia) => m.post != post.id);
    FilterKeepsNone(created, (m: PostMedia) => m.post != post.id);
  }

  /** The media made by one request are exactly the post's media. */
  lemma NewMediaAreThePostsMedia(posts0: seq<Post>, post: Post, media0: seq<PostMedia>,
                                 created: seq<PostMedia>)
    requires forall p :: p in posts0 ==> p.id < post.id
    requires forall m :: m in media0 ==> m.post in PostIds(posts0)
    requires forall m :: m in created ==> m.post == post.id
    ensures MediaOf(media0 + created, post.id) == created
  {
    FilterAppend(media0, created, (m: PostMedia) => m.post == post.id);
    forall m | m in media0 ensures m.post != post.id {
      var p :| p in posts0 && p.id == m.post;
    }
    FilterKeepsNone(media0, (m: PostMedia) => m.post == post.id);
    FilterKeepsAll(created, (m: PostMedia) => m.post == post.id);
  }

  /** The friendships the feed reads: user in either column. */
  function Involving(fs: seq<Friendship>, u: UserId): (r: seq<Friendship>)
    ensures forall f :: f in r <==> f in fs && (f.user1 == u || f.user2 == u)
  {
    Filter(fs, (f: Friendship) => f.user1 == u || f.user2 == u)
  }

  /** The id the feed's loop takes from one friendship: user2 when the user
      is user1, otherwise user1. */
  function OtherEnd(f: Friendship, u: UserId): UserId {
    if f.user1 == u then f.user2 else f.user1
  }

  /** The friend_ids list after the loop has visited fs. */
  function OtherEnds(fs: seq<Friendship>, u: UserId): (r: seq<UserId>)
    ensures |r| == |fs|
  {
    if fs == [] then [] else OtherEnds(fs[..|fs| - 1], u) + [OtherEnd(fs[|fs| - 1], u)]
  }

  /** Over friendships that involve u, the collected ids are exactly u's
      friends. */
  lemma {:induction false} OtherEndsAreFriends(fs: seq<Friendship>, u: UserId)
    requires forall f :: f in fs ==> f.user1 == u || f.user2 == u
    ensures forall v :: v in OtherEnds(fs, u) <==> v in FriendsOf(fs, u)
  {
    if fs != [] {
      var init, last := fs[..|fs| - 1], fs[|fs| - 1];
      assert fs == init + [last];
      assert forall f :: f in init ==> f in fs;
      OtherEndsAreFriends(init, u);
      FriendsOfAppend(init, last, u);
    }
  }

  /** Appending one friendship that involves u adds its other end to u's
      friends. */
  lemma FriendsOfAppend(fs: seq<Friendship>, f: Friendship, u: UserId)
    requires f.user1 == u || f.user2 == u
    ensures forall v :: v in FriendsOf(fs + [f], u) <==> v in FriendsOf(fs, u) || v == OtherEnd(f, u)
  {
    forall v | v in FriendsOf(fs + [f], u) && v != OtherEnd(f, u) ensures v in FriendsOf(fs, u) {
      var g :| g in fs + [f] && ((g.user1 == u && g.user2 == v) || (g.user2 == u && g.user1 == v));
      assert g in fs;
    }
    assert OtherEnd(f, u) in FriendsOf(fs + [f], u) by {
      assert f in fs + [f];
    }
    forall v | v in FriendsOf(fs, u) ensures v in FriendsOf(fs + [f], u) {
      var g :| g in fs && ((g.user1 == u && g.user2 == v) || (g.user2 == u && g.user1 == v));
      assert g in fs + [f];
    }
  }

  /** Dropping the friendships that do not involve u keeps u's friends. */
  lemma InvolvingKeepsFriends(fs: seq<Friendship>, u: UserId)
    ensures FriendsOf(Involving(fs, u), u) == FriendsOf(fs, u)
  {
    var r := Involving(fs, u);
    forall v | v in FriendsOf(fs, u) ensures v in FriendsOf(r, u) {
      var f :| f in fs && ((f.user1 == u && f.user2 == v) || (f.user2 == u && f.user1 == v));
      assert f in r;
    }
  }

  /** The posts the feed query selects: by the user or by an id in friendIds. */
  function FeedSelection(posts: seq<Post>, u: UserId, friendIds: seq<UserId>): (r: seq<Post>)
    ensures forall p :: p in r <==> p in posts && (p.author == u || p.author in friendIds)
  {
    Filter(posts, (p: Post) => p.author == u || p.author in friendIds)
  }

  /** What FeedView.get returns for user u. */
  function FeedOf(posts: seq<Post>, fs: seq<Friendship>, u: UserId): seq<Post> {
    OrderNewestFirst(FeedSelection(posts, u, OtherEnds(Involving(fs, u), u)))
  }

  /** The feed holds exactly the posts whose author is u or a friend of u,
      whatever their visibility. */
  lemma FeedMembers(posts: seq<Post>, fs: seq<Friendship>, u: UserId)
    ensures forall p :: p in FeedOf(posts, fs, u) <==>
      p in posts && (p.author == u || p.author in FriendsOf(fs, u))
  {
    var sel := FeedSelection(posts, u, OtherEnds(Involving(fs, u), u));
    OtherEndsAreFriends(Involving(fs, u), u);
    InvolvingKeepsFriends(fs, u);
    assert forall p :: p in FeedOf(posts, fs, u) <==> p in multiset(sel);
  }

  /** The feed is newest first and, over a table without duplicates, lists
      each post once. */
  lemma FeedOrderAndMultiplicity(posts: seq<Post>, fs: seq<Friendship>, u: UserId)
    ensures NewestFirst(FeedOf(posts, fs, u))
    ensures NoDuplicates(posts) ==> NoDuplicates(FeedOf(posts, fs, u))
  {
    var sel := FeedSelection(posts, u, OtherEnds(Involving(fs, u), u));
    if NoDuplicates(posts) {
      FilterNoDuplicates(posts, (p: Post) => p.author == u || p.author in OtherEnds(Involving(fs, u), u));
      PermutationKeepsNoDuplicates(sel, FeedOf(posts, fs, u));
    }
  }

  /** A friend's PRIVATE post is in the feed, and a PUBLIC post by someone who
      is neither u nor a friend is not. */
  lemma FeedIgnoresVisibility(posts: seq<Post>, fs: seq<Friendship>, u: UserId, p: Post, q: Post)
    requires p in posts && p.visibility == "PRIVATE" && p.author in FriendsOf(fs, u)
    requires q.visibility == "PUBLIC" && q.author != u && q.author !in FriendsOf(fs, u)
    ensures p in FeedOf(posts, fs, u)
    ensures q !in FeedOf(posts, fs, u)
  {
    FeedMembers(posts, fs, u);
  }

  /** FeedView.get for the authenticated `user`. */
  method Feed(db: Database, user: UserId) returns (feed: seq<Post>)
    requires db.Valid()
    ensures feed == FeedOf(db.posts, db.friendships, user)
    ensures forall p :: p in feed <==>
      p in db.posts && (p.author == user || p.author in FriendsOf(db.friendships, user))
    ensures NewestFirst(feed)
    ensures NoDuplicates(feed)
  {
    var friendships := Involving(db.friendships, user);
    var friendIds: seq<UserId> := [];
    var i := 0;
    while i < |friendships|
      invariant 0 <= i <= |friendships|
      invariant friendIds == OtherEnds(friendships[..i], user)
    {
      assert friendships[..i + 1][..i] == friendships[..i];
      if friendships[i].user1 == user {
        friendIds := friendIds + [friendships[i].user2];
      } else {
        friendIds := friendIds + [friendships[i].user1];
      }
      i := i + 1;
    }
    assert friendships[..i] == friendships;
    feed := OrderNewestFirst(FeedSelection(db.posts, user, friendIds));
    FeedMembers(db.posts, db.friendships, user);
    PostsWithoutDuplicates(db.posts, UserIds(db.users), db.nextPostId, db.clock);
    FeedOrderAndMultiplicity(db.posts, db.friendships, user);
  }
}
