/** The post and media tables (posts/models.py): records, the visibility and
    media-type choices, the visibility default, the two default orderings,
    and the cascades from users to posts and from posts to media. */
module PostsModels {
  import opened Common
  import opened Users

  /** The three choices of Post.visibility. */
  datatype Visibility = Public | Friends | Private

  function VisibilityValue(v: Visibility): string {
    match v
    case Public => "PUBLIC"
    case Friends => "FRIENDS"
    case Private => "PRIVATE"
  }

  /** The choice a stored visibility value names, if it is one of the three. */
  function ParseVisibility(s: string): (r: Option<Visibility>)
    ensures r.Some? <==> s == "PUBLIC" || s == "FRIENDS" || s == "PRIVATE"
  {
    if s == "PUBLIC" then Some(Public)
    else if s == "FRIENDS" then Some(Friends)
    else if s == "PRIVATE" then Some(Private)
    else None
  }

  /** Stored values and choices correspond one to one, and the column
      default names the FRIENDS choice. */
  lemma VisibilityRoundTrip(v: Visibility, s: string)
    ensures ParseVisibility(VisibilityValue(v)) == Some(v)
    ensures ParseVisibility(s) == Some(v) ==> VisibilityValue(v) == s
    ensures ParseVisibility(DefaultVisibility) == Some(Friends)
  {
  }

  /** The column default of Post.visibility, as stored. */
  const DefaultVisibility: string := "FRIENDS"

  /** The two choices of PostMedia.media_type. */
  datatype MediaType = Image | Video

  function MediaTypeValue(t: MediaType): string {
    match t
    case Image => "IMAGE"
    case Video => "VIDEO"
  }

  function ParseMediaType(s: string): (r: Option<MediaType>)
    ensures r.Some? <==> s == "IMAGE" || s == "VIDEO"
  {
    if s == "IMAGE" then Some(Image)
    else if s == "VIDEO" then Some(Video)
    else None
  }

  lemma MediaTypeRoundTrip(t: MediaType, s: string)
    ensures ParseMediaType(MediaTypeValue(t)) == Some(t)
    ensures ParseMediaType(s) == Some(t) ==> MediaTypeValue(t) == s
  {
  }

  /** One post. `content` is nullable; `visibility` is the stored string,
      which the creating view does not check against the choices. */
  datatype Post = Post(id: nat, author: UserId, content: Option<string>, visibility: string, createdAt: int)

  /** One media file of a post; the file itself is represented by its name. */
  datatype PostMedia = PostMedia(id: nat, post: nat, mediaType: MediaType, file: string, createdAt: int)

  predicate PostBefore(a: Post, b: Post) {
    a.id < b.id && a.createdAt < b.createdAt
  }

  predicate MediaBefore(a: PostMedia, b: PostMedia) {
    a.id < b.id && a.createdAt < b.createdAt
  }

  /** The constraints the database keeps on the post table. */
  ghost predicate PostsValid(posts: seq<Post>, userIds: set<UserId>, nextId: nat, clock: int) {
    Pairwise(posts, PostBefore) &&
    forall p :: p in posts ==> p.id < nextId && p.createdAt < clock && p.author in userIds
  }

  /** The constraints the database keeps on the media table. */
  ghost predicate MediaValid(media: seq<PostMedia>, postIds: set<nat>, nextId: nat, clock: int) {
    Pairwise(media, MediaBefore) &&
    forall m :: m in media ==> m.id < nextId && m.createdAt < clock && m.post in postIds
  }

  /** Increasing keys mean no post is stored twice. */
  lemma PostsWithoutDuplicates(posts: seq<Post>, userIds: set<UserId>, nextId: nat, clock: int)
    requires PostsValid(posts, userIds, nextId, clock)
    ensures NoDuplicates(posts)
  {
    forall i, j | 0 <= i < j < |posts| ensures posts[i] != posts[j] {
      assert PostBefore(posts[i], posts[j]);
    }
  }

  function PostIds(posts: seq<Post>): set<nat> {
    set p | p in posts :: p.id
  }

  /** Ordering ['-created_at']: newest first. */
  predicate NewestFirst(s: seq<Post>) {
    forall i, j :: 0 <= i < j < |s| ==> s[i].createdAt >= s[j].createdAt
  }

  /** Ordering ['created_at']: oldest first, that is, upload order. */
  predicate OldestFirst(s: seq<PostMedia>) {
    forall i, j :: 0 <= i < j < |s| ==> s[i].createdAt <= s[j].createdAt
  }

  /** Inserts p into a newest-first sequence. */
  function InsertNewest(p: Post, s: seq<Post>): (r: seq<Post>)
    requires NewestFirst(s)
    ensures NewestFirst(r)
    ensures multiset(r) == multiset(s) + multiset{p}
    ensures forall x :: x in r ==> x == p || x in s
  {
    if s == [] then [p]
    else if p.createdAt >= s[0].createdAt then
      NewestFirstHead(s);
      NewestFirstPrepend(p, s);
      [p] + s
    else
      assert s == [s[0]] + s[1..];
      NewestFirstHead(s);
      var rest := InsertNewest(p, s[1..]);
      NewestFirstPrepend(s[0], rest);
      [s[0]] + rest
  }

  /** The tail of a newest-first sequence is newest first, and none of its
      posts is newer than the head. */
  lemma NewestFirstHead(s: seq<Post>)
    requires s != [] && NewestFirst(s)
    ensures NewestFirst(s[1..])
    ensures forall x :: x in s[1..] ==> x.createdAt <= s[0].createdAt
  {
    forall x | x in s[1..] ensures x.createdAt <= s[0].createdAt {
      var k :| 0 <= k < |s[1..]| && s[1..][k] == x;
      assert s[k + 1] == x;
    }
  }

  /** A post no older than any post of a newest-first sequence may go in
      front of it. */
  lemma NewestFirstPrepend(p: Post, s: seq<Post>)
    requires NewestFirst(s)
    requires forall x :: x in s ==> x.createdAt <= p.createdAt
    ensures NewestFirst([p] + s)
  {
    var r := [p] + s;
    forall i, j | 0 <= i < j < |r| ensures r[i].createdAt >= r[j].createdAt {
      assert r[j] == s[j - 1];
      if i > 0 {
        assert r[i] == s[i - 1];
      }
    }
  }

  /** The posts in the order ['-created_at'] gives them: the Meta ordering of
      Post and the order_by('-created_at') of the feed. */
  function OrderNewestFirst(s: seq<Post>): (r: seq<Post>)
    ensures NewestFirst(r)
    ensures multiset(r) == multiset(s)
  {
    if s == [] then []
    else
      assert s == [s[0]] + s[1..];
      InsertNewest(s[0], OrderNewestFirst(s[1..]))
  }

  /** The media of post `pid`, as the `media` related manager lists them. */
  function MediaOf(media: seq<PostMedia>, pid: nat): (r: seq<PostMedia>)
    ensures forall m :: m in r <==> m in media && m.post == pid
  {
    Filter(media, (m: PostMedia) => m.post == pid)
  }

  /** Every post's media come out in upload order. */
  lemma MediaOfInUploadOrder(media: seq<PostMedia>, postIds: set<nat>, nextId: nat, clock: int, pid: nat)
    requires MediaValid(media, postIds, nextId, clock)
    ensures OldestFirst(MediaOf(media, pid))
  {
    FilterPairwise(media, (m: PostMedia) => m.post == pid, MediaBefore);
  }

  /** The posts left after deleting post `pid`. */
  function PostsWithoutId(posts: seq<Post>, pid: nat): (r: seq<Post>)
    ensures forall p :: p in r <==> p in posts && p.id != pid
  {
    Filter(posts, (p: Post) => p.id != pid)
  }

  /** The media left after deleting post `pid`: on_delete=CASCADE on
      PostMedia.post removes all of that post's media. */
  function MediaWithoutPost(media: seq<PostMedia>, pid: nat): (r: seq<PostMedia>)
    ensures forall m :: m in r <==> m in media && m.post != pid
  {
    Filter(media, (m: PostMedia) => m.post != pid)
  }

  /** The posts left after deleting user u: on_delete=CASCADE on Post.author. */
  function PostsWithoutAuthor(posts: seq<Post>, u: UserId): (r: seq<Post>)
    ensures forall p :: p in r <==> p in posts && p.author != u
  {
    Filter(posts, (p: Post) => p.author != u)
  }

  /** The media whose post is still among `postIds`: the second step of a
      cascade that removed posts. */
  function MediaOfPosts(media: seq<PostMedia>, postIds: set<nat>): (r: seq<PostMedia>)
    ensures forall m :: m in r <==> m in media && m.post in postIds
  {
    Filter(media, (m: PostMedia) => m.post in postIds)
  }

  /** Deleting one post with its media keeps both tables valid. */
  lemma DeletePostKeepsValid(
    posts: seq<Post>, media: seq<PostMedia>, userIds: set<UserId>,
    nextPostId: nat, nextMediaId: nat, clock: int, pid: nat)
    requires PostsValid(posts, userIds, nextPostId, clock)
    requires MediaValid(media, PostIds(posts), nextMediaId, clock)
    ensures PostsValid(PostsWithoutId(posts, pid), userIds, nextPostId, clock)
    ensures MediaValid(MediaWithoutPost(media, pid), PostIds(PostsWithoutId(posts, pid)), nextMediaId, clock)
  {
    FilterPairwise(posts, (p: Post) => p.id != pid, PostBefore);
    FilterPairwise(media, (m: PostMedia) => m.post != pid, MediaBefore);
    var rest := PostsWithoutId(posts, pid);
    forall m | m in MediaWithoutPost(media, pid) ensures m.post in PostIds(rest) {
      var p :| p in posts && p.id == m.post;
      assert p in rest;
    }
  }

  /** Deleting a user's posts with their media keeps both tables valid,
      now over the remaining users. */
  lemma DeleteAuthorKeepsValid(
    posts: seq<Post>, media: seq<PostMedia>, userIds: set<UserId>,
    nextPostId: nat, nextMediaId: nat, clock: int, u: UserId)
    requires PostsValid(posts, userIds, nextPostId, clock)
    requires MediaValid(media, PostIds(posts), nextMediaId, clock)
    ensures PostsValid(PostsWithoutAuthor(posts, u), userIds - {u}, nextPostId, clock)
    ensures MediaValid(MediaOfPosts(media, PostIds(PostsWithoutAuthor(posts, u))),
                       PostIds(PostsWithoutAuthor(posts, u)), nextMediaId, clock)
  {
    FilterPairwise(posts, (p: Post) => p.author != u, PostBefore);
    var ids := PostIds(PostsWithoutAuthor(posts, u));
    FilterPairwise(media, (m: PostMedia) => m.post in ids, MediaBefore);
  }
}
