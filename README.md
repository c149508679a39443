# Social app core: friend requests, posts and the feed

This project models the decision logic of a small social-network backend
built on Django and Django REST Framework. It covers:

- the friend-request endpoint: a guarded insert into the request table;
- the post-creation endpoint: a post with text and/or uploaded files, one
  media row per file, and a rollback by delete when a file is neither an image
  nor a video;
- the feed: the user's posts and their friends' posts, newest first;
- the schema those rules rely on: choices, defaults, `unique_together`,
  cascade deletes and default orderings;
- the two serializer checks: a post must not be empty, and the registration
  password must match its confirmation. Registration also has a create step
  that stores the new user.

The relational store is the class `Db.Database`. It holds one `seq` per table
(users, friend requests, friendships, posts, post media), the next primary key
of each table, and a logical clock. Each insert stamps `created_at` with the
clock and then advances it. `Valid()` holds the constraints the database
itself enforces:

- increasing keys;
- the unique `email` and `username` columns;
- both ordered-pair `unique_together` constraints;
- every foreign key.

`Valid()` also says that `created_at` stamps increase along each table. The
database does not enforce that: it is an assumption the logical clock makes
true, since every insert takes a fresh, larger stamp.

The stronger rule the friend-request view maintains is
`FriendsModels.RequestsWellFormed`: nobody sends a request to themself, and
each unordered pair of users has at most one request. It is kept separate
from `Valid()`, and each operation that touches requests is proved to
preserve it when requests are handled one at a time.

Modules follow the source files:

- `Users`: the user table;
- `FriendsModels` and `PostsModels`: the two `models.py` files;
- `Db`: the ORM calls;
- `FriendsViews` and `PostsViews`: the two `views.py` files;
- `PostsSerializers` and `UsersSerializers`: the two `serializers.py` files;
- `Common`: options, results, `str.startswith` and an order-keeping filter
  that stands for a queryset `filter()`.

`Post.visibility` (posts/models.py:27-31) is never read by `FeedView.get`
(posts/views.py:72-95). `PostsViews.FeedIgnoresVisibility` proves the
consequence: a friend's PRIVATE post is in the feed, and a stranger's PUBLIC
post is not.

## Model

| member | source | states |
|---|---|---|
| FriendsViews.SendFriendRequest | friends/views.py:20-67 | Each outcome holds exactly when its condition holds, checked in this order: unknown username gives NotFound; the sender themself gives the self-request error; a friendship in either orientation gives "already friends"; a request in either direction, whatever its status, gives "request exists"; otherwise Created. Only Created appends a row: one pending request from sender to receiver, with the next key and the current time. No other table or key counter changes, and the no-self / one-request-per-pair invariant is preserved. |
| FriendsModels.AddKeepsWellFormed | friends/views.py:27-62 | Adding a request between two distinct users who have no request in either direction keeps the no-self / one-request-per-pair invariant. |
| FriendsModels.FriendsOfIsFriendshipBetween | friends/views.py:34-37 | The view's either-orientation friendship check holds exactly when the receiver is among the sender's friends as the feed computes them. |
| Users.FindByUsername | friends/views.py:24 | A found user is in the table and has the username; when nothing is found, no user has it. |
| Users.FindByUsernameUnique | friends/views.py:24 | With unique usernames, the lookup returns the one user with that name. |
| FriendsModels.ParseStatus | friends/models.py:10-14 | A stored status names a choice exactly when it is "pending", "accepted" or "rejected". |
| FriendsModels.StatusRoundTrip | friends/models.py:10-32 | Status choices and stored values correspond one to one, and the column default is stored as "pending". |
| FriendsModels.WellFormedImpliesOrderedUnique | friends/models.py:37-39 | The view's invariant implies the table's ordered (sender, receiver) uniqueness. |
| FriendsModels.CounterRequestOnlyExcludedByView | friends/models.py:37-39 | The table constraints admit a request followed by the reverse request; the view's invariant does not. |
| FriendsModels.ReversedFriendshipAllowed | friends/models.py:62-64 | Ordered (user1, user2) uniqueness alone admits the same friendship stored in both orientations. |
| FriendsModels.RequestsWithoutUser | friends/models.py:16-26 | After deleting a user, a request survives exactly when that user is neither its sender nor its receiver. |
| FriendsModels.RequestCascadeKeepsValid | friends/models.py:16-26 | The request cascade keeps every table constraint, with foreign keys now over the remaining users. |
| FriendsModels.RequestCascadeKeepsWellFormed | friends/models.py:16-26 | The request cascade keeps the no-self / one-request-per-pair invariant. |
| FriendsModels.FriendshipsWithoutUser | friends/models.py:48-58 | After deleting a user, a friendship survives exactly when the user is in neither column. |
| FriendsModels.FriendshipCascadeKeepsValid | friends/models.py:48-58 | The friendship cascade keeps every table constraint over the remaining users. |
| FriendsModels.FriendsOfSymmetric | posts/views.py:76-87 | v is a friend of u exactly when u is a friend of v, whichever orientation the row is stored in. |
| PostsModels.ParseVisibility | posts/models.py:10-14 | A stored visibility names a choice exactly when it is "PUBLIC", "FRIENDS" or "PRIVATE". |
| PostsModels.VisibilityRoundTrip | posts/models.py:10-31 | Visibility choices and stored values correspond one to one, and the column default names FRIENDS. |
| PostsModels.ParseMediaType | posts/models.py:47-50 | A stored media type names a choice exactly when it is "IMAGE" or "VIDEO". |
| PostsModels.MediaTypeRoundTrip | posts/models.py:47-63 | Media-type choices and stored values correspond one to one. |
| PostsModels.InsertNewest | posts/models.py:37-38 | Inserting a post into a newest-first list gives a newest-first list with that post added and nothing else changed. |
| PostsModels.OrderNewestFirst | posts/models.py:37-38 | The `-created_at` ordering is newest first and is a permutation of its input. |
| PostsModels.PostsWithoutDuplicates | posts/models.py:6-35 | With increasing primary keys, no post appears twice in the table. |
| PostsModels.MediaOf | posts/models.py:53-57 | A post's media are exactly the media rows whose foreign key is that post. |
| PostsModels.MediaOfInUploadOrder | posts/models.py:73-74 | A post's media come out oldest first, that is, in upload order. |
| PostsModels.PostsWithoutId | posts/models.py:6-35 | Deleting a post leaves exactly the other posts. |
| PostsModels.MediaWithoutPost | posts/models.py:53-57 | Deleting a post leaves exactly the media of other posts. |
| PostsModels.DeletePostKeepsValid | posts/models.py:53-57 | Deleting a post together with its media keeps both tables valid, so no media row is left without its post. |
| PostsModels.PostsWithoutAuthor | posts/models.py:17-21 | Deleting a user leaves exactly the posts of other authors. |
| PostsModels.MediaOfPosts | posts/models.py:53-57 | The second step of the cascade keeps exactly the media whose post survived. |
| PostsModels.DeleteAuthorKeepsValid | posts/models.py:17-21 | Deleting a user's posts and their media keeps both tables valid over the remaining users. |
| Db.Database.CreateUser | users/serializers.py:22-29 | The insert fails with the unique-constraint error, leaving the table unchanged, exactly when the email or the username is taken. Otherwise it appends one user with the given columns, an empty password, a public account, the next key and the current time. |
| Db.Database.SetPassword | users/serializers.py:30-31 | Only the password of the given user changes; every other row and column is kept, and validity is kept. |
| Users.WithPassword | users/serializers.py:30-31 | The same rows in the same order; the given user's row gets the new password and nothing else. |
| Users.SetPasswordKeepsValid | users/serializers.py:30-31 | Replacing a password keeps the user-table constraints and the set of keys. |
| Db.Database.CreateFriendRequest | friends/views.py:58-62 | Appends one request with the given users and status, the next key and the current time, and keeps the table valid. |
| Db.Database.CreatePost | posts/views.py:36-40 | Appends one post with the given author, content and visibility, the next key and the current time. |
| Db.Database.CreatePostMedia | posts/views.py:56-60 | Appends one media row for an existing post, with the given type and file. |
| Db.Database.DeletePost | posts/views.py:50 | Removes the post and, by the cascade, all its media; nothing else changes. |
| Db.Database.DeleteUser | friends/models.py:16-58 | Removes the user, every request and friendship that references them, their posts and those posts' media. Keeps the tables valid and the request invariant. |
| Db.DeleteUserKeepsTablesValid | posts/models.py:17-21 | The whole user cascade, table by table, keeps every database constraint and the request invariant. |
| Users.UsersWithoutId | users/models.py:7-36 | The users left after a delete are exactly the others. |
| Users.DeleteUserKeepsValid | users/models.py:7-36 | Deleting a user keeps the user-table constraints and removes exactly that key. |
| PostsViews.GetList | posts/views.py:26 | The files read are exactly the uploads sent under the given form key. |
| PostsViews.CreatePost | posts/views.py:20-64 | Only the uploads under "media" are the files. Falsy content with no files is refused with the empty-post error, and nothing is stored. A file that is neither image nor video is refused with the media-type error, and afterwards the post and media tables equal their old values. Created holds exactly when content or files are present and every file is allowed. Then the new post has the requesting author, the submitted content and the submitted visibility (or FRIENDS by default). It is appended after all existing posts; one media row per file is appended, in upload order, and these are exactly the post's media. The user, request and friendship tables and their key counters never change. |
| PostsViews.AttachMedia | posts/views.py:43-60 | The loop over the files: it succeeds exactly when every file is allowed, making one row per file in order. At the first other file it deletes the post, and the post and media tables are back to what they were before the post. |
| PostsViews.ClassifyMedia | posts/views.py:45-49 | IMAGE exactly when the content type starts with "image", VIDEO exactly when it starts with "video", and no type otherwise. |
| PostsViews.VisibilityOrDefault | posts/views.py:23 | A missing visibility becomes "FRIENDS"; a supplied one is kept as sent. |
| PostsViews.RollbackRestoresTables | posts/views.py:49-54 | Deleting the just-created post gives back the earlier post table and, through the cascade, the earlier media table. |
| PostsViews.NewMediaAreThePostsMedia | posts/views.py:56-60 | The media created by one request are exactly the new post's media. |
| PostsViews.Feed | posts/views.py:72-95 | Contains exactly the posts whose author is the user or one of their friends, each once and newest first, whatever their visibility. It equals the model's definition of the feed query. |
| PostsViews.Involving | posts/views.py:76-78 | The friendships read are exactly those with the user in either column. |
| PostsViews.OtherEnds | posts/views.py:81-87 | The loop collects one id per friendship read. |
| PostsViews.OtherEndsAreFriends | posts/views.py:76-87 | Over friendships that involve the user, the collected ids are exactly the user's friends. |
| PostsViews.InvolvingKeepsFriends | posts/views.py:76-78 | Filtering to the user's friendships loses none of their friends. |
| PostsViews.FeedSelection | posts/views.py:90-91 | The feed query keeps exactly the posts by the user or by a collected id. |
| PostsViews.FeedMembers | posts/views.py:89-92 | The feed holds exactly the posts by the user or a friend of the user. |
| PostsViews.FeedOrderAndMultiplicity | posts/views.py:92 | The feed is newest first, and lists no post twice when the table has none twice. |
| PostsViews.FeedIgnoresVisibility | posts/views.py:89-92 | A friend's PRIVATE post is in the feed; a PUBLIC post by someone who is neither the user nor a friend is not. |
| PostsSerializers.Validate | posts/serializers.py:42-55 | Refuses, with the empty-post message, exactly when content is falsy and there is no request in context or it has no files. Otherwise it returns the data unchanged; so text always passes, and without a request empty text always fails. |
| PostsSerializers.ViewGuardImpliesValidate | posts/serializers.py:46-53 | For the same content: a post that passes the create view's guard (text, or a file under "media") also passes validate, which counts every uploaded file. With no uploads at all the two refuse exactly the same posts. Both raise the same message, `PostsViews.EmptyPostError`. |
| PostsSerializers.OtherFormKeyPassesOnlyValidate | posts/serializers.py:48 | The converse fails: an empty post whose only file is sent under another form key is refused by the view and passes validate. |
| PostsSerializers.WritableFields | posts/serializers.py:27-40 | Of the listed fields, only content and visibility are writable. |
| PostsSerializers.AcceptedInput | posts/serializers.py:40 | Input keeps exactly its content and visibility keys, with their values as sent, before field cleaning; id, author, created_at and updated_at can never be set. |
| UsersSerializers.Validate | users/serializers.py:15-18 | Succeeds exactly when password equals password2, returning the attrs unchanged. Otherwise the error is keyed "password" with the mismatch message. |
| UsersSerializers.TextOr | users/serializers.py:25-27 | A missing bio or gender becomes the empty string; a present one is copied. |
| UsersSerializers.DayOrNone | users/serializers.py:26 | A missing or null date of birth becomes none; a present one is copied. |
| UsersSerializers.FileOrNone | users/serializers.py:28 | A missing or null profile picture becomes none; a present one is copied. |
| UsersSerializers.NewUser | users/serializers.py:22-29 | The inserted row copies email and username, copies bio, gender, date of birth and profile picture when present and defaults them when absent, and has an empty password column. |
| UsersSerializers.Create | users/serializers.py:20-32 | The remaining data is the validated data without password2. The insert fails exactly when the email or username is taken, and then the user table is unchanged. Otherwise exactly one user is appended: the inserted row with its password column set to the hasher's output for the raw password. The other tables and their key counters never change. |

## Left out

- Timestamps: `created_at` is a logical clock that every insert advances, so stamps are distinct and increasing. Real `auto_now_add` values can tie; the model's newest-first order then fixes one order among equal stamps.
- `updated_at` (`auto_now`) is not stored: no modelled logic reads it.
- `__str__` methods are display only.
- HTTP status codes, response bodies and the serialized output of `PostSerializer` become the result datatypes (`Created`, `BadRequest`, `NotFound`).
- Authentication: the requesting user is a parameter, assumed to be an existing row.
- Files: an upload is its form key, name and content type only. Storage and `ImageField`/`FileField` handling are not modelled. `request.FILES` is the sequence of uploads: the view reads the ones under "media" (`PostsViews.GetList`), the serializer all of them.
- Password hashing and `validate_password` are foreign library code. The hasher is the parameter `hash` of `UsersSerializers.Create`, a deterministic function; `set_password` salts at random, which the model does not capture, and no contract relies on two hashes of one password being equal. Strength validation is not modelled.
- `UsersSerializers.Create`: the `pop('password2')` mutation of the caller's dictionary is returned as `remaining` instead of being made in place.
- `UsersSerializers.Validate` requires both password fields to be present. The serializer declares them `required=True`, so field validation supplies them before `validate` runs.
- `PostsSerializers.AcceptedInput` keeps each accepted value exactly as sent. DRF field cleaning is not modelled: the serializer trims whitespace from `content`, and its choice field for `visibility` refuses any value other than PUBLIC, FRIENDS or PRIVATE with a validation error.
- `PostsViews.CreatePost` models every request value as a string, and a missing `visibility` as absent. A JSON body can carry null or values that are not strings, and these are not modelled. A null `visibility` passes `get('visibility', 'FRIENDS')` (posts/views.py:23) as None, and the insert then fails on the NOT NULL column with an integrity error (a server error, no post stored). Non-string `content` is judged by Python truthiness (`0` is refused) and stored as its text.
- `PostsSerializers.ViewGuardImpliesValidate` relates the view and the serializer for the same content. The serializer actually sees content after field cleaning, which trims whitespace; that cleaning is not modelled.
- Concurrency: each request is modelled as running alone. The friend-request view checks and then inserts with no transaction or lock (friends/views.py:46-62). Two interleaved requests A to B and B to A can both be inserted, so `RequestsWellFormed` is not kept under interleaving. Two interleaved requests in the same direction would make the second insert fail with an integrity error, an outcome `FriendsViews.SendFriendRequest` does not have.
- Transactions: the rollback in the create view is a plain delete, and it is modelled as one.
- Query plans (`Q` objects, `select_related`, `prefetch_related`) are left out; only their results are modelled.
- Choices are not enforced when a post is created. `Post.objects.create` does not validate choices, so a post may store any string the column accepts, and the model keeps the raw string. The `max_length=10` limit (posts/models.py:28) is enforced or not depending on the database backend, and is not modelled.
- Friend-request accept and reject: no view performs them, so they are not modelled.
- Profiles are left out: the cascade from users to profiles, the profile views and serializers, and the `post_save` hook.
- JWT issuing in the user views is left out. The login serializer those views import is not part of this model; it is absent from the serializer file.
- Admin configuration and URL routing are left out.
- `Db.Database.CreateFriendRequest` requires that no request has the same ordered pair. The database would raise an integrity error instead, but the only caller has already excluded every existing pair.
- `Db.Database.CreatePostMedia` requires the post to exist. The only caller passes the post it has just created.
