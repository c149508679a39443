/** The post serializer (posts/serializers.py): which fields it accepts from
    input, and its validate step, which refuses a post with neither text nor
    an uploaded file. */
module PostsSerializers {
  import opened Common
  import opened PostsViews

  /** The validated input of a post: the two writable model fields. */
  datatype PostData = PostData(content: Option<string>, visibility: Option<string>)

  /** The fields PostSerializer lists, in order. */
  const PostFields: seq<string> :=
    ["id", "author", "author_name", "author_email", "content", "visibility", "media", "created_at", "updated_at"]

  /** read_only_fields of the Meta class. */
  const ReadOnlyFields: set<string> := {"id", "author", "created_at", "updated_at"}

  /** The fields declared read-only on the serializer itself: the nested media
      and the two author columns. */
  const DeclaredReadOnly: set<string> := {"media", "author_name", "author_email"}

  /** The fields input may set: every listed field that is read-only neither
      in Meta nor by declaration. */
  function WritableFields(): (r: set<string>)
    ensures r == {"content", "visibility"}
  {
    set f | f in PostFields && f !in ReadOnlyFields && f !in DeclaredReadOnly
  }

  /** The part of the raw input the serializer keeps: the writable keys
      with their values; anything sent for another key is dropped. */
  function AcceptedInput(raw: map<string, string>): (r: map<string, string>)
    ensures r.Keys == raw.Keys * {"content", "visibility"}
    ensures forall k :: k in r ==> r[k] == raw[k]
    ensures forall k :: k in ReadOnlyFields ==> k !in r
  {
    var writable := WritableFields();
    map k | k in raw && k in writable :: raw[k]
  }

  /** PostSerializer.validate with the request of the serializer context,
      if any, given by its uploaded files. */
  function Validate(data: PostData, request: Option<seq<Upload>>): (r: Result<PostData, string>)
    ensures r.Err? <==> !Truthy(data.content) && (request.None? || request.value == [])
    ensures r.Ok? ==> r.value == data
    ensures r.Err? ==> r.error == EmptyPostError
  {
    var files := if request.Some? then request.value else [];
    if !Truthy(data.content) && files == [] then Err(EmptyPostError) else Ok(data)
  }

  /** The create view's guard and validate, given the same content. The
      view counts only the files under "media", validate counts every
      uploaded file; so whatever passes the view's guard passes validate,
      and without uploads the two refuse exactly the same posts. Both raise
      `EmptyPostError`. */
  lemma ViewGuardImpliesValidate(content: Option<string>, visibility: Option<string>, uploads: seq<Upload>)
    ensures !(!Truthy(content) && GetList(uploads, "media") == []) ==>
      Validate(PostData(content, visibility), Some(uploads)).Ok?
    ensures uploads == [] ==>
      (Validate(PostData(content, visibility), Some(uploads)).Err? <==>
       !Truthy(content) && GetList(uploads, "media") == [])
  {
    var media := GetList(uploads, "media");
    if media != [] {
      assert media[0] in uploads;
    }
  }

  /** The converse fails: an empty post whose one file is sent under another
      form key is refused by the view's guard and passes validate. */
  lemma OtherFormKeyPassesOnlyValidate()
    ensures var uploads := [Upload("image", "a.png", "image/png")];
      GetList(uploads, "media") == [] &&
      Validate(PostData(None, None), Some(uploads)).Ok?
  {
    var uploads := [Upload("image", "a.png", "image/png")];
    assert uploads[1..] == [];
  }
}
