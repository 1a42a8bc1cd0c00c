/** The request and response shapes of app/schemas.py and the validation pydantic applies. */
module Schemas {
  import opened Wrappers

  /** A decoded JSON value of a request body. */
  datatype Json = JStr(s: string) | JInt(i: int) | JBool(b: bool) | JNull

  /** A JSON object: field name to value. */
  type Body = map<string, Json>

  /** The body of a create or update post request (PostBase / PostCreate). */
  datatype PostCreate = PostCreate(title: string, content: string, published: bool)

  /** Registration and login credentials (UserCreate / UserLogin). */
  datatype UserCreate = UserCreate(email: string, password: string)

  /** The public view of a user: the password is not a field of it. */
  datatype UserOut = UserOut(id: int, email: string, createdAt: int)

  /** The login response. */
  datatype Token = Token(accessToken: string, tokenType: string)

  /** The identity carried by a verified token; pydantic's default for id is None. */
  datatype TokenData = TokenData(id: Option<int>)

  /** A vote direction: 1 casts a vote, 0 retracts it. */
  type Direction = d: int | 0 <= d <= 1

  /** The body of a vote request. */
  datatype VoteIn = VoteIn(postId: int, dir: Direction)

  /** pydantic's (lax) reading of a `str` field. */
  function AsString(v: Json): Option<string>
  {
    if v.JStr? then Some(v.s) else None
  }

  /** pydantic's lax reading of a `bool` field: a boolean, or the integers 0 and 1. */
  function AsBool(v: Json): (r: Option<bool>)
    ensures r.Some? <==> v.JBool? || v == JInt(0) || v == JInt(1)
  {
    match v
    case JBool(b) => Some(b)
    case JInt(i) => if i == 0 then Some(false) else if i == 1 then Some(true) else None
    case _ => None
  }

  /** The fields a post payload consists of; any other field of the body is ignored. */
  const PostFields: set<string> := {"title", "content", "published"}

  /** Validates a post body: title and content are required strings, published defaults to true. */
  function ParsePostCreate(body: Body): (r: Result<PostCreate, Error>)
    ensures r.Err? ==> r.error == Unprocessable
    ensures r.Ok? <==>
      && "title" in body && body["title"].JStr?
      && "content" in body && body["content"].JStr?
      && ("published" in body ==> AsBool(body["published"]).Some?)
    ensures r.Ok? ==> r.value.title == body["title"].s && r.value.content == body["content"].s
    ensures r.Ok? ==> (r.value.published <==> "published" !in body || body["published"] in {JBool(true), JInt(1)})
  {
    var title := if "title" in body then AsString(body["title"]) else None;
    var content := if "content" in body then AsString(body["content"]) else None;
    var published := if "published" in body then AsBool(body["published"]) else Some(true);
    if title.None? || content.None? || published.None? then Err(Unprocessable)
    else Ok(PostCreate(title.value, content.value, published.value))
  }

  /** `model_dump()`: the payload as the field map the ORM receives. */
  function ModelDump(p: PostCreate): (d: Body)
    ensures d.Keys == PostFields
  {
    map["title" := JStr(p.title), "content" := JStr(p.content), "published" := JBool(p.published)]
  }

  /** Dumping a validated payload and validating it again gives the same payload back. */
  lemma ParseDumpRoundTrip(p: PostCreate)
    ensures ParsePostCreate(ModelDump(p)) == Ok(p)
  {
  }

  /** An omitted `published` becomes true. */
  lemma PublishedDefaultsToTrue(title: string, content: string)
    ensures ParsePostCreate(map["title" := JStr(title), "content" := JStr(content)])
         == Ok(PostCreate(title, content, true))
  {
  }

  /** A field outside title, content and published (such as `id`) does not change the payload. */
  lemma ExtraFieldIgnored(body: Body, k: string, v: Json)
    requires k !in PostFields
    ensures ParsePostCreate(body[k := v]) == ParsePostCreate(body)
  {
    var b := body[k := v];
    assert forall f :: f in PostFields ==> (f in b <==> f in body) && (f in b ==> b[f] == body[f]);
  }

  /** Validates a vote body: post_id an int, dir a strict int in [0, 1] (a boolean is refused). */
  function ParseVote(body: Body): (r: Result<VoteIn, Error>)
    ensures r.Err? ==> r.error == Unprocessable
    ensures r.Ok? <==>
      && "post_id" in body && body["post_id"].JInt?
      && "dir" in body && body["dir"] in {JInt(0), JInt(1)}
    ensures r.Ok? ==> r.value.postId == body["post_id"].i && JInt(r.value.dir) == body["dir"]
  {
    if "post_id" !in body || !body["post_id"].JInt? then Err(Unprocessable)
    else if "dir" !in body then Err(Unprocessable)
    else match body["dir"]
      case JInt(d) => if 0 <= d <= 1 then Ok(VoteIn(body["post_id"].i, d)) else Err(Unprocessable)
      case _ => Err(Unprocessable)
  }
}
