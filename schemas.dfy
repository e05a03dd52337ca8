/**
 * The request and response shapes of the blog API. Optional request fields
 * are `Option<string>`; a response renders the status as its string value.
 */
module Schemas {
  import opened Wrappers
  import opened Models

  /** Body of a create request; an omitted field takes its default. */
  datatype PostCreate = PostCreate(title: Option<string>, content: Option<string>)

  /** Body of a partial update; `None` means "leave this field alone". */
  datatype PostUpdate = PostUpdate(title: Option<string>, content: Option<string>)

  /** A post as returned to clients. */
  datatype PostResponse = PostResponse(
    id: int,
    title: string,
    content: string,
    status: string,
    createdAt: int,
    updatedAt: int)

  /** Body of a summarise request, and of its response. */
  datatype SummarizeRequest = SummarizeRequest(text: string)
  datatype SummarizeResponse = SummarizeResponse(summary: string)

  /** A create request with every field omitted. */
  function OmittedCreate(): (c: PostCreate)
    ensures c.title == Some(DefaultTitle) && c.content == Some(DefaultContent)
  {
    PostCreate(Some(DefaultTitle), Some(DefaultContent))
  }

  /** An update request with every field omitted. */
  function OmittedUpdate(): (u: PostUpdate)
    ensures u.title.None? && u.content.None?
  {
    PostUpdate(None, None)
  }

  /** The response for post `p`. */
  function ToResponse(p: Post): (r: PostResponse)
    ensures r.id == p.id && r.title == p.title && r.content == p.content
    ensures r.createdAt == p.createdAt && r.updatedAt == p.updatedAt
    ensures r.status == "draft" || r.status == "published"
    ensures r.status == "published" <==> p.status == Published
  {
    PostResponse(p.id, p.title, p.content, StatusValue(p.status), p.createdAt, p.updatedAt)
  }

  /** The post a response describes, if its status string is a valid one. */
  function FromResponse(r: PostResponse): (p: Option<Post>)
    ensures p.Some? <==> ParseStatus(r.status).Some?
  {
    match ParseStatus(r.status)
    case None => None
    case Some(s) => Some(Post(r.id, r.title, r.content, s, r.createdAt, r.updatedAt))
  }

  /** A response loses nothing of the post: it can be read back exactly. */
  lemma ResponseRoundTrip(p: Post)
    ensures FromResponse(ToResponse(p)) == Some(p)
  {
    StatusValueRoundTrip(p.status, p.status);
  }

  /** Two different posts never give the same response. */
  lemma ResponseInjective(p: Post, q: Post)
    ensures ToResponse(p) == ToResponse(q) ==> p == q
  {
    ResponseRoundTrip(p);
    ResponseRoundTrip(q);
  }
}
