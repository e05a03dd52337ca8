/**
 * The persisted entity of the blog backend: a post and its status, with the
 * column defaults the table applies when a field is left unset at insertion.
 * Timestamps are integers (ticks of a UTC clock supplied by the caller).
 */
module Models {
  import opened Wrappers

  /** Publication state; exactly two values. */
  datatype PostStatus = Draft | Published

  /** The string value each status carries (`"draft"`, `"published"`). */
  function StatusValue(s: PostStatus): (v: string)
    ensures v == "draft" <==> s == Draft
    ensures v == "published" <==> s == Published
  {
    match s
    case Draft => "draft"
    case Published => "published"
  }

  /** The status whose value is `v`, if any. */
  function ParseStatus(v: string): (r: Option<PostStatus>)
    ensures r.Some? <==> v == "draft" || v == "published"
    ensures r.Some? ==> StatusValue(r.value) == v
  {
    if v == "draft" then Some(Draft)
    else if v == "published" then Some(Published)
    else None
  }

  /** Distinct statuses have distinct values, and parsing inverts `StatusValue`. */
  lemma StatusValueRoundTrip(s: PostStatus, t: PostStatus)
    ensures ParseStatus(StatusValue(s)) == Some(s)
    ensures StatusValue(s) == StatusValue(t) ==> s == t
  {
  }

  /** Default title of a post, used when none is given. */
  const DefaultTitle: string := "Untitled"
  /** Default (empty-document) content of a post. */
  const DefaultContent: string := "{}"
  /** Declared width of the title column; the store does not enforce it. */
  const TitleWidth: nat := 500

  /**
   * A row of the posts table. `id` is the primary key; `content` is an
   * opaque serialized document never inspected here.
   */
  datatype Post = Post(
    id: int,
    title: string,
    content: string,
    status: PostStatus,
    createdAt: int,
    updatedAt: int)

  /**
   * The row inserted with primary key `id` at time `now`: a field given as
   * `None` takes its column default, both timestamps are `now`.
   */
  function NewRow(id: int, title: Option<string>, content: Option<string>,
                  status: Option<PostStatus>, now: int): (p: Post)
    ensures p.id == id
    ensures title.None? ==> p.title == DefaultTitle
    ensures title.Some? ==> p.title == title.value
    ensures content.None? ==> p.content == DefaultContent
    ensures content.Some? ==> p.content == content.value
    ensures status.None? ==> p.status == Draft
    ensures status.Some? ==> p.status == status.value
    ensures p.createdAt == now && p.updatedAt == now
  {
    Post(id, title.GetOr(DefaultTitle), content.GetOr(DefaultContent),
         status.GetOr(Draft), now, now)
  }
}
