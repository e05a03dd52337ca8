/**
 * The post handlers of the blog backend over an in-memory table of posts.
 * The table is a map from primary key to row plus the next key to assign.
 * Each mutating handler commits once; `commitOk` says whether the storage
 * layer accepts that commit, and a refused commit is rolled back, leaving
 * the table as it was. The current time is the parameter `now`.
 */
module PostStore {
  import opened Wrappers
  import opened Models
  import opened Schemas

  /** Why a handler failed: no post with that id, or the storage layer failed. */
  datatype Error = NotFound(id: int) | StorageError

  /** Python's `value or default` on an optional string: `None` and `""` are falsy. */
  function OrDefault(value: Option<string>, default: string): (r: string)
    ensures value.Some? && value.value != [] ==> r == value.value
    ensures value.None? || value.value == [] ==> r == default
    ensures default != [] ==> r != []
  {
    if value.Some? && value.value != [] then value.value else default
  }

  /** The row a create request inserts under key `id` at time `now`. */
  function Created(id: int, request: PostCreate, now: int): (p: Post)
    ensures p.id == id && p.status == Draft
    ensures p.title != [] && p.content != []
    ensures p.title == (if request.title.Some? && request.title.value != [] then request.title.value else DefaultTitle)
    ensures p.content == (if request.content.Some? && request.content.value != [] then request.content.value else DefaultContent)
    ensures p.createdAt == now && p.updatedAt == now
  {
    NewRow(id, Some(OrDefault(request.title, DefaultTitle)),
           Some(OrDefault(request.content, DefaultContent)), Some(Draft), now)
  }

  /** Omitting every field of a create request is the same as sending an empty title and content. */
  lemma OmittedCreateIsEmptyCreate(id: int, now: int)
    ensures Created(id, OmittedCreate(), now) == Created(id, PostCreate(Some([]), None), now)
    ensures Created(id, OmittedCreate(), now).title == DefaultTitle
    ensures Created(id, OmittedCreate(), now).content == DefaultContent
  {
  }

  /**
   * `p` after a partial update at time `now`: each field the request carries
   * (even an empty string) replaces the stored one, each omitted field is
   * kept; the timestamp is refreshed; key, status and creation time are kept.
   */
  function Patched(p: Post, request: PostUpdate, now: int): (q: Post)
    ensures q.id == p.id && q.status == p.status && q.createdAt == p.createdAt
    ensures q.updatedAt == now
    ensures request.title.Some? ==> q.title == request.title.value
    ensures request.title.None? ==> q.title == p.title
    ensures request.content.Some? ==> q.content == request.content.value
    ensures request.content.None? ==> q.content == p.content
  {
    p.(title := request.title.GetOr(p.title),
       content := request.content.GetOr(p.content),
       updatedAt := now)
  }

  /** `p` after publication at time `now`: only status and timestamp change. */
  function Publication(p: Post, now: int): (q: Post)
    ensures q.status == Published && q.updatedAt == now
    ensures q.id == p.id && q.title == p.title && q.content == p.content
    ensures q.createdAt == p.createdAt
  {
    p.(status := Published, updatedAt := now)
  }

  /** Field by field, the later of two updates wins; omitted fields fall through to the earlier one. */
  function Overlay(first: PostUpdate, second: PostUpdate): (u: PostUpdate)
    ensures u.title == (if second.title.Some? then second.title else first.title)
    ensures u.content == (if second.content.Some? then second.content else first.content)
  {
    PostUpdate(if second.title.Some? then second.title else first.title,
               if second.content.Some? then second.content else first.content)
  }

  /** Two successive partial updates act as one update carrying the later value of each field. */
  lemma PatchedTwice(p: Post, first: PostUpdate, t1: int, second: PostUpdate, t2: int)
    ensures Patched(Patched(p, first, t1), second, t2) == Patched(p, Overlay(first, second), t2)
  {
  }

  /** An update that carries no field only refreshes the timestamp. */
  lemma PatchedByOmitted(p: Post, now: int)
    ensures Patched(p, OmittedUpdate(), now) == p.(updatedAt := now)
  {
  }

  /** Publishing again changes only the timestamp: publication is idempotent on status. */
  lemma PublicationIdempotent(p: Post, t1: int, t2: int)
    ensures Publication(Publication(p, t1), t2) == Publication(p, t2)
    ensures Publication(Publication(p, t1), t2).status == Publication(p, t1).status
  {
  }

  /** Editing and publishing touch disjoint fields, so their order does not matter beyond the timestamp. */
  lemma PublicationCommutesWithPatch(p: Post, u: PostUpdate, t1: int, t2: int)
    ensures Publication(Patched(p, u, t1), t2) == Patched(Publication(p, t1), u, t2)
  {
  }

  /**
   * The status filter of the list handler: no filter and the empty filter
   * keep every post; any other string keeps the posts whose status has that
   * value (so an unknown value keeps none).
   */
  function Matches(filter: Option<string>, s: PostStatus): (b: bool)
    ensures filter.None? || filter == Some([]) ==> b
    ensures filter.Some? && filter.value != [] ==> (b <==> filter.value == StatusValue(s))
    ensures filter.Some? && ParseStatus(filter.value).None? && filter.value != [] ==> !b
  {
    filter.None? || filter.value == [] || filter.value == StatusValue(s)
  }

  /** Posts ordered by last update, most recent first. */
  ghost predicate NewestFirst(s: seq<Post>) {
    forall i, j :: 0 <= i < j < |s| ==> s[i].updatedAt >= s[j].updatedAt
  }

  /** No two entries share a key. */
  ghost predicate DistinctIds(s: seq<Post>) {
    forall i, j :: 0 <= i < j < |s| ==> s[i].id != s[j].id
  }

  /** `s` with `p` inserted before the first entry not more recent than it. */
  function InsertByRecency(s: seq<Post>, p: Post): (r: seq<Post>)
    ensures |r| == |s| + 1
    ensures multiset(r) == multiset(s) + multiset{p}
    ensures forall x :: x in r <==> x == p || x in s
  {
    if s == [] || p.updatedAt >= s[0].updatedAt then [p] + s
    else
      var tail := InsertByRecency(s[1..], p);
      assert s == [s[0]] + s[1..];
      [s[0]] + tail
  }

  /** Insertion keeps a newest-first list newest first. */
  lemma {:induction false} InsertKeepsOrder(s: seq<Post>, p: Post)
    requires NewestFirst(s)
    ensures NewestFirst(InsertByRecency(s, p))
  {
    if s == [] || p.updatedAt >= s[0].updatedAt {
    } else {
      var tail := InsertByRecency(s[1..], p);
      InsertKeepsOrder(s[1..], p);
      assert forall x :: x in tail ==> x.updatedAt <= s[0].updatedAt by {
        forall x | x in tail ensures x.updatedAt <= s[0].updatedAt {
          if x != p {
            var k :| 0 <= k < |s[1..]| && s[1..][k] == x;
            assert s[k + 1] == x;
          }
        }
      }
      var r := [s[0]] + tail;
      forall i, j | 0 <= i < j < |r| ensures r[i].updatedAt >= r[j].updatedAt {
        if i == 0 {
          assert r[j] in tail;
        } else {
          assert r[i] == tail[i - 1] && r[j] == tail[j - 1];
        }
      }
    }
  }

  /** Inserting a post whose key is new keeps keys distinct. */
  lemma {:induction false} InsertKeepsIdsDistinct(s: seq<Post>, p: Post)
    requires DistinctIds(s)
    requires forall x :: x in s ==> x.id != p.id
    ensures DistinctIds(InsertByRecency(s, p))
  {
    if s == [] || p.updatedAt >= s[0].updatedAt {
      var r := [p] + s;
      forall i, j | 0 <= i < j < |r| ensures r[i].id != r[j].id {
        if i == 0 {
          assert r[j] in s;
        } else {
          assert r[i] == s[i - 1] && r[j] == s[j - 1];
        }
      }
    } else {
      var tail := InsertByRecency(s[1..], p);
      InsertKeepsIdsDistinct(s[1..], p);
      assert forall x :: x in tail ==> x.id != s[0].id by {
        forall x | x in tail ensures x.id != s[0].id {
          if x != p {
            var k :| 0 <= k < |s[1..]| && s[1..][k] == x;
            assert s[k + 1] == x;
          }
        }
      }
      var r := [s[0]] + tail;
      forall i, j | 0 <= i < j < |r| ensures r[i].id != r[j].id {
        if i == 0 {
          assert r[j] in tail;
        } else {
          assert r[i] == tail[i - 1] && r[j] == tail[j - 1];
        }
      }
    }
  }

  class Store {
    /** The table: each row under its own primary key. */
    var posts: map<int, Post>
    /** The key the next insertion receives. */
    var nextId: int

    /** Keys are positive, below `nextId`, and each row carries its own key. */
    ghost predicate Valid()
      reads this
    {
      && nextId >= 1
      && forall id :: id in posts ==> posts[id].id == id && 1 <= id < nextId
    }

    /** Every row was last updated no earlier than it was created. */
    ghost predicate Chronological()
      reads this
    {
      forall id :: id in posts ==> posts[id].createdAt <= posts[id].updatedAt
    }

    /** No row carries a timestamp later than `now`. */
    ghost predicate NotAfter(now: int)
      reads this
    {
      forall id :: id in posts ==> posts[id].updatedAt <= now
    }

    /** An empty table whose first key will be 1. */
    constructor ()
      ensures Valid() && Chronological()
      ensures posts == map[] && nextId == 1
    {
      posts := map[];
      nextId := 1;
    }

    /**
     * Create a draft post from `request` at time `now`. On success the new
     * row gets a key no live row has and every other row is unchanged.
     */
    method Create(request: PostCreate, now: int, commitOk: bool) returns (r: Result<Post, Error>)
      requires Valid()
      modifies this
      ensures Valid()
      ensures !commitOk ==> r == Err(StorageError) && posts == old(posts) && nextId == old(nextId)
      ensures commitOk ==> && r == Ok(Created(old(nextId), request, now))
                           && r.value.id !in old(posts)
                           && posts == old(posts)[r.value.id := r.value]
                           && nextId == old(nextId) + 1
      ensures old(Chronological() && NotAfter(now)) ==> Chronological() && NotAfter(now)
    {
      if !commitOk {
        return Err(StorageError);
      }
      var post := Created(nextId, request, now);
      posts := posts[nextId := post];
      nextId := nextId + 1;
      r := Ok(post);
    }

    /** The post with key `id`, or `NotFound`. */
    method Get(id: int) returns (r: Result<Post, Error>)
      requires Valid()
      ensures id in posts ==> r == Ok(posts[id]) && r.value.id == id
      ensures id !in posts ==> r == Err(NotFound(id))
    {
      if id !in posts {
        return Err(NotFound(id));
      }
      r := Ok(posts[id]);
    }

    /**
     * Apply a partial update to post `id` at time `now`. A missing key or a
     * refused commit leaves the table unchanged; otherwise only that row
     * changes, to `Patched(old row, request, now)`.
     */
    method Update(id: int, request: PostUpdate, now: int, commitOk: bool) returns (r: Result<Post, Error>)
      requires Valid()
      modifies this
      ensures Valid() && nextId == old(nextId)
      ensures id !in old(posts) ==> r == Err(NotFound(id)) && posts == old(posts)
      ensures id in old(posts) && !commitOk ==> r == Err(StorageError) && posts == old(posts)
      ensures id in old(posts) && commitOk ==>
                && r == Ok(Patched(old(posts)[id], request, now))
                && posts == old(posts)[id := r.value]
      ensures old(Chronological() && NotAfter(now)) ==> Chronological() && NotAfter(now)
    {
      if id !in posts {
        return Err(NotFound(id));
      }
      if !commitOk {
        return Err(StorageError);
      }
      var post := Patched(posts[id], request, now);
      posts := posts[id := post];
      r := Ok(post);
    }

    /**
     * Publish post `id` at time `now`, whatever its current status. A missing
     * key or a refused commit leaves the table unchanged; otherwise only that
     * row changes, to `Publication(old row, now)`.
     */
    method Publish(id: int, now: int, commitOk: bool) returns (r: Result<Post, Error>)
      requires Valid()
      modifies this
      ensures Valid() && nextId == old(nextId)
      ensures id !in old(posts) ==> r == Err(NotFound(id)) && posts == old(posts)
      ensures id in old(posts) && !commitOk ==> r == Err(StorageError) && posts == old(posts)
      ensures id in old(posts) && commitOk ==>
                && r == Ok(Publication(old(posts)[id], now))
                && posts == old(posts)[id := r.value]
      ensures old(Chronological() && NotAfter(now)) ==> Chronological() && NotAfter(now)
    {
      if id !in posts {
        return Err(NotFound(id));
      }
      if !commitOk {
        return Err(StorageError);
      }
      var post := Publication(posts[id], now);
      posts := posts[id := post];
      r := Ok(post);
    }

    /**
     * Remove post `id` for good. A missing key or a refused commit leaves
     * the table unchanged; otherwise exactly that key disappears.
     */
    method Delete(id: int, commitOk: bool) returns (r: Result<(), Error>)
      requires Valid()
      modifies this
      ensures Valid() && nextId == old(nextId)
      ensures id !in old(posts) ==> r == Err(NotFound(id)) && posts == old(posts)
      ensures id in old(posts) && !commitOk ==> r == Err(StorageError) && posts == old(posts)
      ensures id in old(posts) && commitOk ==> r == Ok(()) && posts == old(posts) - {id}
      ensures id !in posts <== r.Ok?
      ensures old(Chronological()) ==> Chronological()
    {
      if id !in posts {
        return Err(NotFound(id));
      }
      if !commitOk {
        return Err(StorageError);
      }
      posts := posts - {id};
      r := Ok(());
    }

    /**
     * The posts `filter` selects, each exactly once, most recently updated
     * first. Rows are visited in key order, as a table scan would.
     */
    method List(filter: Option<string>) returns (r: seq<Post>)
      requires Valid()
      ensures NewestFirst(r)
      ensures DistinctIds(r)
      ensures forall i :: 0 <= i < |r| ==>
                r[i].id in posts && posts[r[i].id] == r[i] && Matches(filter, r[i].status)
      ensures forall id :: id in posts && Matches(filter, posts[id].status) ==> posts[id] in r
    {
      r := [];
      var id := 1;
      while id < nextId
        invariant 1 <= id <= nextId
        invariant NewestFirst(r) && DistinctIds(r)
        invariant forall x :: x in r ==>
                    x.id in posts && posts[x.id] == x && Matches(filter, x.status) && x.id < id
        invariant forall k :: k in posts && k < id && Matches(filter, posts[k].status) ==> posts[k] in r
      {
        if id in posts && Matches(filter, posts[id].status) {
          InsertKeepsOrder(r, posts[id]);
          InsertKeepsIdsDistinct(r, posts[id]);
          r := InsertByRecency(r, posts[id]);
        }
        id := id + 1;
      }
    }
  }
}
