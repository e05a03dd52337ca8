# Smart Blog Editor backend — a verified model

This project models, in Dafny, the deterministic logic of a small blog
backend. The backend stores posts, each with a title, an opaque serialized
rich-text body and a draft/published status. It offers create, list, get,
partial update, publish and delete handlers over one table. It also has a
text summariser with a local fallback, and it builds its cross-origin
allow-list from configuration.

The model has three parts:

* **The post table and its handlers** (`post_store.dfy`). A `Store` class
  holds a map from primary key to `Post` and the next key to assign. Its
  methods mirror the handlers: `Create`, `Get`, `Update`, `Publish`,
  `Delete` and `List`. The current time is the integer parameter `now`. The
  handlers' failure modes are values of `Error`: `NotFound(id)` is the 404
  case and `StorageError` is the 500 case. A mutating handler takes
  `commitOk`, which says whether the storage layer accepts its commit. A
  refused commit is rolled back and leaves the table unchanged.
* **The fallback summariser** (`summarizer.dfy`). `Summarize` is the
  summarise handler when no remote credential is configured. Its sentence
  loop, `KeepSentences`, is proved to keep exactly the chunks `Select`
  chooses, and the handler is proved equal to the specification function
  `FallbackSummary`. Lemmas state what that summary is made of.
* **The CORS origin list** (`cors.dfy`). `AllowedOrigins` takes the
  `FRONTEND_URL` value as a parameter and builds the list with the same loop
  as the source, `AppendOrigins`. It is proved equal to the fold
  `AddOrigins`, and lemmas state prefix, uniqueness, soundness,
  completeness and order.

The entity and the API shapes are datatypes: `models.dfy` holds
`PostStatus`, `Post` and the column defaults; `schemas.dfy` holds
`PostCreate`, `PostUpdate`, `PostResponse` and the summarise request and
response. `text.dfy` models the Python `str` operations the code relies on:
`isspace`, `strip`, `split`, `join` and `replace`. Strings are sequences of
Unicode code points, as Python's `len` and indexing count them.
`wrappers.dfy` holds `Option` and `Result`.

Two points of the handlers' behaviour are easy to miss:

* The list handler applies its status filter only when the filter is
  truthy (main.py:125). An empty `status=` therefore lists every post, just
  as an absent one does.
* `updated_at` is set from the clock on each write (main.py:176, 203), so it
  only increases if the clock does not run backwards. The store methods
  therefore promise `updated_at >= created_at` only for a table whose
  timestamps are all `<= now`.

## Model

| member | source | states |
|---|---|---|
| `Models.StatusValue` | models.py:7-9 | `Draft` has value `"draft"` and `Published` has value `"published"`, each if and only if |
| `Models.ParseStatus` | models.py:7-9 | a string names a status exactly when it is `"draft"` or `"published"`, and then it is that status's value |
| `Models.StatusValueRoundTrip` | models.py:7-9 | parsing a status's value gives the status back, and distinct statuses have distinct values |
| `Models.NewRow` | models.py:22-38 | an inserted row carries its key; an unset title, content or status takes its default (`"Untitled"`, `"{}"`, DRAFT); `created_at` and `updated_at` are both the insertion time |
| `Schemas.OmittedCreate` | schemas.py:6-10 | a create body with both fields omitted carries title `"Untitled"` and content `"{}"` |
| `Schemas.OmittedUpdate` | schemas.py:13-17 | an update body with both fields omitted carries `None` for both |
| `Schemas.ToResponse` | schemas.py:20-28 | a response carries the post's id, title, content and both timestamps unchanged; its status is `"draft"` or `"published"`, and `"published"` exactly when the post is published |
| `Schemas.ResponseRoundTrip` | schemas.py:20-31 | the post can be read back exactly from its response |
| `Schemas.ResponseInjective` | schemas.py:20-31 | two different posts never produce the same response |
| `PostStore.OrDefault` | main.py:98-99 | `value or default`: a present non-empty string is kept; `None` and `""` give the default; with a non-empty default the result is never empty |
| `PostStore.Created` | main.py:96-101 | a created post has the given key and status DRAFT; its title and content are the request's when non-empty, else `"Untitled"` and `"{}"`; both timestamps are the creation time |
| `PostStore.OmittedCreateIsEmptyCreate` | main.py:96-101 | omitting the create fields and sending an empty title give the same post, titled `"Untitled"` with content `"{}"` |
| `PostStore.Patched` | main.py:171-176 | a field present in the update, even `""`, overwrites; an absent field is kept; `updated_at` becomes `now`; id, status and `created_at` are unchanged |
| `PostStore.PatchedTwice` | main.py:171-176 | two successive updates equal one update carrying, per field, the later present value |
| `PostStore.PatchedByOmitted` | main.py:171-176 | an update with no fields changes only `updated_at` |
| `PostStore.Publication` | main.py:202-203 | publishing sets status PUBLISHED from either state and `updated_at` to `now`; id, title, content and `created_at` are unchanged |
| `PostStore.PublicationIdempotent` | main.py:202-203 | publishing twice equals publishing once at the later time |
| `PostStore.PublicationCommutesWithPatch` | main.py:171-203 | editing then publishing and publishing then editing differ at most in `updated_at` |
| `PostStore.Matches` | main.py:125-126 | with no filter or an empty one every post is selected; otherwise exactly the posts whose status value equals the filter are, and an unknown value selects none |
| `PostStore.InsertByRecency` | main.py:124 | insertion adds exactly one entry, the new post, and keeps all the others |
| `PostStore.InsertKeepsOrder` | main.py:124 | insertion keeps a list ordered by `updated_at`, most recent first |
| `PostStore.InsertKeepsIdsDistinct` | main.py:124 | inserting a post with a new key keeps keys distinct |
| `PostStore.Store.constructor` | models.py:22 | the table starts empty, and the first key assigned is 1 |
| `PostStore.Store.Create` | main.py:92-113 | on commit, the new post is `Created(k, request, now)` where `k` is the counter `nextId`, which no live post has, and the counter moves on by one; every other post is unchanged; a refused commit yields `StorageError` and changes nothing |
| `PostStore.Store.Get` | main.py:138-156 | a present key yields its post, and that post carries the key; a missing key yields `NotFound` |
| `PostStore.Store.Update` | main.py:159-189 | a missing key yields `NotFound` and changes nothing; a refused commit yields `StorageError` and changes nothing; otherwise only that post changes, to `Patched(old, request, now)` |
| `PostStore.Store.Publish` | main.py:192-216 | a missing key yields `NotFound` and changes nothing; a refused commit yields `StorageError` and changes nothing; otherwise only that post changes, to `Publication(old, now)` |
| `PostStore.Store.Delete` | main.py:219-241 | a missing key yields `NotFound` and changes nothing; a refused commit yields `StorageError` and changes nothing; otherwise exactly that key is removed, so a later `Get` yields `NotFound` |
| `PostStore.Store.List` | main.py:116-135 | the result holds every post the filter selects and no other post, each exactly once, ordered by `updated_at` most recent first |
| `Text.IsSpace` | main.py:58 | `isspace()` holds for the blank, tab, line feed, carriage return, vertical tab and form feed, and fails for every ASCII letter and digit and for `.`, `,`, `:` and `/` |
| `Text.Strip` | main.py:265 | `strip()` returns the slice of the input after its leading whitespace, and everything after that slice is whitespace; it is empty exactly when the input is all whitespace, and otherwise it neither starts nor ends with whitespace |
| `Text.StripIdempotent` | main.py:58-59 | a stripped string is its own strip |
| `Text.ReplaceNewlines` | main.py:256 | `replace("\n", " ")` keeps the length, turns each line feed into a space, keeps every other code point, and leaves no line feed |
| `Text.Join` | main.py:265 | `sep.join(parts)` starts with the first part; one part joins to itself and no parts join to `""` |
| `Text.Split` | main.py:256 | `split(sep)` gives at least one part, and joining the parts with the same separator gives the input back |
| `Text.SplitPartsFree` | main.py:256 | no part of a split contains the separator |
| `Text.SplitWithoutSeparator` | main.py:256 | a string that does not contain the separator splits into itself alone |
| `Text.JoinLength` | main.py:265 | a join is as long as its parts plus one separator between each two neighbours |
| `Summarizer.Select` | main.py:259-263 | the selection has no more chunks than there are slots or chunks |
| `Summarizer.SelectShape` | main.py:257-263 | the kept chunks are a prefix of the chunks, in order; there are at most 5 of them, and their lengths (separators excluded) add up to at most 200; the prefix stops early only where the next chunk would exceed 200 |
| `Summarizer.Chunks` | main.py:256 | the chunks of a text, re-joined with `". "`, give the text with line feeds replaced by spaces |
| `Summarizer.Finish` | main.py:265-270 | a non-empty stripped join is kept as the summary's start and is followed by at most one character, and the summary ends with `.`; the period is added exactly when the stripped join does not already end with one; an empty one gives the text, or its first 200 code points plus `"..."` when it is longer |
| `Summarizer.FallbackSummary` | main.py:256-270 | the summary is empty exactly when the text is; it can exceed 200 code points, because separators are not counted, but never exceeds 209 |
| `Summarizer.KeepSentences` | main.py:257-263 | the sentence loop keeps exactly `Select(chunks, 5, 200)` |
| `Summarizer.Summarize` | main.py:253-273 | the handler computes exactly `FallbackSummary`; the summary is empty only for empty text and is at most 209 code points long |
| `Summarizer.SummaryShape` | main.py:256-270 | the summary is the stripped join of a prefix of at most 5 chunks totalling at most 200, closed by `.`, which is added only when the join does not already end with one; when that join is empty, the summary is the text, cut to 200 plus `"..."` when the text is longer |
| `Summarizer.LongSingleSentence` | main.py:256-270 | a text over 200 code points with no `". "` and no line break is summarised as its first 200 code points plus `"..."` |
| `Summarizer.ThreeShortSentences` | main.py:256-267 | `"A. B. C."` summarises to itself |
| `Cors.Merged` | main.py:58-60 | one piece is stripped and appended exactly when it is non-empty and not yet listed; the existing origins stay in front, and a list without repeats keeps none |
| `Cors.AddOrigins` | main.py:57-60 | merging all pieces keeps the existing origins in front, and merging no pieces changes nothing |
| `Cors.AppendOrigins` | main.py:57-60 | the loop over the pieces computes exactly `AddOrigins` |
| `Cors.AddOriginsShape` | main.py:57-60 | merging keeps the existing origins in front and lists nothing twice; each added origin is a non-empty, stripped configuration piece; every non-empty stripped piece ends up listed |
| `Cors.AddOriginsOrder` | main.py:57-60 | added origins appear in the order of their first occurrence among the stripped pieces |
| `Cors.LocalOriginsDistinct` | main.py:46-51 | the four local development origins are pairwise distinct |
| `Cors.AllowedOrigins` | main.py:46-60 | the list begins with the four local origins and has no duplicates; every extra entry is a non-empty, stripped comma-separated piece of the configuration value; every such piece is listed; extras follow first-occurrence order |

## Left out

- The remote summarisation path (main.py:278-297) and its missing-library fallback: these are a foreign library and a network call. `Summarize` models only the handler with no credential configured.
- The fallback's catch-all that answers `"Unable to generate summary."` is not modelled: for a string input, none of the fallback's operations can fail.
- The health check, the request-logging middleware and the table creation at startup are left out. Engine and session setup and the connection-string selection in `database.py` are not part of this model.
- HTTP routing, dependency injection, request-body validation and the mapping to status codes are left out. `NotFound` stands for the 404 answer and `StorageError` for the 500 answer.
- Storage failures are modelled only at commit time, through `commitOk`. A failing query in `Get`, `List` or before a commit is not modelled.
- Transactions, isolation between concurrent requests and last-writer-wins behaviour are not modelled: the store is sequential.
- `PostStore.Store.Create`: the new key is the counter `nextId`, one past the last key ever assigned, so keys are never reused. SQLite without `AUTOINCREMENT` assigns the largest live key plus one instead, which reuses the key of a deleted newest row; the model does not capture that reuse.
- `PostStore.Matches`: only the status values `"draft"` and `"published"` select posts. The ORM's enum type also accepts the member names `"DRAFT"` and `"PUBLISHED"` as the filter, and the model does not capture this.
- `PostStore.Store.List`: the database leaves the order of posts with equal `updated_at` unspecified, so the contract does not fix it. The model's scan puts the larger key first.
- Timestamps are integers supplied by the caller. Wall-clock reading, time zones and ISO-8601 rendering are left out. `updated_at >= created_at` holds only under a clock that does not run backwards, and the store methods state it under that condition.
- The title column's declared width of 500 (`Models.TitleWidth`) is not enforced, and neither is it by SQLite.
