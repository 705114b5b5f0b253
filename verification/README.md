# Reddit comment sentiment dashboard — verified model of its core

The dashboard script (`reddit_sentiment_historical.py`) takes a pasted post URL,
extracts the post id, fetches the post's comments, scores each comment's polarity,
stores the scored comments in a SQLite `comments` table keyed by a hashed comment
id, reloads the post's rows newest first, and charts them. A session-level gate
re-runs the fetch/store/reload only when no run is recorded yet or the refresh
interval has passed.

This project models the deterministic core of that script in Dafny:

- `url.dfy` (module `Url`): `get_post_id_from_url`, with Python's `str.strip`,
  `str.split` and `list.index` written out; a missing `"comments"` segment or one at
  the very end gives `None`.
- `sentiment.dfy` (module `Sentiment`): the Positive / Negative / Neutral label of a
  polarity.
- `timestamps.dfy` (module `Timestamps`): `created_utc` is a TEXT column, so
  `ORDER BY created_utc` is character-lexicographic order, proved a total order.
- `store.dfy` (module `Store`): the `comments` table as a class holding a
  `map<Id, Row>`. `AnalyzeAndStore` is the insert loop of `analyze_and_store`, where a
  primary-key collision skips the record and only successful inserts are counted.
  `LoadComments` is the `load_comments` query. The functions `StoreBatch` and
  `NewCount` specify the loop. Lemmas about them state first-write-wins,
  no deletion, the count, and idempotence under re-fetch.
- `report.dfy` (module `Report`): the label histogram (`value_counts`) and the
  toxicity mask `sentiment < -0.5 & score < 1`.
- `refresh.dfy` (module `Refresh`): one execution of the script's main block as
  `Session.Render`. It covers the empty-URL prompt, the invalid-URL error, and the
  refresh gate with its cached view.
- `options.dfy` (module `Options`): the `Option` type standing for Python's `None`.

Behaviour of the script worth knowing:

- The refresh gate is keyed by the session only, not by (session, post). Within
  the interval, a render for a different post shows the previous post's rows
  (`Refresh.SecondRenderWithinInterval`).
- `last_run` is set from a second clock read taken after the pipeline has run
  (line 120), not from the clock read of the gate (line 113). `Render` therefore
  takes two times, `now` and `doneAt`.
- The URL is stripped of `/` at both ends before it is split.
- The caller tests `if post_id:`, so an empty segment after `"comments"` (a doubled
  slash) is rejected as an invalid URL, like `None` (`Refresh.EmptyPostIdRejected`).

External collaborators are parameters:

- The polarity scorer is `polarity: string -> real`.
- The comment fetcher is `fetch: string -> seq<Record>`.
- The clock is the pair of `real` parameters `now` and `doneAt`.
- The comment id digest is an opaque `Id` (a string) that the fetcher supplies.

## Model

| member | source | states |
|---|---|---|
| `Url.Split` | reddit_sentiment_historical.py:44 | `split("/")` yields at least one part and no part contains the separator |
| `Url.JoinSplit` | reddit_sentiment_historical.py:44 | joining the parts of a split with the separator gives back the original string |
| `Url.SplitJoin` | reddit_sentiment_historical.py:44 | splitting a join of separator-free parts gives back exactly those parts |
| `Url.Strip` | reddit_sentiment_historical.py:44 | `strip("/")` leaves no `/` at either end and never lengthens the string |
| `Url.StripRemovesOnlyEnds` | reddit_sentiment_historical.py:44 | the stripped string is a contiguous middle part of the URL, and everything removed before or after it is `/` |
| `Url.IndexOf` | reddit_sentiment_historical.py:45 | `list.index` finds the first occurrence; it is absent (Python raises) exactly when the element is not in the list |
| `Url.GetPostIdFromUrl` | reddit_sentiment_historical.py:42-48 | the result is the segment right after the first `"comments"` segment; it is `None` exactly when no segment is `"comments"` or the first one is the last segment; an id never contains `/` |
| `Url.PostIdAfterFirstComments` | reddit_sentiment_historical.py:44-46 | whenever the first `"comments"` segment has a successor, that successor is returned |
| `Url.SegmentsOfJoin` | reddit_sentiment_historical.py:44 | a `/`-joined path whose ends are not `/` splits back into its own segments |
| `Url.ExtractFromJoinedPath` | reddit_sentiment_historical.py:44-46 | round trip: for any slash-free path with a `"comments"` segment followed by another, extraction returns the segment after the first `"comments"` |
| `Url.NoPostIdInJoinedPath` | reddit_sentiment_historical.py:44-48 | for any slash-free path with no `"comments"` segment, joined with `/`, extraction returns `None` |
| `Url.NoCommentsSegment` | reddit_sentiment_historical.py:45-48 | a URL with no `"comments"` segment yields `None` rather than an exception |
| `Url.ExampleCommentUrl` | reddit_sentiment_historical.py:42-48 | `EXAMPLE_URL` (`r/x/comments/abc123/title`) yields `abc123` |
| `Url.ExampleNoCommentsUrl` | reddit_sentiment_historical.py:42-48 | `NO_COMMENTS_URL` (`https://example.com/nope`) yields `None` |
| `Sentiment.LabelOf` | reddit_sentiment_historical.py:74 | Positive iff polarity > 0, Negative iff polarity < 0, Neutral iff polarity = 0, so exactly one label holds |
| `Timestamps.TextLeReflexive` | reddit_sentiment_historical.py:95 | the TEXT order on `created_utc` is reflexive |
| `Timestamps.TextLeTotal` | reddit_sentiment_historical.py:95 | any two timestamps are comparable |
| `Timestamps.TextLeTransitive` | reddit_sentiment_historical.py:95 | the order is transitive |
| `Timestamps.TextLeAntisymmetric` | reddit_sentiment_historical.py:95 | two timestamps ordered both ways are equal |
| `Store.NewCount` | reddit_sentiment_historical.py:69-89 | the number of records whose key was free when `StoreBatch` reached them (one `InsertOrSkip` per record, in batch order, each row built by `Analyze` from the record's body polarity and its label); never more than the batch size |
| `Store.StoreBatchKeys` | reddit_sentiment_historical.py:76-85 | after `StoreBatch` (the table once every record of the batch has been inserted or skipped in order) the table's keys are the old keys plus the batch's ids |
| `Store.StoreBatchKeepsRows` | reddit_sentiment_historical.py:76-85 | first write wins: every row stored before the batch is still stored, unchanged |
| `Store.StoreBatchAppend` | reddit_sentiment_historical.py:71-85 | storing `a + b` equals storing `a` and then `b` |
| `Store.FirstInBatchWins` | reddit_sentiment_historical.py:71-85 | a new key's stored row is `Analyze` of the first record in the batch that carries it: that record's fields, the polarity of its body, and the label of that polarity (lines 72-74) |
| `Store.NewCountIsFreshKeys` | reddit_sentiment_historical.py:69-89 | the returned count equals the number of the batch's ids absent from the table before the batch |
| `Store.StoreBatchKeyed` | reddit_sentiment_historical.py:22 | every row stays under its own primary key |
| `Store.StoreBatchLabelled` | reddit_sentiment_historical.py:72-82 | every stored label is the label of its stored polarity |
| `Store.AlreadyStoredIsNoop` | reddit_sentiment_historical.py:84-85 | a batch whose ids are all stored leaves the table unchanged and inserts 0 |
| `Store.RefetchIsNoop` | reddit_sentiment_historical.py:84-85 | re-storing already stored ids changes nothing and counts 0, even when score, body or polarity differ |
| `Store.StoreBatchIdempotent` | reddit_sentiment_historical.py:84-85 | a second run on the same batch returns 0 and leaves the table unchanged |
| `Store.NewestExists` | reddit_sentiment_historical.py:95 | any non-empty set of stored rows has a newest row |
| `Store.PostViewSize` | reddit_sentiment_historical.py:92-98 | the number of loaded rows equals the number of rows stored for the post |
| `Store.Table.constructor` | reddit_sentiment_historical.py:17-32 | a new table is empty and well formed |
| `Store.Table.Insert` | reddit_sentiment_historical.py:76-85 | an INSERT stores the row when its key is free and reports `Duplicate` without change otherwise |
| `Store.Table.AnalyzeAndStore` | reddit_sentiment_historical.py:66-89 | the new table is `StoreBatch` of the old one and the batch, the result is `NewCount`, and the table stays keyed |
| `Store.Table.LoadComments` | reddit_sentiment_historical.py:92-98 | returns each stored row of the post exactly once and nothing else, ordered by `created_utc` descending |
| `Report.Toxic` | reddit_sentiment_historical.py:143 | a row is kept iff `sentiment < -0.5` and `score < 1`, with its multiplicity |
| `Report.ToxicIsSubsequence` | reddit_sentiment_historical.py:143 | the toxic rows are picked out of the loaded rows at strictly increasing positions, so the mask keeps the loaded order, ties included |
| `Report.ToxicNewestFirst` | reddit_sentiment_historical.py:143 | the toxic table keeps the newest-first order of the loaded rows |
| `Report.LabelCount` | reddit_sentiment_historical.py:127 | a label's count is at most the row count, and zero iff no row carries it |
| `Report.LabelCountIsMultiplicity` | reddit_sentiment_historical.py:127 | a label's count is its multiplicity in the `sentiment_label` column, as `value_counts` reports |
| `Report.HistogramTotal` | reddit_sentiment_historical.py:127 | the three label counts add up to the number of rows |
| `Report.ToxicWithinNegative` | reddit_sentiment_historical.py:143 | every toxic row is labelled Negative, so the toxic rows never outnumber the Negative count |
| `Refresh.Session.constructor` | reddit_sentiment_historical.py:113 | a new session has no `last_run` and no cached rows |
| `Refresh.Session.Render` | reddit_sentiment_historical.py:107-124 | an empty URL prompts; an id that fails `if post_id:` (`Usable`: `None` or empty) is an error; otherwise the pipeline runs iff `ShouldRun` holds, i.e. there is no `last_run` or `now - last_run > refresh_rate` (line 113); a run stores the fetched batch, caches the post's rows newest first, sets `last_run`, and reports the insert count; otherwise nothing changes and the new count shown is 0 |
| `Refresh.SecondRenderWithinInterval` | reddit_sentiment_historical.py:113-124 | a second render within the interval (so `ShouldRun` fails) shows the first view again with 0 new, even for another post |
| `Refresh.EmptyPostIdRejected` | reddit_sentiment_historical.py:107-109 | `r/comments//t` extracts the empty id (line 46), which the `if post_id:` test at line 109 (`Usable`) rejects |

## Left out

- Streamlit rendering (page setup, inputs, spinner, charts, tables): presentation only. The
  text input becomes the `url` parameter and the slider becomes `refreshRate`.
- `reddit_auth` and `extract_comments`: network I/O through the Reddit client,
  including `replace_more` and the comment-tree flattening. Their output is the
  `fetch` parameter. Fetch failures, which the script does not handle, are not modelled.
- TextBlob polarity: a foreign floating-point NLP library. It is the
  `polarity: string -> real` parameter. Polarities are exact reals, so NaN and float
  rounding are not modelled.
- The md5 digest of the comment id: an opaque `Id` that the fetcher supplies.
- The `datetime.fromtimestamp(...).isoformat()` conversion: `created_utc` is an opaque string.
- SQLite connections, commits, closes and the database file: the table is an
  in-memory map. `init_db` only guarantees that the table exists, which the `Table`
  object does. SQLite's column type affinities are not modelled.
- The hourly `resample` mean and size: floating-point averaging over parsed
  datetimes, with timezone conversion.
- `time.time()`: replaced by the `now` and `doneAt` parameters.
- A fixed order among rows with equal `created_utc`: SQL leaves it unspecified. The
  load method picks any newest remaining row, and its contract allows any tie order.
