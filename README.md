# mm-channel-export in Dafny

A model of the core of the Mattermost channel exporter (`main.py`): how it
reads a channel's posts page by page, filters them by creation time, folds
them into threads (`add_post`), sorts the threads, looks up authors through
its user cache, and lays out one row per main post followed by one row per
reply in both the CSV and the HTML report.

The modules follow the program's structure:

- `Seqs` — small facts about slicing and concatenating sequences.
- `Wrappers` — `Option` and `Result`, used for the absent keys of a post and
  for the exceptions that end an export.
- `Posts` — the server's records, the normalised `post_details` record, and
  `get_file_info`. The chat server is a value (`Server`): its base URL, its
  users and files keyed by id, and the channel's pages of posts. A lookup of
  an id the server does not hold stands for an HTTP error status, which
  `raise_for_status` turns into an exception; the model returns `Err`.
- `Sorting` — `sorted(..., key=create_at)`: a stable insertion sort.
- `Threads` — the dictionary `all_posts` as a value (`Table`, the keys in
  insertion order beside the map) and as the object `add_post` mutates
  (`PostIndex`).
- `Paging` — `get_posts`: the paging loop, the date filter and the final
  sort, as methods proved against the function `GetPostsSpec`, with the
  lemmas about what `get_posts` returns.
- `Users` — `get_user` and its cache, as a class.
- `Rows` — the cells of `extract_post_details` and `format_post`, the row
  order shared by `generate_csv` and `generate_html`, and the method that
  writes the rows through the user cache.

A few behaviours of the code are easy to miss; the model follows the code:

- When a main post arrives after some of its replies, `update` replaces the
  collected replies with the new record's empty list, so those replies are
  lost (`Threads.ReplyThenRootDropsReply`). Replies that arrive after their
  main post are kept unless the main post is read again, since every copy
  of a main post empties its replies (`Threads.RootThenReply`,
  `Threads.RereadRootDropsReplies`).
- The date filter applies to replies exactly as to main posts.
- A reply whose main post is never added (never read, or read but outside
  the date window) leaves a `{'replies': [...]}` entry
  with no `create_at`, and the sort then raises (`Paging.SortedPosts`).
- Without `FETCH_ALL` and without both dates, the filter reads timestamp
  variables that were never assigned, so the first post read raises
  (`Paging.MissingBoundsAbort`).

## Model

| member | source | states |
|---|---|---|
| Posts.DownloadUrlInjective | main.py:74 | distinct file ids get distinct download URLs on the same server |
| Posts.FileInfoOf | main.py:64-75 | succeeds exactly when the server holds the file; keeps its id, name, size and MIME type and links `{BASE_URL}/files/{id}`; otherwise fails naming the file |
| Posts.FetchFiles | main.py:124 | succeeds exactly when every id is held, giving one projection per id in order; otherwise fails on the first missing id |
| Posts.Normalize | main.py:115-126 | the `post_details` record: absent `edit_at`/`delete_at` become 0, absent `root_id`/`parent_id` become "", files follow `file_ids` in order, replies start empty; fails exactly when a file is missing |
| Sorting.SortByCreateAt | main.py:111 | the sorted sequence has as many posts as the input (`SortByCreateAtSorts` and `SortIsStable` state the rest) |
| Sorting.SortByCreateAtSorts | main.py:111 | the result is a permutation of the input, sorted by `create_at` |
| Sorting.SortIsStable | main.py:111 | posts with equal `create_at` keep their relative order |
| Sorting.SortKeepsMembers | main.py:111 | the sort keeps exactly the posts it is given |
| Threads.Entry.WithReply | main.py:129 | `append` adds the reply at the end of the entry's replies and changes nothing else |
| Threads.Put | main.py:131 | assigning a key keeps the dictionary's insertion order free of duplicates |
| Threads.AddDetails | main.py:127-136 | only the thread key changes; a present key keeps its position and a new one goes last; a reply is appended to its root or starts a placeholder holding just it; a main post is stored as given |
| Threads.AddDetailsCoherent | main.py:127-136 | every stored reply sits under its own root id, and a full entry is filed under its own id |
| Threads.RootThenReply | main.py:128-129 | a reply read after its main post ends up in that post's replies |
| Threads.ReplyThenRootDropsReply | main.py:133-134 | a main post read after its reply replaces the entry and its replies are empty |
| Threads.RereadRootDropsReplies | main.py:133-134 | a main post read again after a reply that followed it replaces the entry, so its replies are empty again |
| Threads.AddRaw | main.py:114-136 | `add_post` on the table value: fails exactly when one of the post's files is missing, with that file's error; otherwise folds the normalised record into the table and keeps it well formed |
| Threads.PostIndex.constructor | main.py:85 | `get_posts` starts from an empty dictionary |
| Threads.PostIndex.AddPost | main.py:114-136 | the dictionary after `add_post` is the table fold of the normalised post; on a missing file it is left as it was |
| Paging.Ingest | main.py:102-107 | the inner loop keeps the dictionary well formed |
| Paging.Admits | main.py:103-106 | the filter raises exactly without `FETCH_ALL` and without bounds; otherwise it admits exactly with `FETCH_ALL` or a creation time inside the inclusive window |
| Paging.StepCases | main.py:103-107 | one pass of the loop body (`Step`): it raises without `FETCH_ALL` and bounds, skips a post outside the window leaving the dictionary as it was, and otherwise calls `add_post` |
| Paging.InWindow | main.py:105 | keeps exactly the posts created within the inclusive window |
| Paging.FirstEmptyPage | main.py:94-101 | the loop stops at the first empty page: every earlier page is non-empty |
| Paging.MainPosts | main.py:111 | the sort key exists exactly when every entry is a full record; otherwise the sort raises |
| Paging.SortedPosts | main.py:111 | fails exactly when some entry is a placeholder; otherwise returns the records sorted by `create_at`, a permutation of `all_posts.values()`, ties in insertion order |
| Paging.IngestErrorSticks | main.py:94-108 | once the loop has raised, later posts change nothing |
| Paging.ConsumedGrows | main.py:94-108 | reading more pages extends what was read |
| Paging.GetPosts | main.py:84-112 | the paging loop followed by the sort returns exactly `GetPostsSpec` |
| Paging.FilterPage | main.py:102-107 | one page's inner loop extends the fold by that page's posts, or stops with its first error |
| Paging.FetchAllAddsEveryPost | main.py:105 | with `FETCH_ALL`, every post read reaches `add_post`, in reading order |
| Paging.WindowAddsExactlyItsPosts | main.py:105-107 | without `FETCH_ALL`, exactly the posts created within the window reach `add_post`, in reading order, replies included |
| Paging.MissingBoundsAbort | main.py:89-105 | without `FETCH_ALL` and without bounds, the first post read raises |
| Paging.GetPostsWithoutBounds | main.py:84-112 | without `FETCH_ALL` and without bounds, `get_posts` raises exactly when the channel has a post, and returns nothing otherwise |
| Paging.ReadPostsArePages | main.py:94-102 | every post read comes from a page before the first empty one |
| Paging.IngestWithin | main.py:105-107 | without `FETCH_ALL`, every stored main post and reply lies within the window |
| Paging.IngestCoherent | main.py:102-107 | the inner loop keeps every reply under its own root |
| Paging.SortedPostsFromEntries | main.py:111 | every returned post is a full entry of the dictionary |
| Paging.GetPostsReturnsThreads | main.py:84-136 | `get_posts` returns main posts only, each carrying replies that name it as root |
| Paging.GetPostsSorted | main.py:111 | whatever `get_posts` returns (`GetPostsSpec`) is sorted by `create_at` |
| Paging.GetPostsWithinWindow | main.py:84-112 | without `FETCH_ALL`, every returned post and every reply it carries lies within the window |
| Users.UserCache.constructor | main.py:52 | the cache starts empty and no request has been made |
| Users.UserCache.GetUser | main.py:54-62 | a cached id is answered without a request; any other id costs one request whose answer is cached, or whose error leaves the cache alone; a cache that agrees with the server answers as the server does |
| Rows.IntToDecimal | main.py:201 | `str` of an integer: never empty, a minus sign exactly for a negative number, then digits with no leading zero; "0" exactly for zero |
| Rows.NoLeadingZero | main.py:201 | a printed size starts with '0' exactly when it is zero, which prints as "0" alone |
| Rows.DecimalIntRoundTrip | main.py:201 | the printed size reads back as the size |
| Rows.IntToDecimalInjective | main.py:201 | different sizes print differently |
| Rows.JoinLength | main.py:201 | `Join` (`sep.join`): the joined text is as long as the items plus one separator between each two neighbours |
| Rows.JoinNonEmpty | main.py:201 | a join whose last item is non-empty is non-empty |
| Rows.JoinAppend | main.py:201 | joining two non-empty lists puts one separator between their joins |
| Rows.Flag | main.py:181-182 | "Yes" exactly for a positive timestamp, "No" exactly otherwise |
| Rows.CsvAttachments | main.py:201 | the CSV attachments cell is empty exactly when the post has no file |
| Rows.CsvAttachmentsNext | main.py:201 | one more file adds its "name (size bytes)" entry at the end, after ", " unless it is the first |
| Rows.HtmlAttachments | main.py:180 | the HTML attachments cell is empty exactly when the post has no file |
| Rows.HtmlAttachmentsNext | main.py:180 | one more file adds its link at the end, after a space unless it is the first |
| Rows.CsvRow | main.py:199-207 | eight cells: id, message, user name, date, "Yes" exactly for a positive edit/delete time, attachments, and "Original Post" exactly for a main row or a non-reply, "Reply to" its root otherwise |
| Rows.HtmlRowOf | main.py:177-184 | style "table-active" exactly for a main row; the first six cells are the CSV row's; HTML attachments; an empty thread cell exactly for a main row or a non-reply, the root id in a span otherwise |
| Rows.IsMainOnlyMarksThread | main.py:202 | `is_main` changes only the thread cell and the style; the cell differs exactly for replies |
| Rows.ThreadRowsOrder | main.py:190-193 | a post's block (`ThreadRows`) is its main row, then as many reply rows as it has replies, sorted by `create_at`, a permutation of them, with replies created at the same instant in their stored order |
| Rows.RowPlanGrows | main.py:190-193 | the rows of the first posts are a prefix of the rows of all posts |
| Rows.ThreadRowsInPlace | main.py:190-193 | post `i`'s block of rows follows the blocks of the posts before it |
| Rows.MainRowsArePosts | main.py:190-191 | the main rows of a report's row plan (`RowPlan`) are exactly the posts `get_posts` returned, in order |
| Rows.Lines | main.py:190-193 | a written report has one line per planned row |
| Rows.LinesOk | main.py:200 | the report is written exactly when the server knows every row's author |
| Rows.LinesError | main.py:200 | a failed report names the author of its first row the server does not know; every earlier author is known |
| Rows.LinesAt | main.py:190-193 | line `i` is row `i` written with its author's user name |
| Rows.LinesErrorSticks | main.py:190-193 | after the first unknown author, no later row changes the outcome |
| Rows.RenderRow | main.py:199-207 | looking the author up through a cache that agrees with the server and laying out the cells extends the report by that row, or fails as `Lines` does; cached users stay cached, the author is cached once the row is written, and an author cached already costs no request |
| Rows.RenderReplies | main.py:192-193 | the reply loop extends the report by one reply row per reply, in order; it keeps every cached user, caches every reply's author when it succeeds, and sends no request when they were all cached |
| Rows.RenderThread | main.py:191-193 | writing one post's block through the cache extends the report by that block, with the same three facts about the cache |
| Rows.Render | main.py:190-193 | writing every row through a cache that agrees with the server produces exactly `Lines` of the row plan and the cache still agrees; cached users stay cached, every author of a written report is cached afterwards, and a report whose authors were all cached sends no request |
| Rows.Export | main.py:213-214 | the HTML report, then the CSV report through the same cache: both are `Lines` of the row plan, the first unknown author aborts before the CSV report, a written HTML report means the CSV report succeeds, every author ends up cached, and an export whose authors were all cached sends no request (the body also asserts, from `Render`'s contract, that the CSV pass sends none) |

## Left out

- HTTP: the session, its retry policy, headers, TLS verification and status
  codes are not modelled; the server is a value and a missing id stands for
  any error status.
- Configuration: `load_dotenv`, the environment variables and `FETCH_ALL`
  parsing; the model takes `fetchAll` and the window as parameters.
- Dates: `strptime` of `START_DATE`/`END_DATE` and the local time zone; the
  window bounds are given as millisecond timestamps. The end bound is
  midnight at the start of `END_DATE`, so posts later that day are dropped;
  the model takes whatever bound the conversion yields.
- The date cell is kept as the timestamp it is formatted from;
  `strftime` and the local time zone are not modelled.
- `get_channel_name`, `generate_json`, logging, `main` and its exception
  handlers, and the file writes: they do I/O only.
- The HTML page around the table rows and the CSV writer's quoting are not
  modelled; the reports are modelled as sequences of cells.
- Missing required JSON keys would raise `KeyError`: `id`, `message`,
  `user_id`, `create_at` and `posts` of a post or page, `id`, `name`,
  `size` and `mime_type` of a file's info, and `username` of a user. The
  model's records always carry them.
- Paging: the model covers channels whose pages run out. `Page` is empty
  past the last page the server holds, so `get_posts` always ends; the
  `while True` loop of the source would run forever on a server that never
  answers with an empty page.
- Threads.PostIndex.AddPost: Python shares each reply's dictionary between
  the entry and later reads; the model copies values, which is equivalent
  here because nothing mutates a stored reply.
- Users.UserCache.GetUser: the cache is the whole user record in the
  source; the model keeps only the user name the reports use.
