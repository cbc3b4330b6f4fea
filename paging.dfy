/**
 * `get_posts` (main.py lines 84-112): read the channel's pages 0, 1, 2, ...
 * until the first empty one, pass every post on a page through the date
 * filter into `add_post`, then sort the dictionary's values by creation time.
 *
 * The filter bounds arrive already converted to millisecond timestamps;
 * `None` stands for the case where no start and end date were given, in
 * which the source never binds `start_timestamp` and `end_timestamp`.
 */
module Paging {
  import opened Wrappers
  import opened Posts
  import opened Sorting
  import opened Threads

  /** The inclusive range [start, end] of creation times, both in milliseconds. */
  datatype Window = Window(start: int, end: int) {
    predicate Contains(t: int) {
      start <= t <= end
    }
  }

  /** The page the server returns for index `i`; past the last page it is empty. */
  function Page(server: Server, i: nat): seq<RawPost> {
    if i < |server.pages| then server.pages[i] else []
  }

  /**
   * The filter of line 105. With `FETCH_ALL` every post passes; otherwise the
   * post must lie within the window, and evaluating the test without bounds
   * raises.
   */
  function Admits(post: RawPost, fetchAll: bool, window: Option<Window>): (r: Result<bool, Error>)
    ensures r.Err? <==> !fetchAll && window.None?
    ensures r.Err? ==> r.error == NoTimestampBounds
    ensures r == Ok(true) <==> fetchAll || (window.Some? && window.value.Contains(post.createAt))
  {
    if fetchAll then Ok(true)
    else if window.None? then Err(NoTimestampBounds)
    else Ok(window.value.Contains(post.createAt))
  }

  /** One pass of the inner loop body, lines 103-107; `StepCases` gives its three outcomes. */
  function Step(server: Server, fetchAll: bool, window: Option<Window>, t: Table, post: RawPost)
    : Result<Table, Error>
  {
    var admitted :- Admits(post, fetchAll, window);
    if admitted then AddRaw(server, t, post) else Ok(t)
  }

  /** The table after the loop body has run over `posts` in order, or the error it raised. */
  function Ingest(server: Server, fetchAll: bool, window: Option<Window>, t: Table, posts: seq<RawPost>)
    : (r: Result<Table, Error>)
    ensures r.Ok? && WellFormed(t) ==> WellFormed(r.value)
    decreases |posts|
  {
    if posts == [] then Ok(t)
    else
      var before :- Ingest(server, fetchAll, window, t, posts[..|posts| - 1]);
      Step(server, fetchAll, window, before, posts[|posts| - 1])
  }

  /** `add_post` called on each of `posts` in order, with no filter in between. */
  function AddAll(server: Server, t: Table, posts: seq<RawPost>): Result<Table, Error>
    decreases |posts|
  {
    if posts == [] then Ok(t)
    else
      var before :- AddAll(server, t, posts[..|posts| - 1]);
      AddRaw(server, before, posts[|posts| - 1])
  }

  /** The posts of `posts` created within `w`, in their original order. */
  function InWindow(posts: seq<RawPost>, w: Window): (r: seq<RawPost>)
    ensures forall p :: p in r <==> p in posts && w.Contains(p.createAt)
    decreases |posts|
  {
    if posts == [] then []
    else
      var last := posts[|posts| - 1];
      assert posts == posts[..|posts| - 1] + [last];
      InWindow(posts[..|posts| - 1], w) + (if w.Contains(last.createAt) then [last] else [])
  }

  /**
   * The request for page `i` answers the server's page `i`, and an empty
   * page once the channel's posts are exhausted.
   */
  lemma PageAt(server: Server, i: nat)
    ensures i < |server.pages| ==> Page(server, i) == server.pages[i]
    ensures |server.pages| <= i ==> Page(server, i) == []
  {
  }

  /** The index of the first empty page at or after `from`: where the loop stops. */
  function FirstEmptyPage(server: Server, from: nat): (n: nat)
    requires from <= |server.pages|
    ensures from <= n <= |server.pages|
    ensures Page(server, n) == []
    ensures forall j :: from <= j < n ==> Page(server, j) != []
    decreases |server.pages| - from
  {
    if Page(server, from) == [] then from else FirstEmptyPage(server, from + 1)
  }

  /** The posts of pages 0 .. n-1, page after page. */
  function Consumed(server: Server, n: nat): seq<RawPost> {
    if n == 0 then [] else Consumed(server, n - 1) + Page(server, n - 1)
  }

  /** Every post the loop reads: all pages before the first empty one. */
  function ReadPosts(server: Server): seq<RawPost> {
    Consumed(server, FirstEmptyPage(server, 0))
  }

  /** The records behind the entries, or the failure of the sort key on a placeholder. */
  function MainPosts(vs: seq<Entry>): (r: Result<seq<PostDetails>, Error>)
    ensures r.Ok? <==> forall i :: 0 <= i < |vs| ==> vs[i].Full?
    ensures r.Err? ==> r.error == MissingCreateAt
    ensures r.Ok? ==> |r.value| == |vs| && forall i :: 0 <= i < |vs| ==> r.value[i] == vs[i].post
  {
    if vs == [] then Ok([])
    else if vs[0].Placeholder? then Err(MissingCreateAt)
    else
      var rest :- MainPosts(vs[1..]);
      assert forall i :: 1 <= i < |vs| ==> vs[i] == vs[1..][i - 1];
      Ok([vs[0].post] + rest)
  }

  /**
   * Line 111. The values of the dictionary, stably sorted by creation time;
   * evaluating the key on a placeholder, which has no `create_at`, raises.
   */
  function SortedPosts(t: Table): (r: Result<seq<PostDetails>, Error>)
    requires WellFormed(t)
    ensures r.Err? <==> exists k :: k in t.entries && t.entries[k].Placeholder?
    ensures r.Err? ==> r.error == MissingCreateAt
    ensures r.Ok? ==>
      var mains := MainPosts(Values(t)).value;
      && SortedByCreateAt(r.value)
      && multiset(r.value) == multiset(mains)
      && forall c :: CreatedAt(r.value, c) == CreatedAt(mains, c)
  {
    var vs := Values(t);
    assert (exists k :: k in t.entries && t.entries[k].Placeholder?) <==>
           (exists i :: 0 <= i < |vs| && vs[i].Placeholder?) by {
      if k :| k in t.entries && t.entries[k].Placeholder? {
        var i :| 0 <= i < |t.order| && t.order[i] == k;
        assert vs[i].Placeholder?;
      }
    }
    var mains :- MainPosts(vs);
    var sorted := SortByCreateAt(mains);
    SortByCreateAtSorts(mains);
    assert forall c :: CreatedAt(sorted, c) == CreatedAt(mains, c) by {
      forall c { SortIsStable(mains, c); }
    }
    Ok(sorted)
  }

  /** What `get_posts` returns, or the error it raises. */
  function GetPostsSpec(server: Server, fetchAll: bool, window: Option<Window>)
    : Result<seq<PostDetails>, Error>
  {
    assert WellFormed(EmptyTable);
    var t :- Ingest(server, fetchAll, window, EmptyTable, ReadPosts(server));
    SortedPosts(t)
  }

  /** Once the loop has raised, the posts after it change nothing. */
  lemma {:induction false} IngestErrorSticks(
    server: Server, fetchAll: bool, window: Option<Window>, t: Table, a: seq<RawPost>, b: seq<RawPost>)
    requires a <= b && Ingest(server, fetchAll, window, t, a).Err?
    ensures Ingest(server, fetchAll, window, t, b) == Ingest(server, fetchAll, window, t, a)
    decreases |b|
  {
    if a != b {
      assert a <= b[..|b| - 1];
      IngestErrorSticks(server, fetchAll, window, t, a, b[..|b| - 1]);
    }
  }

  lemma {:induction false} ConsumedGrows(server: Server, m: nat, n: nat)
    requires m <= n
    ensures Consumed(server, m) <= Consumed(server, n)
    decreases n
  {
    if m < n {
      ConsumedGrows(server, m, n - 1);
    }
  }

  /**
   * `get_posts` itself: the paging loop of lines 94-108, then the sort of
   * line 111.
   */
  method GetPosts(server: Server, fetchAll: bool, window: Option<Window>)
    returns (r: Result<seq<PostDetails>, Error>)
    ensures r == GetPostsSpec(server, fetchAll, window)
  {
    var allPosts := new PostIndex();
    var page: nat := 0;
    while true
      invariant page <= FirstEmptyPage(server, 0)
      invariant Ingest(server, fetchAll, window, EmptyTable, Consumed(server, page)) == Ok(allPosts.View())
      decreases |server.pages| - page
    {
      var posts := Page(server, page);
      if posts == [] {
        break;
      }
      assert page < FirstEmptyPage(server, 0);
      var outcome := FilterPage(allPosts, server, fetchAll, window, posts, Consumed(server, page));
      assert Consumed(server, page + 1) == Consumed(server, page) + posts;
      if outcome.Err? {
        r := Err(outcome.error);
        StopsWithError(server, fetchAll, window, page, Consumed(server, page + 1));
        return;
      }
      page := page + 1;
    }
    LoopEnd(server, fetchAll, window, page, allPosts.View());
    r := SortedPosts(allPosts.View());
  }

  /**
   * The inner loop of lines 102-107 over one page: each post that passes the
   * filter goes to `add_post`; the first error ends the loop.
   */
  method FilterPage(
    allPosts: PostIndex, server: Server, fetchAll: bool, window: Option<Window>,
    posts: seq<RawPost>, ghost done: seq<RawPost>)
    returns (outcome: Result<(), Error>)
    requires Ingest(server, fetchAll, window, EmptyTable, done) == Ok(allPosts.View())
    modifies allPosts
    ensures outcome.Ok? ==>
      Ingest(server, fetchAll, window, EmptyTable, done + posts) == Ok(allPosts.View())
    ensures outcome.Err? ==>
      Ingest(server, fetchAll, window, EmptyTable, done + posts) == Err(outcome.error)
  {
    var j := 0;
    ghost var read := done;
    assert done + posts[..j] == done;
    while j < |posts|
      invariant j <= |posts|
      invariant read == done + posts[..j]
      invariant Ingest(server, fetchAll, window, EmptyTable, read) == Ok(allPosts.View())
    {
      var post := posts[j];
      ReadOneMore(done, posts, j);
      StepCases(server, fetchAll, window, allPosts.View(), post);
      IngestNext(server, fetchAll, window, read, post, allPosts.View());
      read := read + [post];
      if !fetchAll {
        if window.None? {
          outcome := Err(NoTimestampBounds);
          IngestErrorSticks(server, fetchAll, window, EmptyTable, read, done + posts);
          return;
        }
        if post.createAt < window.value.start || post.createAt > window.value.end {
          j := j + 1;
          continue;
        }
      }
      outcome := allPosts.AddPost(post, server);
      if outcome.Err? {
        IngestErrorSticks(server, fetchAll, window, EmptyTable, read, done + posts);
        return;
      }
      j := j + 1;
    }
    assert posts[..j] == posts;
    outcome := Ok(());
  }

  /** When the loop stops at the first empty page, it has read everything `ReadPosts` names. */
  lemma LoopEnd(server: Server, fetchAll: bool, window: Option<Window>, page: nat, t: Table)
    requires page <= FirstEmptyPage(server, 0) && Page(server, page) == []
    requires Ingest(server, fetchAll, window, EmptyTable, Consumed(server, page)) == Ok(t)
    ensures WellFormed(t)
    ensures GetPostsSpec(server, fetchAll, window) == SortedPosts(t)
  {
    assert WellFormed(EmptyTable);
    assert page == FirstEmptyPage(server, 0);
  }

  /**
   * The three outcomes of one pass of the loop body: without `FETCH_ALL`
   * and without bounds the test raises, a post outside the window is
   * skipped, and any other post goes to `add_post`.
   */
  lemma StepCases(server: Server, fetchAll: bool, window: Option<Window>, t: Table, post: RawPost)
    ensures !fetchAll && window.None? ==> Step(server, fetchAll, window, t, post) == Err(NoTimestampBounds)
    ensures !fetchAll && window.Some? && !window.value.Contains(post.createAt) ==>
      Step(server, fetchAll, window, t, post) == Ok(t)
    ensures fetchAll || (window.Some? && window.value.Contains(post.createAt)) ==>
      Step(server, fetchAll, window, t, post) == AddRaw(server, t, post)
  {
  }

  lemma ReadOneMore(done: seq<RawPost>, posts: seq<RawPost>, j: nat)
    requires j < |posts|
    ensures done + posts[..j + 1] == (done + posts[..j]) + [posts[j]]
    ensures done + posts[..j + 1] <= done + posts
  {
    assert posts[..j + 1] == posts[..j] + [posts[j]];
  }

  lemma IngestNext(
    server: Server, fetchAll: bool, window: Option<Window>, read: seq<RawPost>, post: RawPost, t: Table)
    requires Ingest(server, fetchAll, window, EmptyTable, read) == Ok(t)
    ensures Ingest(server, fetchAll, window, EmptyTable, read + [post]) == Step(server, fetchAll, window, t, post)
  {
    assert (read + [post])[..|read|] == read;
  }

  /** An error raised part-way through page `page` is the error of the whole read. */
  lemma StopsWithError(server: Server, fetchAll: bool, window: Option<Window>, page: nat, read: seq<RawPost>)
    requires page < FirstEmptyPage(server, 0)
    requires read <= Consumed(server, page + 1)
    requires Ingest(server, fetchAll, window, EmptyTable, read).Err?
    ensures Ingest(server, fetchAll, window, EmptyTable, ReadPosts(server))
         == Ingest(server, fetchAll, window, EmptyTable, read)
  {
    PrefixOfReadPosts(server, page, read);
    IngestErrorSticks(server, fetchAll, window, EmptyTable, read, ReadPosts(server));
  }

  /** What the loop has read part-way through page `page` is a prefix of everything it reads. */
  lemma PrefixOfReadPosts(server: Server, page: nat, read: seq<RawPost>)
    requires page < FirstEmptyPage(server, 0)
    requires read <= Consumed(server, page + 1)
    ensures read <= ReadPosts(server)
  {
    ConsumedGrows(server, page + 1, FirstEmptyPage(server, 0));
  }

  // ---------------------------------------------------------------------
  // What reaches `add_post`

  /** With `FETCH_ALL` set, every post read reaches `add_post`, in reading order. */
  lemma {:induction false} FetchAllAddsEveryPost(
    server: Server, window: Option<Window>, t: Table, posts: seq<RawPost>)
    ensures Ingest(server, true, window, t, posts) == AddAll(server, t, posts)
    decreases |posts|
  {
    if posts != [] {
      FetchAllAddsEveryPost(server, window, t, posts[..|posts| - 1]);
    }
  }

  lemma AddAllNext(server: Server, t: Table, posts: seq<RawPost>, post: RawPost)
    ensures AddAll(server, t, posts + [post]) ==
      if AddAll(server, t, posts).Ok? then AddRaw(server, AddAll(server, t, posts).value, post)
      else AddAll(server, t, posts)
  {
    assert (posts + [post])[..|posts|] == posts;
  }

  /**
   * Without `FETCH_ALL`, exactly the posts created within the window reach
   * `add_post`, in reading order; this holds for replies as for main posts.
   */
  lemma {:induction false} WindowAddsExactlyItsPosts(server: Server, w: Window, t: Table, posts: seq<RawPost>)
    ensures Ingest(server, false, Some(w), t, posts) == AddAll(server, t, InWindow(posts, w))
    decreases |posts|
  {
    if posts != [] {
      var init, last := posts[..|posts| - 1], posts[|posts| - 1];
      WindowAddsExactlyItsPosts(server, w, t, init);
      var before := Ingest(server, false, Some(w), t, init);
      assert Ingest(server, false, Some(w), t, posts) ==
        if before.Ok? then Step(server, false, Some(w), before.value, last) else before;
      if w.Contains(last.createAt) {
        assert InWindow(posts, w) == InWindow(init, w) + [last];
        AddAllNext(server, t, InWindow(init, w), last);
      } else {
        assert InWindow(posts, w) == InWindow(init, w);
      }
    }
  }

  /** Without `FETCH_ALL` and without bounds, the first post read raises. */
  lemma {:induction false} MissingBoundsAbort(server: Server, t: Table, posts: seq<RawPost>)
    requires posts != []
    ensures Ingest(server, false, None, t, posts) == Err(NoTimestampBounds)
    decreases |posts|
  {
    if |posts| > 1 {
      MissingBoundsAbort(server, t, posts[..|posts| - 1]);
    }
  }

  /** The same at the level of `get_posts`: it raises as soon as the channel has a post. */
  lemma GetPostsWithoutBounds(server: Server)
    ensures ReadPosts(server) != [] ==> GetPostsSpec(server, false, None) == Err(NoTimestampBounds)
    ensures ReadPosts(server) == [] ==> GetPostsSpec(server, false, None) == Ok([])
  {
    if ReadPosts(server) != [] {
      MissingBoundsAbort(server, EmptyTable, ReadPosts(server));
    } else {
      assert Values(EmptyTable) == [];
    }
  }

  /** The posts the loop reads are those of pages 0, 1, ... up to the first empty page. */
  lemma {:induction false} ReadPostsArePages(server: Server, n: nat, i: nat)
    requires n <= FirstEmptyPage(server, 0) && i < |Consumed(server, n)|
    ensures exists p, k :: 0 <= p < n && 0 <= k < |Page(server, p)| && Consumed(server, n)[i] == Page(server, p)[k]
    decreases n
  {
    var before := Consumed(server, n - 1);
    if i < |before| {
      ReadPostsArePages(server, n - 1, i);
      var p, k :| 0 <= p < n - 1 && 0 <= k < |Page(server, p)| && before[i] == Page(server, p)[k];
      assert Consumed(server, n)[i] == before[i];
    } else {
      assert Consumed(server, n)[i] == Page(server, n - 1)[i - |before|];
    }
  }

  // ---------------------------------------------------------------------
  // What the fold builds

  /** Every main post and every reply stored in the table was created within `w`. */
  ghost predicate AllWithin(t: Table, w: Window) {
    forall k :: k in t.entries ==>
      && (t.entries[k].Full? ==> w.Contains(t.entries[k].post.createAt))
      && forall i :: 0 <= i < |t.entries[k].Replies()| ==> w.Contains(t.entries[k].Replies()[i].createAt)
  }

  lemma AddDetailsWithin(t: Table, d: PostDetails, w: Window)
    requires AllWithin(t, w) && w.Contains(d.createAt) && d.replies == []
    ensures AllWithin(AddDetails(t, d), w)
  {
    var r := AddDetails(t, d);
    forall k | k in r.entries && k == ThreadKey(d) && d.IsReply() && k in t.entries
      ensures forall i :: 0 <= i < |r.entries[k].Replies()| ==> w.Contains(r.entries[k].Replies()[i].createAt)
    {
      var before := t.entries[k].Replies();
      assert r.entries[k].Replies() == before + [d];
      forall i | 0 <= i < |r.entries[k].Replies()| ensures w.Contains(r.entries[k].Replies()[i].createAt) {
        if i < |before| { assert r.entries[k].Replies()[i] == before[i]; }
      }
    }
  }

  lemma {:induction false} IngestWithin(server: Server, w: Window, t: Table, posts: seq<RawPost>)
    requires AllWithin(t, w)
    ensures Ingest(server, false, Some(w), t, posts).Ok? ==> AllWithin(Ingest(server, false, Some(w), t, posts).value, w)
    decreases |posts|
  {
    if posts != [] {
      var init, last := posts[..|posts| - 1], posts[|posts| - 1];
      IngestWithin(server, w, t, init);
      var before := Ingest(server, false, Some(w), t, init);
      if before.Ok? && w.Contains(last.createAt) && Normalize(server, last).Ok? {
        AddDetailsWithin(before.value, Normalize(server, last).value, w);
      }
    }
  }

  lemma {:induction false} IngestCoherent(
    server: Server, fetchAll: bool, window: Option<Window>, t: Table, posts: seq<RawPost>)
    requires Coherent(t)
    ensures Ingest(server, fetchAll, window, t, posts).Ok? ==>
      Coherent(Ingest(server, fetchAll, window, t, posts).value)
    decreases |posts|
  {
    if posts != [] {
      var init, last := posts[..|posts| - 1], posts[|posts| - 1];
      IngestCoherent(server, fetchAll, window, t, init);
      var before := Ingest(server, fetchAll, window, t, init);
      if before.Ok? && Normalize(server, last).Ok? {
        AddDetailsCoherent(before.value, Normalize(server, last).value);
      }
    }
  }

  // ---------------------------------------------------------------------
  // What `get_posts` returns

  /** Every post returned is the full entry filed under some key of the table. */
  lemma SortedPostsFromEntries(t: Table, p: PostDetails)
    requires WellFormed(t) && SortedPosts(t).Ok? && p in SortedPosts(t).value
    ensures exists k :: k in t.entries && t.entries[k] == Full(p)
  {
    var mains := MainPosts(Values(t)).value;
    assert p in multiset(SortedPosts(t).value);
    assert p in multiset(mains);
    var i :| 0 <= i < |mains| && mains[i] == p;
    assert Values(t)[i] == t.entries[t.order[i]];
  }

  /**
   * `get_posts` returns main posts only, and each one carries exactly the
   * replies filed under its own id: a reply is never returned in its own
   * right, and every reply names the post that holds it as its root.
   */
  lemma GetPostsReturnsThreads(server: Server, fetchAll: bool, window: Option<Window>)
    requires GetPostsSpec(server, fetchAll, window).Ok?
    ensures forall p :: p in GetPostsSpec(server, fetchAll, window).value ==>
      && !p.IsReply()
      && forall i :: 0 <= i < |p.replies| ==> p.replies[i].rootId == p.id && p.replies[i].replies == []
  {
    assert Coherent(EmptyTable) && WellFormed(EmptyTable);
    IngestCoherent(server, fetchAll, window, EmptyTable, ReadPosts(server));
    var t := Ingest(server, fetchAll, window, EmptyTable, ReadPosts(server)).value;
    assert GetPostsSpec(server, fetchAll, window) == SortedPosts(t);
    CoherentTableSortsToThreads(t);
  }

  /** What `get_posts` returns is sorted by creation time. */
  lemma GetPostsSorted(server: Server, fetchAll: bool, window: Option<Window>)
    requires GetPostsSpec(server, fetchAll, window).Ok?
    ensures SortedByCreateAt(GetPostsSpec(server, fetchAll, window).value)
  {
    var t := Ingest(server, fetchAll, window, EmptyTable, ReadPosts(server)).value;
    assert GetPostsSpec(server, fetchAll, window) == SortedPosts(t);
  }

  lemma CoherentTableSortsToThreads(t: Table)
    requires WellFormed(t) && Coherent(t) && SortedPosts(t).Ok?
    ensures forall p :: p in SortedPosts(t).value ==>
      && !p.IsReply()
      && forall i :: 0 <= i < |p.replies| ==> p.replies[i].rootId == p.id && p.replies[i].replies == []
  {
    forall p | p in SortedPosts(t).value
      ensures !p.IsReply()
      ensures forall i :: 0 <= i < |p.replies| ==> p.replies[i].rootId == p.id && p.replies[i].replies == []
    {
      SortedPostsFromEntries(t, p);
      var k :| k in t.entries && t.entries[k] == Full(p);
      assert EntryCoherent(k, t.entries[k]);
      assert Full(p).Replies() == p.replies;
    }
  }

  /** Without `FETCH_ALL`, every post returned and every reply it carries lies within the window. */
  lemma GetPostsWithinWindow(server: Server, w: Window)
    requires GetPostsSpec(server, false, Some(w)).Ok?
    ensures forall p :: p in GetPostsSpec(server, false, Some(w)).value ==>
      && w.Contains(p.createAt)
      && forall i :: 0 <= i < |p.replies| ==> w.Contains(p.replies[i].createAt)
  {
    assert AllWithin(EmptyTable, w) && WellFormed(EmptyTable);
    IngestWithin(server, w, EmptyTable, ReadPosts(server));
    var t := Ingest(server, false, Some(w), EmptyTable, ReadPosts(server)).value;
    var ps := GetPostsSpec(server, false, Some(w)).value;
    assert SortedPosts(t) == Ok(ps);
    forall p | p in ps
      ensures w.Contains(p.createAt)
      ensures forall i :: 0 <= i < |p.replies| ==> w.Contains(p.replies[i].createAt)
    {
      SortedPostsFromEntries(t, p);
      var k :| k in t.entries && t.entries[k] == Full(p);
      assert t.entries[k].Replies() == p.replies;
    }
  }
}
