/**
 * The report rows of main.py: the cells of one CSV row
 * (`extract_post_details`, lines 199-207), the cells of one HTML table row
 * (`format_post`, lines 177-184), and the order in which both reports write
 * their rows (`generate_html`, lines 168-171, and `generate_csv`, lines
 * 189-193): each main post, then its replies sorted by creation time.
 *
 * The date cell is kept as the timestamp it is formatted from; the
 * formatting depends on the local time zone and is not modelled.
 */
module Rows {
  import opened Wrappers
  import opened Posts
  import opened Sorting
  import opened Users
  import opened Seqs

  /** A report cell: text, or the creation time that the date cell displays. */
  datatype Cell = Text(text: string) | Date(createAt: int)

  /** The column titles of both reports (lines 166 and 189). */
  const Header: seq<string> := ["ID", "Message", "Posted By", "Date", "Edited", "Deleted", "Attachments", "Thread"]

  // ---------------------------------------------------------------------
  // Decimal integers, as an f-string prints them

  ghost predicate IsDigits(s: string) {
    forall i :: 0 <= i < |s| ==> '0' <= s[i] <= '9'
  }

  function Digit(d: nat): (c: char)
    requires d < 10
    ensures '0' <= c <= '9' && c as int - '0' as int == d
  {
    ('0' as int + d) as char
  }

  function NatToDecimal(n: nat): (s: string)
    ensures |s| > 0 && IsDigits(s)
  {
    if n < 10 then [Digit(n)] else NatToDecimal(n / 10) + [Digit(n % 10)]
  }

  /** The number a string of decimal digits denotes. */
  function DecimalValue(s: string): int {
    if s == [] then 0 else 10 * DecimalValue(s[..|s| - 1]) + (s[|s| - 1] as int - '0' as int)
  }

  lemma {:induction false} DecimalRoundTrip(n: nat)
    ensures DecimalValue(NatToDecimal(n)) == n
  {
    if n >= 10 {
      DecimalRoundTrip(n / 10);
      var s := NatToDecimal(n);
      assert s[..|s| - 1] == NatToDecimal(n / 10);
    }
  }

  /** Only zero prints with a leading '0', and it prints as "0" alone. */
  lemma {:induction false} NoLeadingZero(n: nat)
    ensures NatToDecimal(n)[0] == '0' <==> n == 0
    ensures n == 0 ==> NatToDecimal(n) == "0"
  {
    if n >= 10 {
      NoLeadingZero(n / 10);
      assert NatToDecimal(n)[0] == NatToDecimal(n / 10)[0];
    }
  }

  /**
   * `str(n)` for an integer: a minus sign exactly for a negative one, then
   * its digits, with no leading zero.
   */
  function IntToDecimal(n: int): (s: string)
    ensures |s| > 0 && (s[0] == '-' <==> n < 0)
    ensures n < 0 ==> IsDigits(s[1..])
    ensures n >= 0 ==> IsDigits(s)
    ensures n >= 0 && |s| > 1 ==> s[0] != '0'
    ensures n < 0 ==> |s| > 1 && s[1] != '0'
    ensures s == "0" <==> n == 0
  {
    NoLeadingZero(if n < 0 then -n else n);
    if n < 0 then "-" + NatToDecimal(-n) else NatToDecimal(n)
  }

  /** `int(s)` for the strings `str` prints: an optional minus sign, then digits. */
  function ParseDecimal(s: string): int {
    if |s| > 0 && s[0] == '-' then -DecimalValue(s[1..]) else DecimalValue(s)
  }

  /** Reading back a printed integer gives the integer. */
  lemma DecimalIntRoundTrip(n: int)
    ensures ParseDecimal(IntToDecimal(n)) == n
  {
    var s := IntToDecimal(n);
    if n < 0 {
      assert s[1..] == NatToDecimal(-n);
      DecimalRoundTrip(-n);
    } else {
      assert '0' <= s[0] <= '9';
      DecimalRoundTrip(n);
    }
  }

  /** Different sizes print differently. */
  lemma IntToDecimalInjective(a: int, b: int)
    requires IntToDecimal(a) == IntToDecimal(b)
    ensures a == b
  {
    DecimalIntRoundTrip(a);
    DecimalIntRoundTrip(b);
  }

  // ---------------------------------------------------------------------
  // `sep.join(items)`

  function Join(items: seq<string>, sep: string): string
    decreases |items|
  {
    if items == [] then ""
    else if |items| == 1 then items[0]
    else Join(items[..|items| - 1], sep) + sep + items[|items| - 1]
  }

  /** A join ends with its last item, so it is empty only if that item is empty. */
  lemma JoinNonEmpty(items: seq<string>, sep: string)
    ensures items != [] && items[|items| - 1] != "" ==> Join(items, sep) != ""
  {
    if |items| > 1 && items[|items| - 1] != "" {
      var j := Join(items, sep);
      assert j[|j| - 1] == items[|items| - 1][|items[|items| - 1]| - 1];
    }
  }

  /** The joined text is the items' text plus one separator between neighbours. */
  lemma {:induction false} JoinLength(items: seq<string>, sep: string)
    ensures |Join(items, sep)| == TotalLength(items) + (if items == [] then 0 else (|items| - 1) * |sep|)
    decreases |items|
  {
    if |items| > 1 {
      JoinLength(items[..|items| - 1], sep);
      assert items[..|items| - 1][..|items| - 2] == items[..|items| - 2];
    }
  }

  /** The combined length of the items. */
  function TotalLength(items: seq<string>): nat {
    if items == [] then 0 else TotalLength(items[..|items| - 1]) + |items[|items| - 1]|
  }

  /** One more item goes after the join, behind a separator unless it is the first. */
  lemma JoinSnoc(items: seq<string>, item: string, sep: string)
    ensures Join(items + [item], sep) == if items == [] then item else Join(items, sep) + sep + item
  {
    PrefixOfSnoc(items, item);
  }

  /** Joining two non-empty lists puts one separator between their joins. */
  lemma {:induction false} JoinAppend(a: seq<string>, b: seq<string>, sep: string)
    requires a != [] && b != []
    ensures Join(a + b, sep) == Join(a, sep) + sep + Join(b, sep)
    decreases |b|
  {
    DropLastOfConcat(a, b);
    if |b| > 1 {
      JoinAppend(a, b[..|b| - 1], sep);
    }
  }

  // ---------------------------------------------------------------------
  // Cells

  /** The Edited and Deleted cells: "Yes" for a positive timestamp. */
  function Flag(at: int): (r: string)
    ensures r == "Yes" <==> at > 0
    ensures r == "No" <==> at <= 0
  {
    if at > 0 then "Yes" else "No"
  }

  /** One attachment in the CSV: "name (size bytes)". */
  function CsvAttachment(f: FileInfo): string {
    f.name + " (" + IntToDecimal(f.size) + " bytes)"
  }

  /** The CSV attachments cell: one entry per file, in order; empty exactly when there is no file. */
  function CsvAttachments(files: seq<FileInfo>): (r: string)
    ensures r == "" <==> files == []
  {
    var items := seq(|files|, i requires 0 <= i < |files| => CsvAttachment(files[i]));
    assert files != [] ==> |items[|items| - 1]| > 0;
    JoinNonEmpty(items, ", ");
    Join(items, ", ")
  }

  /** `extract_post_details(post, is_main)` once the author's user name is known. */
  function CsvRow(d: PostDetails, username: string, isMain: bool): (r: seq<Cell>)
    ensures |r| == |Header|
    ensures r[0] == Text(d.id) && r[1] == Text(d.message) && r[2] == Text(username)
    ensures r[3] == Date(d.createAt)
    ensures (r[4] == Text("Yes") <==> d.editAt > 0) && (r[4] == Text("No") <==> d.editAt <= 0)
    ensures (r[5] == Text("Yes") <==> d.deleteAt > 0) && (r[5] == Text("No") <==> d.deleteAt <= 0)
    ensures r[6] == Text(CsvAttachments(d.files))
    ensures r[7] == Text("Original Post") <==> isMain || !d.IsReply()
    ensures !isMain && d.IsReply() ==> r[7] == Text("Reply to " + d.rootId)
  {
    var thread := if d.rootId != "" && !isMain then "Reply to " + d.rootId else "Original Post";
    assert ("Reply to " + d.rootId)[0] == 'R';
    [Text(d.id), Text(d.message), Text(username), Date(d.createAt),
     Text(Flag(d.editAt)), Text(Flag(d.deleteAt)), Text(CsvAttachments(d.files)), Text(thread)]
  }

  /** One more file adds its entry at the end of the CSV cell, after ", ". */
  lemma CsvAttachmentsNext(files: seq<FileInfo>, f: FileInfo)
    ensures CsvAttachments(files + [f]) ==
      if files == [] then CsvAttachment(f) else CsvAttachments(files) + ", " + CsvAttachment(f)
  {
    var items := seq(|files|, i requires 0 <= i < |files| => CsvAttachment(files[i]));
    var more := files + [f];
    assert seq(|more|, i requires 0 <= i < |more| => CsvAttachment(more[i])) == items + [CsvAttachment(f)];
    JoinSnoc(items, CsvAttachment(f), ", ");
  }

  /** One attachment in the HTML report: a link to the file, then its size and type. */
  function HtmlAttachment(f: FileInfo): string {
    "<a href='" + f.downloadUrl + "'>" + f.name + "</a> (" + IntToDecimal(f.size) + " bytes, " + f.mimeType + ")"
  }

  /** The HTML attachments cell: one link per file, in order; empty exactly when there is no file. */
  function HtmlAttachments(files: seq<FileInfo>): (r: string)
    ensures r == "" <==> files == []
  {
    var items := seq(|files|, i requires 0 <= i < |files| => HtmlAttachment(files[i]));
    assert files != [] ==> |items[|items| - 1]| > 0;
    JoinNonEmpty(items, " ");
    Join(items, " ")
  }

  /** One more file adds its link at the end of the HTML cell, after a space. */
  lemma HtmlAttachmentsNext(files: seq<FileInfo>, f: FileInfo)
    ensures HtmlAttachments(files + [f]) ==
      if files == [] then HtmlAttachment(f) else HtmlAttachments(files) + " " + HtmlAttachment(f)
  {
    var items := seq(|files|, i requires 0 <= i < |files| => HtmlAttachment(files[i]));
    var more := files + [f];
    assert seq(|more|, i requires 0 <= i < |more| => HtmlAttachment(more[i])) == items + [HtmlAttachment(f)];
    JoinSnoc(items, HtmlAttachment(f), " ");
  }

  /** One row of the HTML table: its CSS class and its cells. */
  datatype HtmlRow = HtmlRow(style: string, cells: seq<Cell>)

  /** `format_post(post, is_main)` once the author's user name is known. */
  function HtmlRowOf(d: PostDetails, username: string, isMain: bool): (r: HtmlRow)
    ensures (r.style == "table-active" <==> isMain) && (r.style == "table-light" <==> !isMain)
    ensures |r.cells| == |Header|
    // The first six cells are those of the CSV row.
    ensures forall i :: 0 <= i < 6 ==> r.cells[i] == CsvRow(d, username, isMain)[i]
    ensures r.cells[6] == Text(HtmlAttachments(d.files))
    ensures r.cells[7] == Text("") <==> isMain || !d.IsReply()
    ensures !isMain && d.IsReply() ==> r.cells[7] == Text("<span class='small'>" + d.rootId + "</span>")
  {
    var style := if isMain then "table-active" else "table-light";
    var thread := if d.rootId != "" && !isMain then "<span class='small'>" + d.rootId + "</span>" else "";
    assert |"<span class='small'>" + d.rootId + "</span>"| > 0;
    HtmlRow(style,
      [Text(d.id), Text(d.message), Text(username), Date(d.createAt),
       Text(Flag(d.editAt)), Text(Flag(d.deleteAt)), Text(HtmlAttachments(d.files)), Text(thread)])
  }

  /**
   * `is_main` decides only the thread cell (and, in HTML, the row's style):
   * a post written as a reply row differs from its main row exactly when it
   * is a reply, and the difference names its root.
   */
  lemma IsMainOnlyMarksThread(d: PostDetails, username: string)
    ensures CsvRow(d, username, true)[..7] == CsvRow(d, username, false)[..7]
    ensures CsvRow(d, username, true) == CsvRow(d, username, false) <==> !d.IsReply()
    ensures HtmlRowOf(d, username, true).cells[..7] == HtmlRowOf(d, username, false).cells[..7]
    ensures HtmlRowOf(d, username, true).cells[7] == HtmlRowOf(d, username, false).cells[7] <==> !d.IsReply()
    ensures HtmlRowOf(d, username, true).style != HtmlRowOf(d, username, false).style
  {
    var main, reply := CsvRow(d, username, true), CsvRow(d, username, false);
    assert main[7] == Text("Original Post");
    if d.IsReply() {
      assert reply[7] != main[7];
    }
  }

  // ---------------------------------------------------------------------
  // Row order

  /** The rows of replies: each reply together with `is_main=False`. */
  function ReplyRows(rs: seq<PostDetails>): (r: seq<(PostDetails, bool)>)
    ensures |r| == |rs| && forall i :: 0 <= i < |rs| ==> r[i] == (rs[i], false)
  {
    seq(|rs|, i requires 0 <= i < |rs| => (rs[i], false))
  }

  /** The posts of a sequence of rows. */
  function PostsOf(rows: seq<(PostDetails, bool)>): (ps: seq<PostDetails>)
    ensures |ps| == |rows| && forall i :: 0 <= i < |rows| ==> ps[i] == rows[i].0
  {
    seq(|rows|, i requires 0 <= i < |rows| => rows[i].0)
  }

  /**
   * A main post's block of rows: the post itself as a main row, then all its
   * replies as reply rows, ordered by creation time.
   */
  function ThreadRows(p: PostDetails): seq<(PostDetails, bool)> {
    [(p, true)] + ReplyRows(SortByCreateAt(p.replies))
  }

  lemma ThreadRowsOrder(p: PostDetails)
    ensures var r := ThreadRows(p);
      && |r| == 1 + |p.replies|
      && r[0] == (p, true)
      && (forall i :: 1 <= i < |r| ==> !r[i].1)
      && SortedByCreateAt(PostsOf(r[1..]))
      && multiset(PostsOf(r[1..])) == multiset(p.replies)
      && (forall c :: CreatedAt(PostsOf(r[1..]), c) == CreatedAt(p.replies, c))
  {
    var r := ThreadRows(p);
    SortByCreateAtSorts(p.replies);
    assert PostsOf(r[1..]) == SortByCreateAt(p.replies);
    forall c ensures CreatedAt(PostsOf(r[1..]), c) == CreatedAt(p.replies, c) {
      SortIsStable(p.replies, c);
    }
  }

  /** The rows of a whole report, in writing order. */
  function RowPlan(posts: seq<PostDetails>): seq<(PostDetails, bool)>
    decreases |posts|
  {
    if posts == [] then []
    else RowPlan(posts[..|posts| - 1]) + ThreadRows(posts[|posts| - 1])
  }

  lemma {:induction false} RowPlanGrows(posts: seq<PostDetails>, i: nat)
    requires i <= |posts|
    ensures RowPlan(posts[..i]) <= RowPlan(posts)
    decreases |posts|
  {
    if i < |posts| {
      var init := posts[..|posts| - 1];
      SliceOfSlice(posts, i, |posts| - 1);
      RowPlanGrows(init, i);
      PrefixOfLonger(RowPlan(posts[..i]), RowPlan(init), ThreadRows(posts[|posts| - 1]));
    } else {
      WholeSlice(posts);
    }
  }

  /**
   * In the row plan, post `i`'s block of rows starts right after the blocks
   * of the posts before it: the main row, then its sorted replies.
   */
  lemma ThreadRowsInPlace(posts: seq<PostDetails>, i: nat)
    requires i < |posts|
    ensures var (o, n) := (|RowPlan(posts[..i])|, |ThreadRows(posts[i])|);
      o + n <= |RowPlan(posts)| && RowPlan(posts)[o..o + n] == ThreadRows(posts[i])
  {
    RowPlanNext(posts, i);
    RowPlanGrows(posts, i + 1);
    PrefixSlice(RowPlan(posts[..i]), ThreadRows(posts[i]), RowPlan(posts));
  }

  lemma RowPlanNext(posts: seq<PostDetails>, i: nat)
    requires i < |posts|
    ensures RowPlan(posts[..i + 1]) == RowPlan(posts[..i]) + ThreadRows(posts[i])
  {
    SliceOfSlice(posts, i, i + 1);
  }

  /** The posts of the main rows (`is_main=True`), in row order. */
  function MainsOf(plan: seq<(PostDetails, bool)>): seq<PostDetails>
    decreases |plan|
  {
    if plan == [] then []
    else MainsOf(plan[..|plan| - 1]) + (if plan[|plan| - 1].1 then [plan[|plan| - 1].0] else [])
  }

  lemma {:induction false} MainsOfAppend(a: seq<(PostDetails, bool)>, b: seq<(PostDetails, bool)>)
    ensures MainsOf(a + b) == MainsOf(a) + MainsOf(b)
    decreases |b|
  {
    if b != [] {
      DropLastOfConcat(a, b);
      MainsOfAppend(a, b[..|b| - 1]);
    } else {
      assert a + b == a;
    }
  }

  lemma {:induction false} NoMainsAmongReplies(rows: seq<(PostDetails, bool)>)
    requires forall i :: 0 <= i < |rows| ==> !rows[i].1
    ensures MainsOf(rows) == []
    decreases |rows|
  {
    if rows != [] {
      NoMainsAmongReplies(rows[..|rows| - 1]);
    }
  }

  /** A thread's block has one main row: the post itself. */
  lemma ThreadRowsMain(p: PostDetails)
    ensures MainsOf(ThreadRows(p)) == [p]
  {
    var block := ThreadRows(p);
    var replies := block[1..];
    SplitFirst(block);
    assert forall i :: 0 <= i < |replies| ==> !replies[i].1;
    NoMainsAmongReplies(replies);
    MainsOfAppend([(p, true)], replies);
    assert [(p, true)][..0] == [];
  }

  /** The main rows of a report are exactly the posts `get_posts` returned, in that order. */
  lemma {:induction false} MainRowsArePosts(posts: seq<PostDetails>)
    ensures MainsOf(RowPlan(posts)) == posts
    decreases |posts|
  {
    if posts != [] {
      var init, last := posts[..|posts| - 1], posts[|posts| - 1];
      MainRowsArePosts(init);
      MainsOfAppend(RowPlan(init), ThreadRows(last));
      ThreadRowsMain(last);
      SplitLast(posts);
    }
  }

  // ---------------------------------------------------------------------
  // Writing the rows

  datatype Format = Csv | Html

  datatype Line = CsvLine(cells: seq<Cell>) | HtmlLine(row: HtmlRow)

  function LineOf(format: Format, d: PostDetails, username: string, isMain: bool): Line {
    match format
    case Csv => CsvLine(CsvRow(d, username, isMain))
    case Html => HtmlLine(HtmlRowOf(d, username, isMain))
  }

  /**
   * The lines written for the planned rows, each with its author's user
   * name; the first author the server does not know aborts the report.
   */
  function Lines(format: Format, plan: seq<(PostDetails, bool)>, server: Server)
    : (r: Result<seq<Line>, Error>)
    ensures r.Ok? ==> |r.value| == |plan|
    decreases |plan|
  {
    if plan == [] then Ok([])
    else
      var init := plan[..|plan| - 1];
      var row := plan[|plan| - 1];
      var before := Lines(format, init, server);
      if before.Err? then before
      else if row.0.userId !in server.users then Err(UserNotFound(row.0.userId))
      else Ok(before.value + [LineOf(format, row.0, server.users[row.0.userId].username, row.1)])
  }

  /** The report is written exactly when the server knows the author of every planned row. */
  lemma {:induction false} LinesOk(format: Format, plan: seq<(PostDetails, bool)>, server: Server)
    ensures Lines(format, plan, server).Ok? <==> forall i :: 0 <= i < |plan| ==> plan[i].0.userId in server.users
    decreases |plan|
  {
    if plan != [] {
      var init, last := plan[..|plan| - 1], plan[|plan| - 1];
      SplitLast(plan);
      LinesNext(format, init, last, server);
      LinesOk(format, init, server);
      assert forall i :: 0 <= i < |init| ==> init[i] == plan[i];
    }
  }

  /**
   * A report that fails names the author of the first planned row the
   * server does not know: every earlier author is known.
   */
  lemma {:induction false} LinesError(format: Format, plan: seq<(PostDetails, bool)>, server: Server)
    requires Lines(format, plan, server).Err?
    ensures exists i :: 0 <= i < |plan| && FirstUnknown(plan, i, server) &&
                        Lines(format, plan, server).error == UserNotFound(plan[i].0.userId)
    decreases |plan|
  {
    var init, last := plan[..|plan| - 1], plan[|plan| - 1];
    SplitLast(plan);
    LinesNext(format, init, last, server);
    if Lines(format, init, server).Err? {
      LinesError(format, init, server);
      var i :| 0 <= i < |init| && FirstUnknown(init, i, server) &&
               Lines(format, init, server).error == UserNotFound(init[i].0.userId);
      assert forall j :: 0 <= j <= i ==> init[j] == plan[j];
      assert FirstUnknown(plan, i, server);
    } else {
      LinesOk(format, init, server);
      assert forall j :: 0 <= j < |init| ==> init[j] == plan[j];
      assert FirstUnknown(plan, |plan| - 1, server);
    }
  }

  /** Row `i`'s author is unknown to the server, and so is no earlier row's. */
  ghost predicate FirstUnknown(plan: seq<(PostDetails, bool)>, i: nat, server: Server)
    requires i < |plan|
  {
    && plan[i].0.userId !in server.users
    && forall j :: 0 <= j < i ==> plan[j].0.userId in server.users
  }

  /** Line `i` is planned row `i`, written with its author's user name as the server knows it. */
  lemma {:induction false} LinesAt(format: Format, plan: seq<(PostDetails, bool)>, server: Server, i: nat)
    requires Lines(format, plan, server).Ok? && i < |plan|
    ensures plan[i].0.userId in server.users
    ensures Lines(format, plan, server).value[i]
         == LineOf(format, plan[i].0, server.users[plan[i].0.userId].username, plan[i].1)
    decreases |plan|
  {
    var init, last := plan[..|plan| - 1], plan[|plan| - 1];
    SplitLast(plan);
    LinesNext(format, init, last, server);
    var before := Lines(format, init, server).value;
    var line := LineOf(format, last.0, server.users[last.0.userId].username, last.1);
    assert Lines(format, plan, server).value == before + [line];
    if i < |init| {
      LinesAt(format, init, server, i);
      assert plan[i] == init[i];
    }
  }

  lemma LinesNext(format: Format, plan: seq<(PostDetails, bool)>, row: (PostDetails, bool), server: Server)
    ensures Lines(format, plan + [row], server) ==
      if Lines(format, plan, server).Err? then Lines(format, plan, server)
      else if row.0.userId !in server.users then Err(UserNotFound(row.0.userId))
      else Ok(Lines(format, plan, server).value + [LineOf(format, row.0, server.users[row.0.userId].username, row.1)])
  {
    PrefixOfSnoc(plan, row);
  }

  lemma {:induction false} LinesErrorSticks(
    format: Format, a: seq<(PostDetails, bool)>, b: seq<(PostDetails, bool)>, server: Server)
    requires a <= b && Lines(format, a, server).Err?
    ensures Lines(format, b, server) == Lines(format, a, server)
    decreases |b|
  {
    if a != b {
      assert a <= b[..|b| - 1];
      LinesErrorSticks(format, a, b[..|b| - 1], server);
    }
  }

  /** A block written after `plan`: the main row, then the reply rows. */
  lemma ThreadRowsSplit(plan: seq<(PostDetails, bool)>, p: PostDetails)
    ensures plan + ThreadRows(p) == plan + [(p, true)] + ReplyRows(SortByCreateAt(p.replies))
    ensures plan + [(p, true)] <= plan + ThreadRows(p)
  {
    var rest := ReplyRows(SortByCreateAt(p.replies));
    ConcatAssoc(plan, [(p, true)], rest);
    PrefixOfLonger(plan + [(p, true)], plan + [(p, true)], rest);
  }

  // ---------------------------------------------------------------------
  // The user cache across the rows

  /** The author of row `i`. */
  function AuthorOf(rows: seq<(PostDetails, bool)>, i: nat): string
    requires i < |rows|
  {
    rows[i].0.userId
  }

  /** The author of every row in `rows` is cached in `entries`. */
  ghost predicate Known(rows: seq<(PostDetails, bool)>, entries: map<string, User>) {
    forall i :: 0 <= i < |rows| ==> AuthorOf(rows, i) in entries
  }

  /** Every user cached in `e` is cached in `f` with the same record. */
  ghost predicate Keeps(e: map<string, User>, f: map<string, User>) {
    forall k :: k in e ==> k in f && f[k] == e[k]
  }

  lemma KeepsTrans(e: map<string, User>, f: map<string, User>, g: map<string, User>)
    requires Keeps(e, f) && Keeps(f, g)
    ensures Keeps(e, g)
  {
  }

  lemma KnownConcat(a: seq<(PostDetails, bool)>, b: seq<(PostDetails, bool)>, entries: map<string, User>)
    ensures Known(a + b, entries) <==> Known(a, entries) && Known(b, entries)
  {
    if Known(a + b, entries) {
      forall i | 0 <= i < |a| ensures AuthorOf(a, i) in entries {
        assert AuthorOf(a + b, i) == AuthorOf(a, i);
      }
      forall i | 0 <= i < |b| ensures AuthorOf(b, i) in entries {
        assert AuthorOf(a + b, |a| + i) == AuthorOf(b, i);
      }
    }
    if Known(a, entries) && Known(b, entries) {
      forall i | 0 <= i < |a + b| ensures AuthorOf(a + b, i) in entries {
        if i < |a| {
          assert AuthorOf(a + b, i) == AuthorOf(a, i);
        } else {
          assert AuthorOf(a + b, i) == AuthorOf(b, i - |a|);
        }
      }
    }
  }

  lemma KnownPrefix(a: seq<(PostDetails, bool)>, b: seq<(PostDetails, bool)>, entries: map<string, User>)
    requires a <= b && Known(b, entries)
    ensures Known(a, entries)
  {
    forall i | 0 <= i < |a| ensures AuthorOf(a, i) in entries {
      assert AuthorOf(a, i) == AuthorOf(b, i);
    }
  }

  lemma KnownGrows(rows: seq<(PostDetails, bool)>, e: map<string, User>, f: map<string, User>)
    requires Known(rows, e) && Keeps(e, f)
    ensures Known(rows, f)
  {
    forall i | 0 <= i < |rows| ensures AuthorOf(rows, i) in f {
      assert AuthorOf(rows, i) in e;
    }
  }

  lemma KnownOne(row: (PostDetails, bool), entries: map<string, User>)
    ensures Known([row], entries) <==> row.0.userId in entries
  {
    assert AuthorOf([row], 0) == row.0.userId;
  }

  /** The author of reply `j` is among the authors of the reply rows. */
  lemma KnownReply(replies: seq<PostDetails>, j: nat, entries: map<string, User>)
    requires j < |replies| && Known(ReplyRows(replies), entries)
    ensures replies[j].userId in entries
  {
    assert AuthorOf(ReplyRows(replies), j) == replies[j].userId;
  }

  /** One more row whose author is cached, after rows whose authors were cached. */
  lemma KnownNext(rows: seq<(PostDetails, bool)>, more: seq<(PostDetails, bool)>,
                  before: map<string, User>, after: map<string, User>)
    requires Known(rows, before) && Keeps(before, after) && Known(more, after)
    ensures Known(rows + more, after)
  {
    KnownGrows(rows, before, after);
    KnownConcat(rows, more, after);
  }

  /** The reply rows of the first `j + 1` replies are those of the first `j` and one more. */
  lemma ReplyRowsSnoc(replies: seq<PostDetails>, j: nat)
    requires j < |replies|
    ensures ReplyRows(replies[..j + 1]) == ReplyRows(replies[..j]) + [(replies[j], false)]
  {
    var prefix := ReplyRows(replies[..j + 1]);
    SliceNext(prefix, j);
    assert prefix[..j] == ReplyRows(replies[..j]);
  }

  /**
   * One row (`extract_post_details` or `format_post`): look the author up
   * through the cache, then lay out the cells. `done` holds the lines
   * already written for the rows `plan`.
   */
  method RenderRow(cache: UserCache, format: Format, row: (PostDetails, bool), server: Server,
                   done: seq<Line>, ghost plan: seq<(PostDetails, bool)>)
    returns (r: Result<seq<Line>, Error>)
    requires cache.Agrees(server)
    requires Lines(format, plan, server) == Ok(done)
    modifies cache
    ensures cache.Agrees(server)
    ensures r == Lines(format, plan + [row], server)
    // Cached users stay cached; a written row's author is now cached; and a
    // row whose author was cached already costs no request.
    ensures Keeps(old(cache.entries), cache.entries)
    ensures r.Ok? ==> row.0.userId in cache.entries
    ensures row.0.userId in old(cache.entries) ==>
      cache.entries == old(cache.entries) && cache.requests == old(cache.requests)
  {
    var user := cache.GetUser(row.0.userId, server);
    LinesNext(format, plan, row, server);
    if user.Err? {
      return Err(user.error);
    }
    r := Ok(done + [LineOf(format, row.0, user.value.username, row.1)]);
  }

  /** The reply rows of the first `j + 1` replies extend those of the first `j` by one row. */
  lemma ReplyRowsNext(plan: seq<(PostDetails, bool)>, replies: seq<PostDetails>, j: nat)
    requires j < |replies|
    ensures plan + ReplyRows(replies[..j + 1]) == plan + ReplyRows(replies[..j]) + [(replies[j], false)]
    ensures plan + ReplyRows(replies[..j + 1]) <= plan + ReplyRows(replies)
  {
    var prefix := ReplyRows(replies[..j + 1]);
    SliceNext(prefix, j);
    assert prefix[..j] == ReplyRows(replies[..j]);
    assert ReplyRows(replies)[..j + 1] == prefix;
    PrefixExtends(plan, ReplyRows(replies), j + 1);
  }

  /** The authors of the first `j + 1` replies are cached once the reply `j`'s author is. */
  lemma KnownReplyNext(replies: seq<PostDetails>, j: nat, before: map<string, User>, after: map<string, User>)
    requires j < |replies|
    requires Known(ReplyRows(replies[..j]), before) && Keeps(before, after) && replies[j].userId in after
    ensures Known(ReplyRows(replies[..j + 1]), after)
  {
    ReplyRowsSnoc(replies, j);
    KnownOne((replies[j], false), after);
    KnownNext(ReplyRows(replies[..j]), [(replies[j], false)], before, after);
  }

  /** The reply loop of lines 170-171 and 192-193: one reply row per reply, in the given order. */
  method RenderReplies(cache: UserCache, format: Format, replies: seq<PostDetails>, server: Server,
                       done: seq<Line>, ghost plan: seq<(PostDetails, bool)>)
    returns (r: Result<seq<Line>, Error>)
    requires cache.Agrees(server)
    requires Lines(format, plan, server) == Ok(done)
    modifies cache
    ensures cache.Agrees(server)
    ensures r == Lines(format, plan + ReplyRows(replies), server)
    ensures Keeps(old(cache.entries), cache.entries)
    ensures r.Ok? ==> Known(ReplyRows(replies), cache.entries)
    ensures Known(ReplyRows(replies), old(cache.entries)) ==> cache.requests == old(cache.requests)
  {
    ghost var entries0, requests0 := cache.entries, cache.requests;
    var lines := done;
    var j := 0;
    assert plan + ReplyRows(replies[..0]) == plan;
    while j < |replies|
      invariant j <= |replies|
      invariant cache.Agrees(server)
      invariant Lines(format, plan + ReplyRows(replies[..j]), server) == Ok(lines)
      invariant Keeps(entries0, cache.entries)
      invariant Known(ReplyRows(replies[..j]), cache.entries)
      invariant Known(ReplyRows(replies), entries0) ==> cache.requests == requests0
    {
      ghost var rows := plan + ReplyRows(replies[..j]);
      ghost var before := cache.entries;
      assert Known(ReplyRows(replies), entries0) ==> replies[j].userId in cache.entries by {
        if Known(ReplyRows(replies), entries0) {
          KnownReply(replies, j, entries0);
        }
      }
      var next := RenderRow(cache, format, (replies[j], false), server, lines, rows);
      KeepsTrans(entries0, before, cache.entries);
      ReplyRowsNext(plan, replies, j);
      if next.Err? {
        r := next;
        LinesErrorSticks(format, rows + [(replies[j], false)], plan + ReplyRows(replies), server);
        return;
      }
      KnownReplyNext(replies, j, before, cache.entries);
      lines := next.value;
      j := j + 1;
    }
    WholeSlice(replies);
    r := Ok(lines);
  }

  /**
   * One post's block of rows in `generate_csv` (lines 190-193) and
   * `generate_html` (lines 168-171): the main row, then one row per reply
   * sorted by creation time.
   */
  method RenderThread(cache: UserCache, format: Format, post: PostDetails, server: Server,
                      done: seq<Line>, ghost plan: seq<(PostDetails, bool)>)
    returns (r: Result<seq<Line>, Error>)
    requires cache.Agrees(server)
    requires Lines(format, plan, server) == Ok(done)
    modifies cache
    ensures cache.Agrees(server)
    ensures r == Lines(format, plan + ThreadRows(post), server)
    ensures Keeps(old(cache.entries), cache.entries)
    ensures r.Ok? ==> Known(ThreadRows(post), cache.entries)
    ensures Known(ThreadRows(post), old(cache.entries)) ==>
      cache.requests == old(cache.requests)
  {
    var replies := SortByCreateAt(post.replies);
    KnownConcat([(post, true)], ReplyRows(replies), old(cache.entries));
    KnownOne((post, true), old(cache.entries));
    ThreadRowsSplit(plan, post);
    var next := RenderRow(cache, format, (post, true), server, done, plan);
    if next.Err? {
      r := next;
      LinesErrorSticks(format, plan + [(post, true)], plan + ThreadRows(post), server);
      return;
    }
    ghost var afterMain := cache.entries;
    r := RenderReplies(cache, format, replies, server, next.value, plan + [(post, true)]);
    KeepsTrans(old(cache.entries), afterMain, cache.entries);
    if r.Ok? {
      KnownOne((post, true), afterMain);
      KnownNext([(post, true)], ReplyRows(replies), afterMain, cache.entries);
    }
  }

  /** Every row of `generate_csv` and `generate_html`, in the order they are written. */
  method Render(cache: UserCache, format: Format, posts: seq<PostDetails>, server: Server)
    returns (r: Result<seq<Line>, Error>)
    requires cache.Agrees(server)
    modifies cache
    ensures cache.Agrees(server)
    ensures r == Lines(format, RowPlan(posts), server)
    // Cached users stay cached, every author of a written report is cached
    // afterwards, and a report whose authors were all cached sends no request:
    // so the CSV pass after a complete HTML pass (lines 213-214) sends none.
    ensures Keeps(old(cache.entries), cache.entries)
    ensures r.Ok? ==> Known(RowPlan(posts), cache.entries)
    ensures Known(RowPlan(posts), old(cache.entries)) ==>
      cache.requests == old(cache.requests)
  {
    ghost var entries0, requests0 := cache.entries, cache.requests;
    ghost var allKnown := Known(RowPlan(posts), entries0);
    var lines: seq<Line> := [];
    var i := 0;
    while i < |posts|
      invariant i <= |posts|
      invariant cache.Agrees(server)
      invariant Lines(format, RowPlan(posts[..i]), server) == Ok(lines)
      invariant Keeps(entries0, cache.entries)
      invariant Known(RowPlan(posts[..i]), cache.entries)
      invariant allKnown ==> cache.requests == requests0
    {
      RowPlanNext(posts, i);
      RowPlanGrows(posts, i + 1);
      if allKnown {
        KnownPrefix(RowPlan(posts[..i + 1]), RowPlan(posts), entries0);
        KnownConcat(RowPlan(posts[..i]), ThreadRows(posts[i]), entries0);
        KnownGrows(ThreadRows(posts[i]), entries0, cache.entries);
      }
      ghost var before := cache.entries;
      var next := RenderThread(cache, format, posts[i], server, lines, RowPlan(posts[..i]));
      if next.Err? {
        r := next;
        LinesErrorSticks(format, RowPlan(posts[..i + 1]), RowPlan(posts), server);
        return;
      }
      KnownNext(RowPlan(posts[..i]), ThreadRows(posts[i]), before, cache.entries);
      KeepsTrans(entries0, before, cache.entries);
      lines := next.value;
      i := i + 1;
    }
    WholeSlice(posts);
    r := Ok(lines);
  }

  /**
   * The report steps of `main` (lines 213-214): the HTML report, then the
   * CSV report through the same cache. The first unknown author aborts
   * both; once the HTML report is written the CSV report cannot fail, and
   * it sends no request of its own.
   */
  method Export(cache: UserCache, posts: seq<PostDetails>, server: Server)
    returns (r: Result<(seq<Line>, seq<Line>), Error>)
    requires cache.Agrees(server)
    modifies cache
    ensures cache.Agrees(server)
    ensures Keeps(old(cache.entries), cache.entries)
    ensures r.Ok? <==> Lines(Html, RowPlan(posts), server).Ok?
    ensures r.Err? ==> Lines(Html, RowPlan(posts), server) == Err(r.error)
    ensures r.Ok? ==> Lines(Html, RowPlan(posts), server) == Ok(r.value.0)
    ensures r.Ok? ==> Lines(Csv, RowPlan(posts), server) == Ok(r.value.1)
    ensures r.Ok? ==> Known(RowPlan(posts), cache.entries)
    ensures Known(RowPlan(posts), old(cache.entries)) ==>
      cache.requests == old(cache.requests)
  {
    var html := Render(cache, Html, posts, server);
    if html.Err? {
      return Err(html.error);
    }
    ghost var afterHtml := cache.entries;
    ghost var requestsAfterHtml := cache.requests;
    LinesOk(Html, RowPlan(posts), server);
    LinesOk(Csv, RowPlan(posts), server);
    var csv := Render(cache, Csv, posts, server);
    // Every author was cached by the HTML pass, so the CSV pass asks the server nothing.
    assert cache.requests == requestsAfterHtml;
    KeepsTrans(old(cache.entries), afterHtml, cache.entries);
    r := Ok((html.value, csv.value));
  }
}
