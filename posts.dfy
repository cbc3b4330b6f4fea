/**
 * The records the exporter reads from the chat server and the normalised
 * post record it builds from each of them (`add_post`, lines 115-126, and
 * `get_file_info`, lines 64-75, of main.py).
 *
 * The server itself is a value: its base URL, its users and files keyed by
 * id, and the channel's pages of posts. A lookup of an id the server does not
 * hold stands for an HTTP error response, which `raise_for_status` turns into
 * an exception that ends the export; the model returns `Err` instead.
 */
module Posts {
  import opened Wrappers

  /** A file's metadata as the server returns it from `/files/{id}/info`. */
  datatype RawFile = RawFile(
    id: string,
    name: string,
    size: int,
    mimeType: string,
    extension: string,
    userId: string,
    createAt: int)

  /** The projection of a file's metadata that the exporter keeps. */
  datatype FileInfo = FileInfo(
    id: string,
    name: string,
    size: int,
    mimeType: string,
    downloadUrl: string)

  /**
   * A post as one page of `/channels/{id}/posts` lists it. The keys that the
   * exporter reads with `post.get(key, default)` may be absent.
   */
  datatype RawPost = RawPost(
    id: string,
    message: string,
    userId: string,
    createAt: int,
    editAt: Option<int>,
    deleteAt: Option<int>,
    rootId: Option<string>,
    parentId: Option<string>,
    fileIds: Option<seq<string>>)

  /**
   * The normalised post (`post_details`). Timestamps are milliseconds since
   * the epoch, 0 meaning "never"; `rootId` is empty for a main post.
   */
  datatype PostDetails = PostDetails(
    id: string,
    message: string,
    userId: string,
    createAt: int,
    editAt: int,
    deleteAt: int,
    rootId: string,
    parentId: string,
    files: seq<FileInfo>,
    replies: seq<PostDetails>)
  {
    /** A post with a non-empty root id is a reply (the truth test of line 127). */
    predicate IsReply() {
      rootId != ""
    }
  }

  /** The part of a user record the exports use. */
  datatype User = User(id: string, username: string)

  /** The remote chat server, as far as one channel export sees it. */
  datatype Server = Server(
    baseUrl: string,
    users: map<string, User>,
    files: map<string, RawFile>,
    pages: seq<seq<RawPost>>)

  /** Why an export stops. */
  datatype Error =
    | FileNotFound(fileId: string)      // `/files/{id}/info` answered with an error status
    | UserNotFound(userId: string)      // `/users/{id}` answered with an error status
    | NoTimestampBounds                 // the date filter ran without its bounds being set
    | MissingCreateAt                   // the sort met an entry without `create_at`

  /** The URL the exports link a file to. */
  function DownloadUrl(baseUrl: string, fileId: string): string {
    baseUrl + "/files/" + fileId
  }

  /** Distinct files get distinct download URLs on the same server. */
  lemma DownloadUrlInjective(baseUrl: string, a: string, b: string)
    requires DownloadUrl(baseUrl, a) == DownloadUrl(baseUrl, b)
    ensures a == b
  {
    var n := |baseUrl + "/files/"|;
    assert a == DownloadUrl(baseUrl, a)[n..];
    assert b == DownloadUrl(baseUrl, b)[n..];
  }

  /** `get_file_info`: fetch one file's metadata and keep its projection. */
  function FileInfoOf(server: Server, fileId: string): (r: Result<FileInfo, Error>)
    ensures r.Ok? <==> fileId in server.files
    ensures r.Err? ==> r.error == FileNotFound(fileId)
    ensures r.Ok? ==>
      var raw := server.files[fileId];
      && r.value.id == raw.id
      && r.value.name == raw.name
      && r.value.size == raw.size
      && r.value.mimeType == raw.mimeType
      && r.value.downloadUrl == DownloadUrl(server.baseUrl, fileId)
  {
    if fileId in server.files then
      var raw := server.files[fileId];
      Ok(FileInfo(raw.id, raw.name, raw.size, raw.mimeType, DownloadUrl(server.baseUrl, fileId)))
    else
      Err(FileNotFound(fileId))
  }

  /**
   * The list comprehension of line 124: the file ids are fetched in order and
   * the first one the server does not hold aborts the comprehension.
   */
  function FetchFiles(server: Server, ids: seq<string>): (r: Result<seq<FileInfo>, Error>)
    ensures r.Ok? <==> forall i :: 0 <= i < |ids| ==> ids[i] in server.files
    ensures r.Ok? ==>
      && |r.value| == |ids|
      && forall i :: 0 <= i < |ids| ==> Ok(r.value[i]) == FileInfoOf(server, ids[i])
    ensures r.Err? ==>
      exists i :: && 0 <= i < |ids|
                  && ids[i] !in server.files
                  && (forall j :: 0 <= j < i ==> ids[j] in server.files)
                  && r.error == FileNotFound(ids[i])
  {
    if ids == [] then
      Ok([])
    else
      var first :- FileInfoOf(server, ids[0]);
      var rest :- FetchFiles(server, ids[1..]);
      assert forall i :: 1 <= i < |ids| ==> ids[i] == ids[1..][i - 1];
      Ok([first] + rest)
  }

  /** The `file_ids` of a post, or none when the key is absent. */
  function FileIds(post: RawPost): seq<string> {
    post.fileIds.GetOr([])
  }

  /**
   * The `post_details` record of lines 115-126: absent optional keys take
   * their defaults, the files are fetched in `file_ids` order, and the
   * record starts with no replies.
   */
  function Normalize(server: Server, post: RawPost): (r: Result<PostDetails, Error>)
    ensures r.Ok? <==> forall i :: 0 <= i < |FileIds(post)| ==> FileIds(post)[i] in server.files
    ensures r.Err? ==> r.error == FetchFiles(server, FileIds(post)).error
    ensures r.Ok? ==>
      var d := r.value;
      && d.id == post.id
      && d.message == post.message
      && d.userId == post.userId
      && d.createAt == post.createAt
      && d.editAt == (if post.editAt.Some? then post.editAt.value else 0)
      && d.deleteAt == (if post.deleteAt.Some? then post.deleteAt.value else 0)
      && d.rootId == (if post.rootId.Some? then post.rootId.value else "")
      && d.parentId == (if post.parentId.Some? then post.parentId.value else "")
      && d.files == FetchFiles(server, FileIds(post)).value
      && |d.files| == |FileIds(post)|
      && (forall i :: 0 <= i < |d.files| ==>
            d.files[i].downloadUrl == DownloadUrl(server.baseUrl, FileIds(post)[i]))
      && d.replies == []
  {
    var files :- FetchFiles(server, FileIds(post));
    Ok(PostDetails(
      post.id, post.message, post.userId, post.createAt,
      post.editAt.GetOr(0), post.deleteAt.GetOr(0),
      post.rootId.GetOr(""), post.parentId.GetOr(""),
      files, []))
  }
}
