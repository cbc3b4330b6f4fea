/**
 * The thread fold of main.py: `add_post` (lines 114-136) folds each
 * normalised post into the dictionary `all_posts`, keyed by the id of the
 * thread's main post.
 *
 * A Python dictionary remembers the order in which its keys were first
 * inserted, and assigning to a key that is already present keeps that key
 * where it is. `Table` is that dictionary as a value: the keys in insertion
 * order beside the map from key to entry. `PostIndex` is the dictionary as
 * the mutable object that `add_post` updates in place.
 */
module Threads {
  import opened Wrappers
  import opened Posts

  /**
   * An entry of `all_posts`: either a full post record (whose `replies`
   * field holds the thread's replies), or the `{'replies': [...]}` stub that
   * a reply creates when its main post has not been seen yet.
   */
  datatype Entry = Full(post: PostDetails) | Placeholder(replies: seq<PostDetails>) {

    /** The entry's `replies` list. */
    function Replies(): seq<PostDetails> {
      match this
      case Full(p) => p.replies
      case Placeholder(rs) => rs
    }

    /** The entry after `entry['replies'].append(reply)`. */
    function WithReply(reply: PostDetails): (e: Entry)
      ensures e.Replies() == Replies() + [reply]
      ensures e.Full? == Full? && (Full? ==> e.post.(replies := []) == post.(replies := []))
    {
      match this
      case Full(p) => Full(p.(replies := p.replies + [reply]))
      case Placeholder(rs) => Placeholder(rs + [reply])
    }
  }

  /** A Python dictionary from thread key to entry, keys in insertion order. */
  datatype Table = Table(order: seq<string>, entries: map<string, Entry>)

  const EmptyTable := Table([], map[])

  ghost predicate NoDuplicates(s: seq<string>) {
    forall i, j :: 0 <= i < j < |s| ==> s[i] != s[j]
  }

  /** The insertion order lists every key exactly once. */
  ghost predicate WellFormed(t: Table) {
    && NoDuplicates(t.order)
    && forall k :: k in t.entries <==> k in t.order
  }

  /** `dict.values()`: the entries in key insertion order. */
  function Values(t: Table): (vs: seq<Entry>)
    requires WellFormed(t)
    ensures |vs| == |t.order|
  {
    seq(|t.order|, i requires 0 <= i < |t.order| => t.entries[t.order[i]])
  }

  /** `d[k] = e`: a new key goes to the end, an existing key keeps its place. */
  function Put(t: Table, k: string, e: Entry): (r: Table)
    ensures WellFormed(t) ==> WellFormed(r)
  {
    var r := Table(if k in t.entries then t.order else t.order + [k], t.entries[k := e]);
    assert WellFormed(t) && k !in t.entries ==> NoDuplicates(r.order) by {
      if WellFormed(t) && k !in t.entries {
        forall i, j | 0 <= i < j < |r.order| ensures r.order[i] != r.order[j] {
          if j == |t.order| { assert t.order[i] in t.order; }
        }
      }
    }
    r
  }

  /** The key under which `add_post` files a post: its root's id for a reply, its own id otherwise. */
  function ThreadKey(d: PostDetails): string {
    if d.IsReply() then d.rootId else d.id
  }

  /**
   * `add_post` after normalisation. A reply is appended to its root's entry,
   * or starts a placeholder for it; a main post replaces whatever its key
   * held. `all_posts[id].update(post_details)` leaves the entry equal to
   * `post_details` whether the key held a placeholder or an earlier copy,
   * because `post_details` carries every key of either; in particular its
   * `'replies': []` replaces the replies collected so far.
   */
  function AddDetails(t: Table, d: PostDetails): (r: Table)
    // Only the thread key can change; every other entry stays as it was.
    ensures r.entries.Keys == t.entries.Keys + {ThreadKey(d)}
    ensures forall k :: k in t.entries && k != ThreadKey(d) ==> r.entries[k] == t.entries[k]
    // A key already present keeps its position; a new one is added last.
    ensures r.order == if ThreadKey(d) in t.entries then t.order else t.order + [ThreadKey(d)]
    // A reply goes at the end of its root's replies, leaving the rest of the entry alone ...
    ensures d.IsReply() && d.rootId in t.entries ==>
      var (before, after) := (t.entries[d.rootId], r.entries[d.rootId]);
      && after.Replies() == before.Replies() + [d]
      && after.Full? == before.Full?
      && (after.Full? ==> after.post.(replies := []) == before.post.(replies := []))
    // ... or into a new placeholder holding exactly that reply.
    ensures d.IsReply() && d.rootId !in t.entries ==> r.entries[d.rootId] == Placeholder([d])
    // A main post is stored as it is, earlier replies under its key discarded.
    ensures !d.IsReply() ==> r.entries[d.id] == Full(d)
    ensures WellFormed(t) ==> WellFormed(r)
  {
    if d.IsReply() then
      if d.rootId in t.entries then Put(t, d.rootId, t.entries[d.rootId].WithReply(d))
      else Put(t, d.rootId, Placeholder([d]))
    else
      Put(t, d.id, Full(d))
  }

  /** `add_post(all_posts, post)` on the table value: normalise, then fold. */
  function AddRaw(server: Server, t: Table, post: RawPost): (r: Result<Table, Error>)
    // It fails exactly when one of the post's files is missing, with that file's error ...
    ensures r.Ok? <==> forall i :: 0 <= i < |FileIds(post)| ==> FileIds(post)[i] in server.files
    ensures r.Err? ==> r.error == FetchFiles(server, FileIds(post)).error
    // ... and otherwise folds the normalised record into the table.
    ensures r.Ok? ==> r.value == AddDetails(t, Normalize(server, post).value)
    ensures r.Ok? && WellFormed(t) ==> WellFormed(r.value)
  {
    var d :- Normalize(server, post);
    Ok(AddDetails(t, d))
  }

  /**
   * The shape of a thread entry filed under key `k`: a full entry is the main
   * post with id `k`, and every reply it holds names `k` as its root and has
   * no replies of its own.
   */
  ghost predicate EntryCoherent(k: string, e: Entry) {
    && (e.Full? ==> e.post.id == k && !e.post.IsReply())
    && forall i :: 0 <= i < |e.Replies()| ==> e.Replies()[i].rootId == k && e.Replies()[i].replies == []
  }

  ghost predicate Coherent(t: Table) {
    forall k :: k in t.entries ==> EntryCoherent(k, t.entries[k])
  }

  /** Folding a freshly normalised post (one without replies) keeps every entry coherent. */
  lemma AddDetailsCoherent(t: Table, d: PostDetails)
    requires Coherent(t) && d.replies == []
    ensures Coherent(AddDetails(t, d))
  {
    var r := AddDetails(t, d);
    forall k | k in r.entries ensures EntryCoherent(k, r.entries[k]) {
      if k == ThreadKey(d) && d.IsReply() && k in t.entries {
        var (before, after) := (t.entries[k], r.entries[k]);
        assert EntryCoherent(k, before);
        forall i | 0 <= i < |after.Replies()|
          ensures after.Replies()[i].rootId == k && after.Replies()[i].replies == []
        {
          if i < |before.Replies()| { assert after.Replies()[i] == before.Replies()[i]; }
        }
      }
    }
  }

  /**
   * The fold depends on arrival order. A main post that arrives before its
   * reply ends up holding it ...
   */
  lemma RootThenReply(t: Table, root: PostDetails, reply: PostDetails)
    requires !root.IsReply() && root.replies == [] && reply.rootId == root.id && root.id != ""
    ensures AddDetails(AddDetails(t, root), reply).entries[root.id] == Full(root.(replies := [reply]))
  {
  }

  /** ... but when the reply arrives first, the main post's `update` discards it. */
  lemma ReplyThenRootDropsReply(t: Table, root: PostDetails, reply: PostDetails)
    requires !root.IsReply() && root.replies == [] && reply.rootId == root.id && root.id != ""
    ensures AddDetails(AddDetails(t, reply), root).entries[root.id] == Full(root)
    ensures AddDetails(AddDetails(t, reply), root).entries[root.id].Replies() == []
  {
  }

  /** A main post read again after its reply replaces the entry, so the reply is lost. */
  lemma RereadRootDropsReplies(t: Table, root: PostDetails, reply: PostDetails)
    requires !root.IsReply() && root.replies == [] && reply.rootId == root.id && root.id != ""
    ensures AddDetails(AddDetails(AddDetails(t, root), reply), root).entries[root.id] == Full(root)
    ensures AddDetails(AddDetails(AddDetails(t, root), reply), root).entries[root.id].Replies() == []
  {
  }

  /** `all_posts`, the dictionary that `add_post` updates in place. */
  class PostIndex {
    var order: seq<string>
    var entries: map<string, Entry>

    function View(): Table
      reads this
    {
      Table(order, entries)
    }

    /** `all_posts = {}` */
    constructor ()
      ensures View() == EmptyTable
    {
      order := [];
      entries := map[];
    }

    /**
     * `add_post(all_posts, post)`. Normalising the post fetches its files;
     * when one cannot be fetched the call raises before anything is stored.
     */
    method AddPost(post: RawPost, server: Server) returns (outcome: Result<(), Error>)
      modifies this
      ensures AddRaw(server, old(View()), post) == if outcome.Ok? then Ok(View()) else Err(outcome.error)
      ensures outcome.Err? ==> View() == old(View())
    {
      var normalized := Normalize(server, post);
      if normalized.Err? {
        return Err(normalized.error);
      }
      var details := normalized.value;
      if details.rootId != "" {
        if details.rootId in entries {
          entries := entries[details.rootId := entries[details.rootId].WithReply(details)];
        } else {
          entries := entries[details.rootId := Placeholder([details])];
          order := order + [details.rootId];
        }
      } else {
        if post.id in entries {
          entries := entries[post.id := Full(details)];
        } else {
          entries := entries[post.id := Full(details)];
          order := order + [post.id];
        }
      }
      return Ok(());
    }
  }
}
