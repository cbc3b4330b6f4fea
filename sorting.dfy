/**
 * Python's `sorted(xs, key=lambda x: x['create_at'])` on normalised posts
 * (main.py lines 111, 170 and 192): a stable sort by creation time.
 * Modelled as an insertion sort, with the three facts that pin Python's
 * result down: it is ordered by `createAt`, a permutation of the input, and
 * posts with the same `createAt` keep their input order.
 */
module Sorting {
  import opened Posts

  ghost predicate SortedByCreateAt(s: seq<PostDetails>) {
    forall i, j :: 0 <= i < j < |s| ==> s[i].createAt <= s[j].createAt
  }

  /** The posts of `s` created at instant `t`, in the order of `s`. */
  function CreatedAt(s: seq<PostDetails>, t: int): seq<PostDetails> {
    if s == [] then []
    else (if s[0].createAt == t then [s[0]] else []) + CreatedAt(s[1..], t)
  }

  /** No post of `s` is older than `b`. */
  ghost predicate NotOlderThan(s: seq<PostDetails>, b: int) {
    forall i :: 0 <= i < |s| ==> b <= s[i].createAt
  }

  /** Insert `x` before the first post of `s` that is not older than `x`. */
  function Insert(x: PostDetails, s: seq<PostDetails>): (r: seq<PostDetails>)
    ensures |r| == |s| + 1
  {
    if s == [] then [x]
    else if x.createAt <= s[0].createAt then [x] + s
    else [s[0]] + Insert(x, s[1..])
  }

  lemma {:induction false} InsertPermutes(x: PostDetails, s: seq<PostDetails>)
    ensures multiset(Insert(x, s)) == multiset(s) + multiset{x}
  {
    if s != [] {
      assert s == [s[0]] + s[1..];
      if x.createAt > s[0].createAt {
        InsertPermutes(x, s[1..]);
      }
    }
  }

  lemma {:induction false} InsertBounded(x: PostDetails, s: seq<PostDetails>, b: int)
    requires b <= x.createAt && NotOlderThan(s, b)
    ensures NotOlderThan(Insert(x, s), b)
  {
    if s != [] && x.createAt > s[0].createAt {
      InsertBounded(x, s[1..], b);
      var r := Insert(x, s);
      assert r == [s[0]] + Insert(x, s[1..]);
      forall i | 0 <= i < |r| ensures b <= r[i].createAt {
        if i > 0 { assert r[i] == Insert(x, s[1..])[i - 1]; }
      }
    }
  }

  /** A post prepended to an ordered sequence of posts no older than it stays ordered. */
  lemma ConsSorted(y: PostDetails, s: seq<PostDetails>)
    requires SortedByCreateAt(s) && NotOlderThan(s, y.createAt)
    ensures SortedByCreateAt([y] + s)
  {
    var r := [y] + s;
    forall i, j | 0 <= i < j < |r| ensures r[i].createAt <= r[j].createAt {
      assert r[j] == s[j - 1];
      if i > 0 { assert r[i] == s[i - 1]; }
    }
  }

  lemma {:induction false} InsertSorted(x: PostDetails, s: seq<PostDetails>)
    requires SortedByCreateAt(s)
    ensures SortedByCreateAt(Insert(x, s))
  {
    if s == [] {
    } else if x.createAt <= s[0].createAt {
      ConsSorted(x, s);
    } else {
      var tail := s[1..];
      assert SortedByCreateAt(tail) by {
        forall i, j | 0 <= i < j < |tail| ensures tail[i].createAt <= tail[j].createAt {
          assert tail[i] == s[i + 1] && tail[j] == s[j + 1];
        }
      }
      InsertSorted(x, tail);
      assert NotOlderThan(tail, s[0].createAt) by {
        forall i | 0 <= i < |tail| ensures s[0].createAt <= tail[i].createAt {
          assert tail[i] == s[i + 1];
        }
      }
      InsertBounded(x, tail, s[0].createAt);
      ConsSorted(s[0], Insert(x, tail));
    }
  }

  /** The insertion sort of `s` by creation time. */
  function SortByCreateAt(s: seq<PostDetails>): (r: seq<PostDetails>)
    ensures |r| == |s|
  {
    if s == [] then [] else Insert(s[0], SortByCreateAt(s[1..]))
  }

  /** The sorted sequence is ordered by creation time and a permutation of the input. */
  lemma {:induction false} SortByCreateAtSorts(s: seq<PostDetails>)
    ensures multiset(SortByCreateAt(s)) == multiset(s)
    ensures SortedByCreateAt(SortByCreateAt(s))
  {
    if s != [] {
      var rest := SortByCreateAt(s[1..]);
      SortByCreateAtSorts(s[1..]);
      InsertPermutes(s[0], rest);
      InsertSorted(s[0], rest);
      assert s == [s[0]] + s[1..];
    }
  }

  lemma {:induction false} InsertKeepsOrderOfTies(x: PostDetails, s: seq<PostDetails>, t: int)
    ensures CreatedAt(Insert(x, s), t) == (if x.createAt == t then [x] else []) + CreatedAt(s, t)
  {
    if s != [] && x.createAt > s[0].createAt {
      var tail := Insert(x, s[1..]);
      InsertKeepsOrderOfTies(x, s[1..], t);
      assert ([s[0]] + tail)[1..] == tail;
      assert s[0].createAt == t ==> x.createAt != t;
    }
  }

  /** The sort is stable: among posts created at the same instant the input order survives. */
  lemma {:induction false} SortIsStable(s: seq<PostDetails>, t: int)
    ensures CreatedAt(SortByCreateAt(s), t) == CreatedAt(s, t)
  {
    if s != [] {
      SortIsStable(s[1..], t);
      InsertKeepsOrderOfTies(s[0], SortByCreateAt(s[1..]), t);
    }
  }

  /** Every post of the sorted sequence comes from the input, and the other way round. */
  lemma SortKeepsMembers(s: seq<PostDetails>, x: PostDetails)
    ensures x in SortByCreateAt(s) <==> x in s
  {
    SortByCreateAtSorts(s);
    assert x in SortByCreateAt(s) <==> x in multiset(SortByCreateAt(s));
    assert x in s <==> x in multiset(s);
  }
}
