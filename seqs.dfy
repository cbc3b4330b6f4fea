/**
 * Small facts about slicing and concatenating sequences, stated for any
 * element type so that they are proved where nothing else is in scope.
 */
module Seqs {
  lemma WholeSlice<T>(s: seq<T>)
    ensures s[..|s|] == s
  {
  }

  lemma SliceOfSlice<T>(s: seq<T>, i: nat, j: nat)
    requires i <= j <= |s|
    ensures s[..j][..i] == s[..i]
  {
  }

  lemma PrefixOfSnoc<T>(s: seq<T>, x: T)
    ensures (s + [x])[..|s|] == s
  {
  }

  lemma PrefixOfLonger<T>(a: seq<T>, b: seq<T>, c: seq<T>)
    requires a <= b
    ensures a <= b + c
  {
    assert (b + c)[..|b|] == b;
  }

  lemma DropLastOfConcat<T>(a: seq<T>, b: seq<T>)
    requires b != []
    ensures (a + b)[..|a + b| - 1] == a + b[..|b| - 1]
    ensures |b| == 1 ==> (a + b)[..|a + b| - 1] == a
    ensures (a + b)[|a + b| - 1] == b[|b| - 1]
  {
    assert a + b[..0] == a;
  }

  lemma SplitFirst<T>(s: seq<T>)
    requires s != []
    ensures s == [s[0]] + s[1..]
  {
  }

  lemma SplitLast<T>(s: seq<T>)
    requires s != []
    ensures s == s[..|s| - 1] + [s[|s| - 1]]
  {
  }

  lemma PrefixSlice<T>(a: seq<T>, b: seq<T>, c: seq<T>)
    requires a + b <= c
    ensures c[|a|..|a| + |b|] == b
  {
    assert c[..|a| + |b|] == a + b;
  }

  lemma SliceNext<T>(s: seq<T>, k: nat)
    requires k < |s|
    ensures s[..k + 1] == s[..k] + [s[k]]
  {
  }

  lemma PrefixExtends<T>(a: seq<T>, b: seq<T>, k: nat)
    requires k <= |b|
    ensures a + b[..k] <= a + b
  {
    assert (a + b)[..|a| + k] == a + b[..k];
  }

  lemma ConcatAssoc<T>(a: seq<T>, b: seq<T>, c: seq<T>)
    ensures a + (b + c) == a + b + c
  {
  }
}
