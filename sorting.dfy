/** Python's `list.sort(key=..., reverse=True)` and `list[:k]`, as the store
    and the thumbnail handler use them. Python's sort is stable, also with
    `reverse=True`, so the order it produces is fully determined by the keys
    and the input order; the insertion sort below produces that same order. */
module Sorting {
  import opened Common

  /** A sort key. Python compares key tuples lexicographically; every key the
      model sorts by has at most two components (a single timestamp uses
      `minor == 0`). */
  datatype Rank = Rank(major: int, minor: int)

  /** `a >= b` in lexicographic order. */
  predicate RankGe(a: Rank, b: Rank) {
    a.major > b.major || (a.major == b.major && a.minor >= b.minor)
  }

  /** Non-increasing by `key`. */
  predicate SortedDesc<T>(s: seq<T>, key: T -> Rank) {
    forall i, j :: 0 <= i < j < |s| ==> RankGe(key(s[i]), key(s[j]))
  }

  /** Puts `x` in front of the first element whose key is not greater than
      its own, so `x` stays ahead of elements with an equal key. */
  function InsertDesc<T>(x: T, s: seq<T>, key: T -> Rank): (r: seq<T>)
    requires SortedDesc(s, key)
    ensures |r| == |s| + 1
    ensures s == [] || RankGe(key(x), key(s[0])) ==> r == [x] + s
    ensures s != [] && !RankGe(key(x), key(s[0])) ==> r[0] == s[0]
    ensures SortedDesc(r, key)
    ensures multiset(r) == multiset(s) + multiset{x}
  {
    if s == [] || RankGe(key(x), key(s[0])) then [x] + s
    else
      var t := InsertDesc(x, s[1..], key);
      assert RankGe(key(s[0]), key(t[0])) by {
        if s[1..] != [] { assert s[1..][0] == s[1]; }
      }
      assert forall j :: 0 <= j < |t| ==> RankGe(key(s[0]), key(t[j])) by {
        forall j | 0 < j < |t| ensures RankGe(key(s[0]), key(t[j])) {
          assert RankGe(key(t[0]), key(t[j]));
        }
      }
      var r := [s[0]] + t;
      assert SortedDesc(r, key) by {
        forall i, j | 0 <= i < j < |r| ensures RankGe(key(r[i]), key(r[j])) {
          if i > 0 { assert r[i] == t[i - 1] && r[j] == t[j - 1]; }
          else { assert r[j] == t[j - 1]; }
        }
      }
      assert s == [s[0]] + s[1..];
      r
  }

  /** `sorted(s, key=key, reverse=True)`. */
  function SortDesc<T>(s: seq<T>, key: T -> Rank): (r: seq<T>)
    ensures |r| == |s|
    ensures SortedDesc(r, key)
    ensures multiset(r) == multiset(s)
  {
    if s == [] then []
    else
      assert s == [s[0]] + s[1..];
      InsertDesc(s[0], SortDesc(s[1..], key), key)
  }

  /** The first element after sorting is one of the input's elements and has
      a key at least as large as every element of the input. */
  lemma SortDescHeadIsMax<T>(s: seq<T>, key: T -> Rank)
    requires s != []
    ensures SortDesc(s, key)[0] in s
    ensures forall x :: x in s ==> RankGe(key(SortDesc(s, key)[0]), key(x))
  {
    var r := SortDesc(s, key);
    assert r[0] in multiset(r);
    forall x | x in s ensures RankGe(key(r[0]), key(x)) {
      assert x in multiset(s);
      assert x in multiset(r);
      var j :| 0 <= j < |r| && r[j] == x;
      if j == 0 { assert RankGe(key(x), key(x)); }
    }
  }

  /** The sort is stable: the first element after sorting is the first
      element of the input whose key no other element exceeds, so every
      element before it has a strictly smaller key. */
  lemma {:induction false} SortDescHeadIsFirstMax<T>(s: seq<T>, key: T -> Rank)
    requires s != []
    ensures exists k :: 0 <= k < |s| && SortDesc(s, key)[0] == s[k]
                        && forall j :: 0 <= j < k ==> !RankGe(key(s[j]), key(s[k]))
  {
    var rest := SortDesc(s[1..], key);
    if s[1..] == [] || RankGe(key(s[0]), key(rest[0])) {
      assert SortDesc(s, key)[0] == s[0];
    } else {
      SortDescHeadIsFirstMax(s[1..], key);
      var k' :| 0 <= k' < |s[1..]| && rest[0] == s[1..][k']
                && forall j :: 0 <= j < k' ==> !RankGe(key(s[1..][j]), key(s[1..][k']));
      assert SortDesc(s, key)[0] == rest[0] == s[k' + 1];
      forall j | 0 <= j < k' + 1 ensures !RankGe(key(s[j]), key(s[k' + 1])) {
        if j > 0 { assert s[j] == s[1..][j - 1]; }
      }
    }
  }

  /** The elements of `s` whose key is `k`, in their order in `s`. */
  function WithKey<T>(s: seq<T>, key: T -> Rank, k: Rank): (r: seq<T>)
    ensures |r| <= |s|
  {
    if s == [] then []
    else (if key(s[0]) == k then [s[0]] else []) + WithKey(s[1..], key, k)
  }

  /** Filtering a list with one more element in front. */
  lemma WithKeyCons<T>(a: T, t: seq<T>, key: T -> Rank, k: Rank)
    ensures WithKey([a] + t, key, k) == (if key(a) == k then [a] else []) + WithKey(t, key, k)
  {
    assert ([a] + t)[0] == a && ([a] + t)[1..] == t;
  }

  /** Inserting `x` into a sorted list puts it ahead of every element with
      the same key. */
  lemma {:induction false} InsertDescWithKey<T>(x: T, s: seq<T>, key: T -> Rank, k: Rank)
    requires SortedDesc(s, key)
    ensures WithKey(InsertDesc(x, s, key), key, k)
         == (if key(x) == k then [x] else []) + WithKey(s, key, k)
    decreases |s|
  {
    if s == [] || RankGe(key(x), key(s[0])) {
      WithKeyCons(x, s, key, k);
    } else {
      var t := InsertDesc(x, s[1..], key);
      assert InsertDesc(x, s, key) == [s[0]] + t;
      assert key(s[0]) != key(x);
      var hx: seq<T> := if key(x) == k then [x] else [];
      var h0: seq<T> := if key(s[0]) == k then [s[0]] else [];
      var rest := WithKey(s[1..], key, k);
      WithKeyCons(s[0], t, key, k);
      InsertDescWithKey(x, s[1..], key, k);
      assert WithKey(InsertDesc(x, s, key), key, k) == h0 + (hx + rest);
      assert h0 + (hx + rest) == hx + (h0 + rest) by {
        if key(x) == k { assert h0 == []; } else { assert hx == []; }
      }
      assert s == [s[0]] + s[1..];
      WithKeyCons(s[0], s[1..], key, k);
    }
  }

  /** The sort is stable: for every key, the elements with that key appear
      after sorting in the same order as in the input. Together with
      `SortedDesc` and the permutation this fixes the result completely. */
  lemma {:induction false} SortDescStable<T>(s: seq<T>, key: T -> Rank, k: Rank)
    ensures WithKey(SortDesc(s, key), key, k) == WithKey(s, key, k)
    decreases |s|
  {
    if s != [] {
      SortDescStable(s[1..], key, k);
      InsertDescWithKey(s[0], SortDesc(s[1..], key), key, k);
    }
  }

  /** Python's `s[:k]`, negative `k` counting from the end. */
  function TakePy<T>(s: seq<T>, k: int): (r: seq<T>)
    ensures 0 <= k ==> |r| == Min(k, |s|)
    ensures k < 0 ==> |r| == Max(0, |s| + k)
    ensures r == s[..|r|]
  {
    if k >= 0 then s[..Min(k, |s|)] else s[..Max(0, |s| + k)]
  }
}
