/** Small value-level helpers shared by every part of the model: an optional
    value, the whitespace stripping, splitting and joining of strings that
    Python's `str.strip`/`str.split`/`str.join` and JavaScript's `trim` do,
    ASCII lower-casing and substring search. */
module Common {

  datatype Option<+T> = None | Some(value: T) {
    function GetOr(default: T): T {
      match this
      case Some(v) => v
      case None => default
    }
  }

  function Min(a: int, b: int): int { if a <= b then a else b }
  function Max(a: int, b: int): int { if a >= b then a else b }

  /** The text a map of texts holds for `key`, "" when there is none
      (Python's `d.get(key, "")`). */
  function Remembered(texts: map<int, string>, key: int): string {
    if key in texts then texts[key] else ""
  }

  /** A list around its element at `i`: stated once for any element type,
      so that proofs about lists of strings need not compare them element by
      element. */
  lemma SplitAround<T>(s: seq<T>, i: nat)
    requires i < |s|
    ensures s == s[..i] + ([s[i]] + s[i + 1..])
    ensures s[i..] == [s[i]] + s[i + 1..]
  {
  }

  /** A non-empty list is its head followed by its tail. */
  lemma HeadTail<T>(s: seq<T>)
    requires s != []
    ensures s == [s[0]] + s[1..]
  {
  }

  /** The head and tail of a concatenation whose first part is non-empty. */
  lemma AppendTail<T>(xs: seq<T>, ys: seq<T>)
    requires xs != []
    ensures (xs + ys)[0] == xs[0] && (xs + ys)[1..] == xs[1..] + ys
  {
  }

  /** An element of a concatenation is an element of one of its parts. */
  lemma InAppend<T>(a: seq<T>, b: seq<T>, x: T)
    requires x in a + b
    ensures x in a || x in b
  {
  }

  /** An element of the first part is an element of a concatenation. */
  lemma InAppendLeft<T>(a: seq<T>, b: seq<T>, x: T)
    requires x in a
    ensures x in a + b
  {
    var i :| 0 <= i < |a| && a[i] == x;
    assert (a + b)[i] == x;
  }

  /** An element of the second part is an element of a concatenation. */
  lemma InAppendRight<T>(a: seq<T>, b: seq<T>, x: T)
    requires x in b
    ensures x in a + b
  {
    var i :| 0 <= i < |b| && b[i] == x;
    assert (a + b)[|a| + i] == x;
  }

  /** The only element of a one-element list. */
  lemma InSingleton<T>(y: T, x: T)
    requires x in [y]
    ensures x == y
  {
  }

  /** Concatenation is associative. */
  lemma AppendAssoc<T>(a: seq<T>, b: seq<T>, c: seq<T>)
    ensures (a + b) + c == a + (b + c)
  {
  }

  /** No element occurs twice. */
  predicate NoDups<T(==)>(s: seq<T>) {
    forall i, j :: 0 <= i < j < |s| ==> s[i] != s[j]
  }

  // ---------------------------------------------------------------------------
  // Whitespace
  // ---------------------------------------------------------------------------

  /** The ASCII whitespace characters that both Python's `str.strip()` and
      JavaScript's `String.prototype.trim()` remove. */
  predicate IsSpace(c: char) {
    c == ' ' || c == '\t' || c == '\n' || c == '\r' || c == '\U{000B}' || c == '\U{000C}'
  }

  /** Neither the first nor the last character is whitespace. */
  predicate Stripped(s: string) {
    s == [] || (!IsSpace(s[0]) && !IsSpace(s[|s| - 1]))
  }

  predicate AllSpace(s: string) {
    forall i :: 0 <= i < |s| ==> IsSpace(s[i])
  }

  /** Drops leading whitespace: the result is a suffix of `s` and all that was
      dropped is whitespace. */
  function TrimStart(s: string): (r: string)
    ensures |r| <= |s| && r == s[|s| - |r|..]
    ensures r == [] || !IsSpace(r[0])
    ensures AllSpace(s[..|s| - |r|])
  {
    if s != [] && IsSpace(s[0]) then
      var r := TrimStart(s[1..]);
      DropDrop(s, 1, |s| - 1 - |r|);
      r
    else s
  }

  /** Drops trailing whitespace: the result is a prefix of `s` and all that was
      dropped is whitespace. */
  function TrimEnd(s: string): (r: string)
    ensures |r| <= |s| && r == s[..|r|]
    ensures r == [] || !IsSpace(r[|r| - 1])
    ensures AllSpace(s[|r|..])
  {
    if s != [] && IsSpace(s[|s| - 1]) then TrimEnd(s[..|s| - 1]) else s
  }

  /** `s.strip()` / `s.trim()`: `s` without its leading and trailing
      whitespace. */
  function Strip(s: string): (r: string)
    ensures |r| <= |s| && Stripped(r)
  {
    TrimEnd(TrimStart(s))
  }

  /** What stripping drops is whitespace on either side of a contiguous
      slice, and what it keeps is that slice. */
  lemma StripIsSlice(s: string)
    ensures var r := Strip(s);
      exists i :: 0 <= i <= |s| - |r| && r == s[i..i + |r|] && AllSpace(s[..i]) && AllSpace(s[i + |r|..])
  {
    var t := TrimStart(s);
    var r := TrimEnd(t);
    var i := |s| - |t|;
    SuffixSlices(s, i, |r|);
    assert Strip(s) == r;
    assert 0 <= i <= |s| - |r| && r == s[i..i + |r|] && AllSpace(s[..i]) && AllSpace(s[i + |r|..]);
  }

  /** Dropping twice drops the sum. */
  lemma DropDrop<T>(s: seq<T>, i: nat, j: nat)
    requires i + j <= |s|
    ensures s[i..][j..] == s[i + j..]
  {
  }

  /** Taking from, and dropping from, a suffix. */
  lemma SuffixSlices<T>(s: seq<T>, i: nat, n: nat)
    requires i + n <= |s|
    ensures s[i..][..n] == s[i..i + n] && s[i..][n..] == s[i + n..]
  {
  }

  /** Stripping yields the empty string exactly when the input is all
      whitespace. */
  lemma StripEmptyIffAllSpace(s: string)
    ensures Strip(s) == [] <==> AllSpace(s)
  {
    var r := Strip(s);
    StripIsSlice(s);
    if r == [] {
      var i :| 0 <= i <= |s| && AllSpace(s[..i]) && AllSpace(s[i..]);
      forall k | 0 <= k < |s| ensures IsSpace(s[k]) {
        if k < i { assert s[k] == s[..i][k]; } else { assert s[k] == s[i..][k - i]; }
      }
    }
  }

  /** A stripped string is left as it is. */
  lemma {:induction false} StripStripped(s: string)
    requires Stripped(s)
    ensures Strip(s) == s
  {
  }

  // ---------------------------------------------------------------------------
  // Splitting and joining
  // ---------------------------------------------------------------------------

  /** `xs` joined with `sep` between consecutive elements (Python's
      `sep.join(xs)`, JavaScript's `xs.join(sep)`). */
  function Join(xs: seq<string>, sep: string): string {
    if |xs| == 0 then ""
    else if |xs| == 1 then xs[0]
    else xs[0] + sep + Join(xs[1..], sep)
  }

  /** Python's `s.split(sep)` for a one-character separator: the pieces
      between separators, empty pieces included. */
  function Split(s: string, sep: char): (r: seq<string>)
    ensures |r| >= 1
    ensures forall i :: 0 <= i < |r| ==> sep !in r[i]
  {
    if s == [] then [""]
    else
      var rest := Split(s[1..], sep);
      if s[0] == sep then [""] + rest
      else [[s[0]] + rest[0]] + rest[1..]
  }

  /** Joining the pieces with the separator gives back the split string. */
  lemma {:induction false} JoinSplit(s: string, sep: char)
    ensures Join(Split(s, sep), [sep]) == s
    decreases |s|
  {
    if s != [] {
      var rest := Split(s[1..], sep);
      JoinSplit(s[1..], sep);
      if s[0] == sep {
        assert ([""] + rest)[1..] == rest;
      } else {
        var r := [[s[0]] + rest[0]] + rest[1..];
        if |rest| > 1 {
          assert r[1..] == rest[1..];
        }
      }
      assert [s[0]] + s[1..] == s;
    }
  }

  /** Splitting a separator-free prefix off: the inverse direction of the
      round trip `JoinSplit` states. */
  lemma {:induction false} SplitAfterPiece(a: string, b: string, sep: char)
    requires sep !in a
    ensures Split(a + [sep] + b, sep) == [a] + Split(b, sep)
    decreases |a|
  {
    if a == [] {
      assert a + [sep] + b == [sep] + b;
      assert ([sep] + b)[1..] == b;
    } else {
      SplitAfterPiece(a[1..], b, sep);
      assert (a + [sep] + b)[1..] == a[1..] + [sep] + b;
      assert [a[0]] + a[1..] == a;
    }
  }

  /** A piece without separators splits to itself. */
  lemma {:induction false} SplitPiece(a: string, sep: char)
    requires sep !in a
    ensures Split(a, sep) == [a]
    decreases |a|
  {
    if a != [] {
      SplitPiece(a[1..], sep);
      assert [a[0]] + a[1..] == a;
    }
  }

  // ---------------------------------------------------------------------------
  // Case and substrings
  // ---------------------------------------------------------------------------

  function LowerChar(c: char): (d: char)
    ensures 'A' <= c <= 'Z' ==> d != c && 'a' <= d <= 'z'
    ensures !('A' <= c <= 'Z') ==> d == c
  {
    if 'A' <= c <= 'Z' then (c as int + 32) as char else c
  }

  /** `s.lower()` restricted to ASCII letters. */
  function Lower(s: string): (r: string)
    ensures |r| == |s|
    ensures forall i :: 0 <= i < |s| ==> r[i] == LowerChar(s[i])
  {
    if s == [] then [] else [LowerChar(s[0])] + Lower(s[1..])
  }

  predicate IsPrefix(p: string, s: string) {
    |p| <= |s| && s[..|p|] == p
  }

  /** `needle` occurs in `hay` starting at position `i`. */
  predicate OccursAt(hay: string, needle: string, i: int) {
    0 <= i <= |hay| - |needle| && hay[i..i + |needle|] == needle
  }

  /** Python's `needle in hay` on strings. */
  predicate Contains(hay: string, needle: string)
    decreases |hay|
  {
    IsPrefix(needle, hay) || (hay != [] && Contains(hay[1..], needle))
  }

  /** A substring occurrence is a contiguous slice, and conversely. */
  lemma {:induction false} ContainsIffOccurs(hay: string, needle: string)
    ensures Contains(hay, needle) <==> exists i :: OccursAt(hay, needle, i)
    decreases |hay|
  {
    if IsPrefix(needle, hay) {
      assert OccursAt(hay, needle, 0);
    }
    if hay != [] {
      ContainsIffOccurs(hay[1..], needle);
      if Contains(hay[1..], needle) {
        var i :| OccursAt(hay[1..], needle, i);
        assert OccursAt(hay, needle, i + 1);
      }
      if exists i :: OccursAt(hay, needle, i) {
        var i :| OccursAt(hay, needle, i);
        if i > 0 {
          assert OccursAt(hay[1..], needle, i - 1);
        }
      }
    }
  }
}
