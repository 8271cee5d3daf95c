/** The thumbnail slot policy of `ImageHandler` (database/image_handler.py):
    a prompt keeps a short list of thumbnails, each of which can be locked;
    a new capture overwrites the first unlocked slot, grows the list while
    every slot is locked and there is room, and otherwise evicts the oldest
    locked ones. Two lists are merged by keeping distinct locked thumbnails
    first and filling up with the newest unlocked ones.

    Image decoding, resizing and JPEG/base64 encoding are not modelled: the
    result of encoding an image is passed in as an optional data string. */
module ImageHandler {
  import opened Common
  import opened Sorting

  /** One thumbnail: the encoded image (a data URI), its lock flag, the time
      it was taken and the name of the image it was taken from. */
  datatype Thumbnail = Thumbnail(data: string, locked: bool, timestamp: int, sourceImage: string)

  /** The key `sort(key=lambda x: x['timestamp'])` orders by. */
  function ThumbRank(t: Thumbnail): Rank { Rank(t.timestamp, 0) }

  /** The thumbnail built for a capture, if `compress_and_encode` produced
      a (non-empty, hence truthy) data string. */
  function NewThumbnail(encoded: Option<string>, sourceImage: string, now: int): Option<Thumbnail> {
    if encoded.Some? && encoded.value != "" then Some(Thumbnail(encoded.value, false, now, sourceImage))
    else None
  }

  /** No two thumbnails carry the same image data. */
  predicate DistinctData(s: seq<Thumbnail>) {
    forall i, j :: 0 <= i < j < |s| ==> s[i].data != s[j].data
  }

  /** Every locked thumbnail comes before every unlocked one. */
  predicate LockedFirst(s: seq<Thumbnail>) {
    forall i, j :: 0 <= i < j < |s| && s[j].locked ==> s[i].locked
  }

  function DataSet(s: seq<Thumbnail>): set<string> {
    set t | t in s :: t.data
  }

  // ---------------------------------------------------------------------------
  // manage_thumbnails
  // ---------------------------------------------------------------------------

  /** `manage_thumbnails`: where a new capture goes.
      `encoded` is what encoding the new image produced (None on failure). */
  method ManageThumbnails(current: seq<Thumbnail>, encoded: Option<string>, sourceImage: string,
                          now: int, maxThumbnails: int) returns (r: seq<Thumbnail>)
    // encoding failed: nothing changes
    ensures NewThumbnail(encoded, sourceImage, now).None? ==> r == current
    ensures NewThumbnail(encoded, sourceImage, now).Some? ==>
      var t := NewThumbnail(encoded, sourceImage, now).value;
      && t.data == encoded.value && !t.locked && t.timestamp == now
      // first capture
      && (current == [] ==> r == [t])
      // some slot is unlocked: the first unlocked slot is overwritten, nothing else changes
      && ((exists k :: 0 <= k < |current| && !current[k].locked) ==>
            exists k :: 0 <= k < |current| && !current[k].locked
                     && (forall j :: 0 <= j < k ==> current[j].locked)
                     && r == current[k := t])
      // every slot is locked and there is room: the new one is appended
      && (current != [] && (forall k :: 0 <= k < |current| ==> current[k].locked) && |current| < maxThumbnails ==>
            r == current + [t])
      // every slot is locked and the list is full: newest max-1 plus the new one
      && (current != [] && (forall k :: 0 <= k < |current| ==> current[k].locked) && |current| >= maxThumbnails ==>
            r == TakePy(SortDesc(current, ThumbRank), maxThumbnails - 1) + [t])
  {
    var nt := NewThumbnail(encoded, sourceImage, now);
    if nt.None? {
      return current;
    }
    var t := nt.value;
    if current == [] {
      return [t];
    }
    var unlockedIndex: Option<nat> := None;
    var i := 0;
    while i < |current|
      invariant 0 <= i <= |current|
      invariant forall k :: 0 <= k < i ==> current[k].locked
    {
      if !current[i].locked {
        unlockedIndex := Some(i);
        break;
      }
      i := i + 1;
    }
    if unlockedIndex.Some? {
      return current[unlockedIndex.value := t];
    }
    if |current| < maxThumbnails {
      return current + [t];
    }
    var sorted := SortDesc(current, ThumbRank);
    return TakePy(sorted, maxThumbnails - 1) + [t];
  }

  /** Eviction keeps the newest: with a full list of `max >= 1` locked
      thumbnails, the `max - 1` that survive are taken from the list, and
      none of them is older than any thumbnail that was dropped. */
  lemma EvictionKeepsNewest(current: seq<Thumbnail>, maxThumbnails: int)
    requires 1 <= maxThumbnails <= |current|
    ensures var kept := TakePy(SortDesc(current, ThumbRank), maxThumbnails - 1);
      && |kept| == maxThumbnails - 1
      && multiset(kept) <= multiset(current)
      && forall x, y :: x in kept && y in multiset(current) - multiset(kept) ==> x.timestamp >= y.timestamp
  {
    var s := SortDesc(current, ThumbRank);
    var n := maxThumbnails - 1;
    var kept := TakePy(s, n);
    assert s == kept + s[n..];
    assert multiset(current) - multiset(kept) == multiset(s[n..]);
    SortedSplit(s, n);
  }

  /** In a list sorted newest first, every entry of a prefix is at least as
      new as every entry after it. */
  lemma SortedSplit(s: seq<Thumbnail>, n: nat)
    requires n <= |s| && SortedDesc(s, ThumbRank)
    ensures forall x, y :: x in s[..n] && y in multiset(s[n..]) ==> x.timestamp >= y.timestamp
  {
    forall x, y | x in s[..n] && y in multiset(s[n..]) ensures x.timestamp >= y.timestamp {
      var i :| 0 <= i < n && s[..n][i] == x;
      var j :| 0 <= j < |s| - n && s[n..][j] == y;
      assert s[i] == x && s[n + j] == y;
    }
  }

  // ---------------------------------------------------------------------------
  // lock_thumbnail / unlock_thumbnail
  // ---------------------------------------------------------------------------

  /** `lock_thumbnail`: only the lock flag of the slot at `index` changes, and
      only when `index` is in range. */
  function LockThumbnail(ts: seq<Thumbnail>, index: int): (r: seq<Thumbnail>)
    ensures |r| == |ts|
    ensures forall k :: 0 <= k < |ts| && k != index ==> r[k] == ts[k]
    ensures 0 <= index < |ts| ==> r[index].locked && r[index] == ts[index].(locked := true)
  {
    if 0 <= index < |ts| then ts[index := ts[index].(locked := true)] else ts
  }

  /** `unlock_thumbnail`: the mirror image of `LockThumbnail`. */
  function UnlockThumbnail(ts: seq<Thumbnail>, index: int): (r: seq<Thumbnail>)
    ensures |r| == |ts|
    ensures forall k :: 0 <= k < |ts| && k != index ==> r[k] == ts[k]
    ensures 0 <= index < |ts| ==> !r[index].locked && r[index] == ts[index].(locked := false)
  {
    if 0 <= index < |ts| then ts[index := ts[index].(locked := false)] else ts
  }

  /** Unlocking undoes locking a slot that was unlocked, and locking undoes
      unlocking a slot that was locked. */
  lemma LockUnlockInverse(ts: seq<Thumbnail>, index: int)
    ensures 0 <= index < |ts| && !ts[index].locked ==> UnlockThumbnail(LockThumbnail(ts, index), index) == ts
    ensures 0 <= index < |ts| && ts[index].locked ==> LockThumbnail(UnlockThumbnail(ts, index), index) == ts
    ensures !(0 <= index < |ts|) ==> LockThumbnail(ts, index) == ts && UnlockThumbnail(ts, index) == ts
  {
  }

  // ---------------------------------------------------------------------------
  // merge_thumbnails
  // ---------------------------------------------------------------------------

  function LockedOf(ts: seq<Thumbnail>): (r: seq<Thumbnail>)
    ensures forall t :: t in r <==> t in ts && t.locked
  {
    if ts == [] then [] else (if ts[0].locked then [ts[0]] else []) + LockedOf(ts[1..])
  }

  function UnlockedOf(ts: seq<Thumbnail>): (r: seq<Thumbnail>)
    ensures forall t :: t in r <==> t in ts && !t.locked
  {
    if ts == [] then [] else (if ts[0].locked then [] else [ts[0]]) + UnlockedOf(ts[1..])
  }

  lemma DataSetAppend(s: seq<Thumbnail>, t: Thumbnail)
    ensures DataSet(s + [t]) == DataSet(s) + {t.data}
  {
    assert forall u :: u in s + [t] <==> u in s || u == t;
  }

  lemma DataSetCons(t: Thumbnail, s: seq<Thumbnail>)
    ensures DataSet([t] + s) == {t.data} + DataSet(s)
  {
    assert forall u :: u in [t] + s <==> u == t || u in s;
  }

  /** The deduplication loop: scans `ts` and appends each thumbnail whose
      data has not been seen yet. The scan only appends, and the data seen
      at the end is everything seen before plus everything scanned. */
  function DedupInto(acc: seq<Thumbnail>, ts: seq<Thumbnail>): (r: seq<Thumbnail>)
    requires DistinctData(acc)
    ensures DistinctData(r)
    ensures |acc| <= |r| && r[..|acc|] == acc
    ensures forall t :: t in r ==> t in acc || t in ts
    ensures DataSet(r) == DataSet(acc) + DataSet(ts)
    decreases |ts|
  {
    if ts == [] then
      assert DataSet(ts) == {};
      acc
    else
      DataSetCons(ts[0], ts[1..]);
      assert [ts[0]] + ts[1..] == ts;
      if ts[0].data in DataSet(acc) then
        DedupInto(acc, ts[1..])
      else
        DataSetAppend(acc, ts[0]);
        var acc' := acc + [ts[0]];
        assert DistinctData(acc') by {
          forall i | 0 <= i < |acc| ensures acc[i].data != ts[0].data {
            assert acc[i] in acc;
          }
        }
        var r := DedupInto(acc', ts[1..]);
        assert r[..|acc|] == r[..|acc'|][..|acc|];
        r
  }

  /** The filling loop: scans the candidates, stops as soon as `maxThumbnails`
      entries are collected, and appends each candidate whose data is new. */
  function Fill(acc: seq<Thumbnail>, cands: seq<Thumbnail>, maxThumbnails: int): (r: seq<Thumbnail>)
    requires DistinctData(acc)
    ensures DistinctData(r)
    ensures |acc| <= |r| && r[..|acc|] == acc
    ensures |r| <= Max(|acc|, maxThumbnails)
    ensures forall i :: |acc| <= i < |r| ==> r[i] in cands
    decreases |cands|
  {
    if cands == [] || |acc| >= maxThumbnails then acc
    else if cands[0].data in DataSet(acc) then
      Fill(acc, cands[1..], maxThumbnails)
    else
      var acc' := acc + [cands[0]];
      assert DistinctData(acc') by {
        forall i | 0 <= i < |acc| ensures acc[i].data != cands[0].data {
          assert acc[i] in acc;
        }
      }
      var r := Fill(acc', cands[1..], maxThumbnails);
      assert r[..|acc|] == r[..|acc'|][..|acc|];
      forall i | |acc| <= i < |r| ensures r[i] in cands {
        if i == |acc| { assert r[i] == r[..|acc'|][i]; } else { assert r[i] in cands[1..]; }
      }
      r
  }

  /** `merge_thumbnails` as a function of its inputs: never more than the
      maximum. Its other properties are `MergedThumbnailsProps`. */
  function MergedThumbnails(a: seq<Thumbnail>, b: seq<Thumbnail>, maxThumbnails: int): (r: seq<Thumbnail>)
    ensures 0 <= maxThumbnails ==> |r| <= maxThumbnails
  {
    var unique := DedupInto([], LockedOf(a) + LockedOf(b));
    if |unique| > maxThumbnails then
      TakePy(SortDesc(unique, ThumbRank), maxThumbnails)
    else if |unique| < maxThumbnails then
      var r := Fill(unique, SortDesc(UnlockedOf(a) + UnlockedOf(b), ThumbRank), maxThumbnails);
      assert |r| <= maxThumbnails;
      r
    else
      unique
  }

  /** The merged list has no two entries with the same image data, puts the
      locked entries first, takes every entry from one of the inputs, and,
      when the distinct locked entries fit, keeps every locked image locked. */
  lemma MergedThumbnailsProps(a: seq<Thumbnail>, b: seq<Thumbnail>, maxThumbnails: int)
    ensures var r := MergedThumbnails(a, b, maxThumbnails);
      && DistinctData(r)
      && LockedFirst(r)
      && (forall t :: t in r ==> t in a || t in b)
      && (|DedupInto([], LockedOf(a) + LockedOf(b))| <= maxThumbnails ==>
            forall t :: t in a + b && t.locked ==> exists u :: u in r && u.locked && u.data == t.data)
  {
    var unique := DedupInto([], LockedOf(a) + LockedOf(b));
    if |unique| > maxThumbnails {
      EvictedMergeProps(a, b, unique, maxThumbnails);
    } else if |unique| < maxThumbnails {
      FilledMergeProps(a, b, unique, maxThumbnails);
    } else {
      LockedKept(a, b, unique, unique);
      forall i | 0 <= i < |unique| ensures unique[i].locked && unique[i] in a + b {
        assert unique[i] in LockedOf(a) + LockedOf(b);
      }
    }
  }

  /** More distinct locked thumbnails than fit: the newest ones that fit. */
  lemma EvictedMergeProps(a: seq<Thumbnail>, b: seq<Thumbnail>, unique: seq<Thumbnail>, maxThumbnails: int)
    requires unique == DedupInto([], LockedOf(a) + LockedOf(b))
    ensures var r := TakePy(SortDesc(unique, ThumbRank), maxThumbnails);
      && DistinctData(r) && LockedFirst(r)
      && forall t :: t in r ==> t in a || t in b
  {
    var locked := LockedOf(a) + LockedOf(b);
    var s := SortDesc(unique, ThumbRank);
    var r := TakePy(s, maxThumbnails);
    assert DistinctData(s) by {
      PermutationKeepsDistinct(unique, s);
    }
    PrefixKeepsDistinct(s, |r|);
    PrefixOfPermutation(unique, s, |r|);
    forall t | t in r ensures t in locked {
      assert t in unique;
    }
    AllLockedFrom(r, a, b);
  }

  /** A prefix of a list without repeated data has none either. */
  lemma PrefixKeepsDistinct(s: seq<Thumbnail>, n: nat)
    requires n <= |s| && DistinctData(s)
    ensures DistinctData(s[..n])
  {
    forall i, j | 0 <= i < j < n ensures s[..n][i].data != s[..n][j].data {
      assert s[..n][i] == s[i] && s[..n][j] == s[j];
    }
  }

  /** Every element of a prefix of a permutation of `u` is in `u`. */
  lemma PrefixOfPermutation<T>(u: seq<T>, s: seq<T>, n: nat)
    requires n <= |s| && multiset(u) == multiset(s)
    ensures forall t :: t in s[..n] ==> t in u
  {
    forall t | t in s[..n] ensures t in u {
      var i :| 0 <= i < n && s[..n][i] == t;
      assert s[i] == t;
      assert t in multiset(s);
    }
  }

  /** Entries taken from the locked entries of `a` and `b` are all locked,
      so they come first, and each is in `a` or `b`. */
  lemma AllLockedFrom(r: seq<Thumbnail>, a: seq<Thumbnail>, b: seq<Thumbnail>)
    requires forall t :: t in r ==> t in LockedOf(a) + LockedOf(b)
    ensures LockedFirst(r)
    ensures forall t :: t in r ==> t in a || t in b
  {
    forall i | 0 <= i < |r| ensures r[i].locked && (r[i] in a || r[i] in b) {
      assert r[i] in r;
    }
  }

  /** Room to spare: the distinct locked thumbnails, then the newest
      unlocked ones whose data is new. */
  lemma FilledMergeProps(a: seq<Thumbnail>, b: seq<Thumbnail>, unique: seq<Thumbnail>, maxThumbnails: int)
    requires unique == DedupInto([], LockedOf(a) + LockedOf(b))
    requires |unique| < maxThumbnails
    ensures var r := Fill(unique, SortDesc(UnlockedOf(a) + UnlockedOf(b), ThumbRank), maxThumbnails);
      && |r| <= maxThumbnails && DistinctData(r) && LockedFirst(r)
      && (forall t :: t in r ==> t in a || t in b)
      && forall t :: t in a + b && t.locked ==> exists u :: u in r && u.locked && u.data == t.data
  {
    var cands := SortDesc(UnlockedOf(a) + UnlockedOf(b), ThumbRank);
    var r := Fill(unique, cands, maxThumbnails);
    CandidatesUnlocked(a, b);
    UniqueLocked(a, b, unique);
    FillLayout(unique, cands, r, a + b);
    LockedKept(a, b, unique, r);
  }

  /** Which thumbnails the merge keeps. With more distinct locked images
      than fit, it keeps only distinct locked entries, `max` of them (for
      `max >= 0`), and no locked entry it drops is newer than one it keeps. With room to spare, it keeps every
      distinct locked entry first, then fills with unlocked entries until it
      holds `max` or no unlocked image with new data is left, and no unlocked
      image it leaves out with data it does not hold is newer than one it
      added. */
  lemma MergedThumbnailsKeepsNewest(a: seq<Thumbnail>, b: seq<Thumbnail>, maxThumbnails: int)
    ensures var unique := DedupInto([], LockedOf(a) + LockedOf(b));
      var r := MergedThumbnails(a, b, maxThumbnails);
      && (|unique| > maxThumbnails ==>
            && (forall t :: t in r ==> t in unique && t.locked)
            && (0 <= maxThumbnails ==> |r| == maxThumbnails)
            && forall x, y :: x in r && y in unique && y !in r ==> x.timestamp >= y.timestamp)
      && (|unique| < maxThumbnails ==>
            && |unique| <= |r| && r[..|unique|] == unique
            && (|r| == maxThumbnails || forall t :: t in a + b && !t.locked ==> t.data in DataSet(r))
            && forall t, i :: t in a + b && !t.locked && t.data !in DataSet(r) && |unique| <= i < |r|
                 ==> r[i].timestamp >= t.timestamp)
  {
    var unique := DedupInto([], LockedOf(a) + LockedOf(b));
    var cands := SortDesc(UnlockedOf(a) + UnlockedOf(b), ThumbRank);
    if |unique| > maxThumbnails {
      var r := MergedThumbnails(a, b, maxThumbnails);
      NewestPrefixKept(unique, maxThumbnails);
      PrefixOfPermutation(unique, SortDesc(unique, ThumbRank), |r|);
      EvictedMergeProps(a, b, unique, maxThumbnails);
      UniqueLocked(a, b, unique);
    } else if |unique| < maxThumbnails {
      FillStopsOnlyWhenFull(unique, cands, maxThumbnails);
      FillSkipsOnlyOlder(unique, cands, maxThumbnails);
      CandidatesCoverUnlocked(a, b);
    }
  }

  /** Taking a prefix of the list sorted newest first: no entry left out is
      newer than one taken. */
  lemma NewestPrefixKept(unique: seq<Thumbnail>, n: int)
    ensures var r := TakePy(SortDesc(unique, ThumbRank), n);
      && (0 <= n <= |unique| ==> |r| == n)
      && forall x, y :: x in r && y in unique && y !in r ==> x.timestamp >= y.timestamp
  {
    var s := SortDesc(unique, ThumbRank);
    var r := TakePy(s, n);
    forall x, y | x in r && y in unique && y !in r ensures x.timestamp >= y.timestamp {
      assert y in multiset(s) by { assert y in multiset(unique); }
      var j :| 0 <= j < |s| && s[j] == y;
      var i :| 0 <= i < |r| && r[i] == x;
      assert s[i] == x;
    }
  }

  /** Every unlocked entry of the inputs is a candidate for filling. */
  lemma CandidatesCoverUnlocked(a: seq<Thumbnail>, b: seq<Thumbnail>)
    ensures forall t :: t in a + b && !t.locked ==> t in SortDesc(UnlockedOf(a) + UnlockedOf(b), ThumbRank)
  {
    var u := UnlockedOf(a) + UnlockedOf(b);
    forall t | t in a + b && !t.locked ensures t in SortDesc(u, ThumbRank) {
      assert t in u;
      assert t in multiset(u);
      assert t in multiset(SortDesc(u, ThumbRank));
    }
  }

  /** The filling loop stops only at `max` entries or when every
      candidate's data is held. */
  lemma {:induction false} FillStopsOnlyWhenFull(acc: seq<Thumbnail>, cands: seq<Thumbnail>, maxThumbnails: int)
    requires DistinctData(acc)
    ensures var r := Fill(acc, cands, maxThumbnails);
      |r| >= maxThumbnails || forall c :: c in cands ==> c.data in DataSet(r)
    decreases |cands|
  {
    if cands != [] && |acc| < maxThumbnails {
      var tail := cands[1..];
      assert forall c :: c in cands ==> c == cands[0] || c in tail;
      if cands[0].data in DataSet(acc) {
        FillStopsOnlyWhenFull(acc, tail, maxThumbnails);
        DataSetPrefix(acc, Fill(acc, tail, maxThumbnails));
      } else {
        var acc' := acc + [cands[0]];
        DistinctSnoc(acc, cands[0]);
        FillStopsOnlyWhenFull(acc', tail, maxThumbnails);
        DataSetPrefix(acc', Fill(acc', tail, maxThumbnails));
        DataSetAppend(acc, cands[0]);
      }
    }
  }

  /** Over candidates sorted newest first, whatever the filling loop skips
      with data it does not hold is no newer than anything it added. */
  lemma {:induction false} FillSkipsOnlyOlder(acc: seq<Thumbnail>, cands: seq<Thumbnail>, maxThumbnails: int)
    requires DistinctData(acc) && SortedDesc(cands, ThumbRank)
    ensures var r := Fill(acc, cands, maxThumbnails);
      forall c, i :: c in cands && c.data !in DataSet(r) && |acc| <= i < |r| ==> r[i].timestamp >= c.timestamp
    decreases |cands|
  {
    if cands != [] && |acc| < maxThumbnails {
      var tail := cands[1..];
      SortedTail(cands);
      if cands[0].data in DataSet(acc) {
        var r := Fill(acc, tail, maxThumbnails);
        assert Fill(acc, cands, maxThumbnails) == r;
        FillSkipsOnlyOlder(acc, tail, maxThumbnails);
        DataSetPrefix(acc, r);
        forall c, i | c in cands && c.data !in DataSet(r) && |acc| <= i < |r|
          ensures r[i].timestamp >= c.timestamp
        {
          assert c in tail;
          assert c in tail && c.data !in DataSet(Fill(acc, tail, maxThumbnails)) && |acc| <= i < |Fill(acc, tail, maxThumbnails)|;
        }
      } else {
        var acc' := acc + [cands[0]];
        DistinctSnoc(acc, cands[0]);
        var r := Fill(acc', tail, maxThumbnails);
        FillSkipsOnlyOlder(acc', tail, maxThumbnails);
        DataSetPrefix(acc', r);
        DataSetAppend(acc, cands[0]);
        assert r[|acc|] == cands[0] by { assert r[..|acc'|][|acc|] == r[|acc|]; }
        forall c, i | c in cands && c.data !in DataSet(r) && |acc| <= i < |r|
          ensures r[i].timestamp >= c.timestamp
        {
          assert c in tail;
          if i > |acc| {
            assert c.data !in DataSet(Fill(acc', tail, maxThumbnails)) && |acc'| <= i < |Fill(acc', tail, maxThumbnails)|;
          }
        }
      }
    }
  }

  /** The tail of a list sorted newest first is sorted, and its head is at
      least as new as every entry of the tail. */
  lemma SortedTail(cands: seq<Thumbnail>)
    requires cands != [] && SortedDesc(cands, ThumbRank)
    ensures SortedDesc(cands[1..], ThumbRank)
    ensures forall c :: c in cands[1..] ==> cands[0].timestamp >= c.timestamp
  {
    var tail := cands[1..];
    forall i, j | 0 <= i < j < |tail| ensures RankGe(ThumbRank(tail[i]), ThumbRank(tail[j])) {
      assert tail[i] == cands[i + 1] && tail[j] == cands[j + 1];
    }
    forall c | c in tail ensures cands[0].timestamp >= c.timestamp {
      var j :| 0 <= j < |tail| && tail[j] == c;
      assert cands[j + 1] == c;
    }
  }

  /** Appending an entry with new data keeps the data distinct. */
  lemma DistinctSnoc(acc: seq<Thumbnail>, t: Thumbnail)
    requires DistinctData(acc) && t.data !in DataSet(acc)
    ensures DistinctData(acc + [t])
  {
    forall i | 0 <= i < |acc| ensures acc[i].data != t.data {
      assert acc[i] in acc;
    }
  }

  /** A list that extends another holds at least its data. */
  lemma DataSetPrefix(acc: seq<Thumbnail>, r: seq<Thumbnail>)
    requires |acc| <= |r| && r[..|acc|] == acc
    ensures DataSet(acc) <= DataSet(r)
  {
    forall t | t in acc ensures t in r {
      var i :| 0 <= i < |acc| && acc[i] == t;
      assert r[..|acc|][i] == r[i];
    }
  }

  /** The unlocked candidates are unlocked entries of the inputs. */
  lemma CandidatesUnlocked(a: seq<Thumbnail>, b: seq<Thumbnail>)
    ensures forall t :: t in SortDesc(UnlockedOf(a) + UnlockedOf(b), ThumbRank) ==> t in a + b && !t.locked
  {
    forall t | t in SortDesc(UnlockedOf(a) + UnlockedOf(b), ThumbRank) ensures t in a + b && !t.locked {
      assert t in multiset(UnlockedOf(a) + UnlockedOf(b));
    }
  }

  /** The distinct locked entries are locked entries of the inputs. */
  lemma UniqueLocked(a: seq<Thumbnail>, b: seq<Thumbnail>, unique: seq<Thumbnail>)
    requires unique == DedupInto([], LockedOf(a) + LockedOf(b))
    ensures forall t :: t in unique ==> t.locked && t in a + b
  {
  }

  /** Locked entries followed by unlocked candidates: locked ones first, and
      every entry from `src`. */
  lemma FillLayout(unique: seq<Thumbnail>, cands: seq<Thumbnail>, r: seq<Thumbnail>, src: seq<Thumbnail>)
    requires |unique| <= |r| && r[..|unique|] == unique
    requires forall i :: |unique| <= i < |r| ==> r[i] in cands
    requires forall t :: t in unique ==> t.locked && t in src
    requires forall t :: t in cands ==> t in src && !t.locked
    ensures LockedFirst(r) && forall t :: t in r ==> t in src
  {
    forall i | 0 <= i < |r| ensures (i < |unique| <==> r[i].locked) && r[i] in src {
      if i < |unique| {
        assert r[i] == r[..|unique|][i];
        assert r[i] in unique;
      }
    }
  }

  lemma LockedKept(a: seq<Thumbnail>, b: seq<Thumbnail>, unique: seq<Thumbnail>, r: seq<Thumbnail>)
    requires unique == DedupInto([], LockedOf(a) + LockedOf(b))
    requires |unique| <= |r| && r[..|unique|] == unique
    ensures forall t :: t in a + b && t.locked ==> exists u :: u in r && u.locked && u.data == t.data
  {
    UniqueCoversLocked(a, b, unique);
    forall t | t in a + b && t.locked ensures exists u :: u in r && u.locked && u.data == t.data {
      var u :| u in unique && u.locked && u.data == t.data;
      var i :| 0 <= i < |unique| && unique[i] == u;
      assert r[..|unique|][i] == r[i];
    }
  }

  /** Every locked image of the inputs has a locked entry with its data
      among the distinct locked entries. */
  lemma UniqueCoversLocked(a: seq<Thumbnail>, b: seq<Thumbnail>, unique: seq<Thumbnail>)
    requires unique == DedupInto([], LockedOf(a) + LockedOf(b))
    ensures forall t :: t in a + b && t.locked ==> exists u :: u in unique && u.locked && u.data == t.data
  {
    var locked := LockedOf(a) + LockedOf(b);
    assert DataSet([]) == {};
    forall t | t in a + b && t.locked ensures exists u :: u in unique && u.locked && u.data == t.data {
      assert t in locked;
      assert t.data in DataSet(locked);
      var u :| u in unique && u.data == t.data;
      assert u in locked;
    }
  }


  /** Reordering a list keeps its image data distinct. */
  lemma PermutationKeepsDistinct(s: seq<Thumbnail>, t: seq<Thumbnail>)
    requires multiset(s) == multiset(t)
    requires DistinctData(s)
    ensures DistinctData(t)
  {
    forall i, j | 0 <= i < j < |t| ensures t[i].data != t[j].data {
      if t[i].data == t[j].data {
        assert t[i] in multiset(s) && t[j] in multiset(s);
        var p :| 0 <= p < |s| && s[p] == t[i];
        var q :| 0 <= q < |s| && s[q] == t[j];
        assert p == q;
        // t[i] == t[j] occurs twice in t but only once in s
        assert t == t[..i] + [t[i]] + t[i + 1..j] + [t[j]] + t[j + 1..];
        assert multiset(t)[t[i]] >= 2;
        SingleOccurrence(s, p);
        assert false;
      }
    }
  }

  /** In a list with distinct data, every element occurs exactly once. */
  lemma SingleOccurrence(s: seq<Thumbnail>, p: nat)
    requires DistinctData(s) && p < |s|
    ensures multiset(s)[s[p]] == 1
  {
    assert s == s[..p] + [s[p]] + s[p + 1..];
    assert s[p] !in s[..p] by {
      forall k | 0 <= k < p ensures s[k] != s[p] { assert s[k].data != s[p].data; }
    }
    assert s[p] !in s[p + 1..] by {
      forall k | p + 1 <= k < |s| ensures s[k] != s[p] { assert s[p].data != s[k].data; }
    }
  }

  /** One step of `DedupInto`: the head is kept exactly when its data is new. */
  lemma DedupIntoStep(acc: seq<Thumbnail>, ts: seq<Thumbnail>)
    requires DistinctData(acc) && ts != []
    ensures ts[0].data in DataSet(acc) ==> DedupInto(acc, ts) == DedupInto(acc, ts[1..])
    ensures ts[0].data !in DataSet(acc) ==>
      DistinctData(acc + [ts[0]]) && DedupInto(acc, ts) == DedupInto(acc + [ts[0]], ts[1..])
  {
    if ts[0].data !in DataSet(acc) {
      DataSetAppend(acc, ts[0]);
      forall i | 0 <= i < |acc| ensures acc[i].data != ts[0].data {
        assert acc[i] in acc;
      }
    }
  }

  /** The first loop of `merge_thumbnails`: keep the first thumbnail of each
      image data, remembering the data seen. */
  method DedupByData(locked: seq<Thumbnail>) returns (unique: seq<Thumbnail>, seen: set<string>)
    ensures unique == DedupInto([], locked)
    ensures seen == DataSet(unique)
  {
    seen := {};
    unique := [];
    for i := 0 to |locked|
      invariant DistinctData(unique)
      invariant seen == DataSet(unique)
      invariant DedupInto(unique, locked[i..]) == DedupInto([], locked)
    {
      assert locked[i..][1..] == locked[i + 1..];
      DedupIntoStep(unique, locked[i..]);
      if locked[i].data !in seen {
        DataSetAppend(unique, locked[i]);
        seen := seen + {locked[i].data};
        unique := unique + [locked[i]];
      }
    }
  }

  /** The second loop of `merge_thumbnails`: append candidates with unseen
      data until the list holds `maxThumbnails` entries. */
  method FillUpTo(unique0: seq<Thumbnail>, seen0: set<string>, cands: seq<Thumbnail>, maxThumbnails: int)
    returns (unique: seq<Thumbnail>)
    requires DistinctData(unique0) && seen0 == DataSet(unique0)
    ensures unique == Fill(unique0, cands, maxThumbnails)
  {
    unique := unique0;
    var seen := seen0;
    for i := 0 to |cands|
      invariant DistinctData(unique)
      invariant seen == DataSet(unique)
      invariant Fill(unique, cands[i..], maxThumbnails) == Fill(unique0, cands, maxThumbnails)
    {
      assert cands[i..] == [cands[i]] + cands[i + 1..];
      assert cands[i..][1..] == cands[i + 1..];
      if |unique| >= maxThumbnails {
        break;
      }
      if cands[i].data !in seen {
        DataSetAppend(unique, cands[i]);
        seen := seen + {cands[i].data};
        unique := unique + [cands[i]];
      }
    }
  }

  /** `merge_thumbnails`, proved to compute `MergedThumbnails`. */
  method MergeThumbnails(a: seq<Thumbnail>, b: seq<Thumbnail>, maxThumbnails: int) returns (r: seq<Thumbnail>)
    ensures r == MergedThumbnails(a, b, maxThumbnails)
    ensures 0 <= maxThumbnails ==> |r| <= maxThumbnails
  {
    var locked := LockedOf(a) + LockedOf(b);
    var unique, seen := DedupByData(locked);
    if |unique| > maxThumbnails {
      var sorted := SortDesc(unique, ThumbRank);
      return TakePy(sorted, maxThumbnails);
    }
    if |unique| < maxThumbnails {
      var unlocked := SortDesc(UnlockedOf(a) + UnlockedOf(b), ThumbRank);
      unique := FillUpTo(unique, seen, unlocked, maxThumbnails);
    }
    return unique;
  }
}
