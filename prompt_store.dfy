/** The records of the prompt database (database/db_manager.py) and, as
    functions of a database state, what each `PromptDatabase` operation does
    to it. The class in prompt_database.dfy performs these operations in
    place and is proved to agree with the functions here; the properties of
    the operations are proved here, about the functions.

    Timestamps are integers (seconds) that order as the ISO 8601 strings the
    source stores do; "now" is always a parameter. */
module PromptStore {
  import opened Common
  import opened Sorting
  import opened ImageHandler

  type Hash = string

  /** `_generate_hash`: the SHA-256 digest of the text. The store only ever
      compares digests for equality, so the digest is modelled by an
      injective stand-in, the text itself. */
  function HashOf(text: string): Hash { text }

  datatype HistoryEntry = HistoryEntry(timestamp: int, fullPrompt: string, outputImage: string)

  /** One stored prompt record. */
  datatype Prompt = Prompt(
    id: int,
    text: string,
    category: string,
    tags: seq<string>,
    rating: int,
    notes: string,
    createdAt: int,
    updatedAt: int,
    usedCount: int,
    hash: Hash,
    thumbnails: seq<Thumbnail>,
    history: seq<HistoryEntry>)

  datatype Settings = Settings(autoCleanupEnabled: bool, autoCleanupDays: int, maxThumbnails: int)

  /** The settings of a freshly created database. */
  const DefaultSettings := Settings(true, 30, 3)

  /** What the operations change: the records and the two append-only label
      registries. */
  datatype Store = Store(prompts: seq<Prompt>, categories: seq<string>, tags: seq<string>)

  predicate UniqueIds(ps: seq<Prompt>) {
    forall i, j :: 0 <= i < j < |ps| ==> ps[i].id != ps[j].id
  }

  /** Every record's hash is the hash of its text. */
  predicate HashesMatchText(ps: seq<Prompt>) {
    forall i :: 0 <= i < |ps| ==> ps[i].hash == HashOf(ps[i].text)
  }

  /** The invariant the operations keep: ids are unique and neither registry
      lists a label twice. */
  predicate ValidStore(s: Store) {
    UniqueIds(s.prompts) && NoDups(s.categories) && NoDups(s.tags)
  }

  // ---------------------------------------------------------------------------
  // Ids and lookups
  // ---------------------------------------------------------------------------

  function MaxId(ps: seq<Prompt>): (m: int)
    requires ps != []
    ensures forall i :: 0 <= i < |ps| ==> ps[i].id <= m
    ensures exists i :: 0 <= i < |ps| && ps[i].id == m
  {
    if |ps| == 1 then ps[0].id
    else
      var m := MaxId(ps[1..]);
      assert forall i :: 1 <= i < |ps| ==> ps[i] == ps[1..][i - 1];
      if ps[0].id >= m then ps[0].id else m
  }

  /** `_get_next_id`: 1 for an empty table, else one more than the largest
      id, hence larger than every id in use. */
  function NextId(ps: seq<Prompt>): (r: int)
    ensures ps == [] ==> r == 1
    ensures forall i :: 0 <= i < |ps| ==> ps[i].id < r
    ensures ps != [] ==> exists i :: 0 <= i < |ps| && ps[i].id == r - 1
  {
    if ps == [] then 1 else MaxId(ps) + 1
  }

  /** The position `get_prompt` finds: the first record with that id. */
  function FirstWithId(ps: seq<Prompt>, id: int): (r: Option<nat>)
    ensures r.None? <==> forall i :: 0 <= i < |ps| ==> ps[i].id != id
    ensures r.Some? ==> r.value < |ps| && ps[r.value].id == id
                        && forall j :: 0 <= j < r.value ==> ps[j].id != id
  {
    if ps == [] then None
    else if ps[0].id == id then Some(0)
    else
      assert forall i :: 1 <= i < |ps| ==> ps[i] == ps[1..][i - 1];
      match FirstWithId(ps[1..], id)
      case None => None
      case Some(k) => Some(k + 1)
  }

  /** The position `find_by_hash` finds: the first record with that hash. */
  function FirstWithHash(ps: seq<Prompt>, h: Hash): (r: Option<nat>)
    ensures r.None? <==> forall i :: 0 <= i < |ps| ==> ps[i].hash != h
    ensures r.Some? ==> r.value < |ps| && ps[r.value].hash == h
                        && forall j :: 0 <= j < r.value ==> ps[j].hash != h
  {
    if ps == [] then None
    else if ps[0].hash == h then Some(0)
    else
      assert forall i :: 1 <= i < |ps| ==> ps[i] == ps[1..][i - 1];
      match FirstWithHash(ps[1..], h)
      case None => None
      case Some(k) => Some(k + 1)
  }

  // ---------------------------------------------------------------------------
  // Label registries
  // ---------------------------------------------------------------------------

  /** Appends, in order, each label not yet listed (the loops of the form
      `if x not in registry: registry.append(x)`). The registry only grows,
      ends up listing exactly the old and the new labels, and never lists a
      label twice if it did not before. */
  function Registered(reg: seq<string>, labels: seq<string>): (r: seq<string>)
    ensures |reg| <= |r| && r[..|reg|] == reg
    ensures forall l :: l in r <==> l in reg || l in labels
    ensures NoDups(reg) ==> NoDups(r)
    decreases |labels|
  {
    if labels == [] then reg
    else
      var init := labels[..|labels| - 1];
      var l := labels[|labels| - 1];
      assert labels == init + [l];
      var r0 := Registered(reg, init);
      if l in r0 then r0
      else
        assert (r0 + [l])[..|reg|] == r0[..|reg|];
        r0 + [l]
  }

  /** The labels that are non-empty (truthy), in order. */
  function NonEmptyLabels(ls: seq<string>): (r: seq<string>)
    ensures forall l :: l in r <==> l in ls && l != ""
    decreases |ls|
  {
    if ls == [] then []
    else
      var init := ls[..|ls| - 1];
      assert ls == init + [ls[|ls| - 1]];
      NonEmptyLabels(init) + (if ls[|ls| - 1] != "" then [ls[|ls| - 1]] else [])
  }

  /** One more label: appended exactly when it is not yet listed. */
  lemma RegisteredSnoc(reg: seq<string>, labels: seq<string>, l: string)
    ensures Registered(reg, labels + [l])
         == (if l in Registered(reg, labels) then Registered(reg, labels) else Registered(reg, labels) + [l])
  {
    assert (labels + [l])[..|labels|] == labels;
  }

  /** Registering the non-empty labels among one label. */
  lemma RegisterOne(reg: seq<string>, l: string)
    ensures Registered(reg, NonEmptyLabels([l])) == if l != "" && l !in reg then reg + [l] else reg
  {
    NonEmptyLabelsSnoc([], l);
    assert [] + [l] == [l];
    RegisteredSnoc(reg, [], l);
    assert [] + [l] == [l];
  }

  lemma NonEmptyLabelsSnoc(ls: seq<string>, l: string)
    ensures NonEmptyLabels(ls + [l]) == NonEmptyLabels(ls) + (if l != "" then [l] else [])
  {
    assert (ls + [l])[..|ls|] == ls;
  }

  // ---------------------------------------------------------------------------
  // add_prompt
  // ---------------------------------------------------------------------------

  /** The record `add_prompt` creates. */
  function NewRecord(id: int, text: string, category: string, tags: seq<string>, rating: int,
                     notes: string, thumbnail: Option<Thumbnail>, now: int): Prompt
  {
    Prompt(id, text, category, tags, rating, notes, now, now, 1, HashOf(text),
           if thumbnail.Some? then [thumbnail.value] else [], [])
  }

  /** `add_prompt`: the new state and the id returned. `thumbnail` is the
      thumbnail built from the optional image, if encoding it succeeded. */
  function AddResult(s: Store, text: string, category: string, tags: seq<string>, rating: int,
                     notes: string, thumbnail: Option<Thumbnail>, now: int): (res: (Store, int))
    // a record with the same text hash exists: its id, and no change at all
    ensures FirstWithHash(s.prompts, HashOf(text)).Some? ==>
      && res.0 == s
      && res.1 == s.prompts[FirstWithHash(s.prompts, HashOf(text)).value].id
    // otherwise exactly one record is appended, under a fresh id
    ensures FirstWithHash(s.prompts, HashOf(text)).None? ==>
      && |res.0.prompts| == |s.prompts| + 1
      && res.0.prompts[..|s.prompts|] == s.prompts
      && res.1 == NextId(s.prompts)
      && (forall i :: 0 <= i < |s.prompts| ==> s.prompts[i].id < res.1)
      && var p := res.0.prompts[|s.prompts|];
         && p.id == res.1 && p.text == text && p.hash == HashOf(text)
         && p.category == category && p.tags == tags && p.rating == rating && p.notes == notes
         && p.usedCount == 1 && p.history == [] && p.createdAt == now && p.updatedAt == now
         && p.thumbnails == (if thumbnail.Some? then [thumbnail.value] else [])
    // the non-empty category and the non-empty tags are registered if absent
    ensures FirstWithHash(s.prompts, HashOf(text)).None? ==>
      && res.0.categories == Registered(s.categories, NonEmptyLabels([category]))
      && res.0.tags == Registered(s.tags, NonEmptyLabels(tags))
  {
    match FirstWithHash(s.prompts, HashOf(text))
    case Some(k) => (s, s.prompts[k].id)
    case None =>
      var id := NextId(s.prompts);
      var p := NewRecord(id, text, category, tags, rating, notes, thumbnail, now);
      assert (s.prompts + [p])[..|s.prompts|] == s.prompts;
      (Store(s.prompts + [p],
             Registered(s.categories, NonEmptyLabels([category])),
             Registered(s.tags, NonEmptyLabels(tags))),
       id)
  }

  /** The state after adding a text whose hash is new. */
  lemma AddFreshResult(s: Store, text: string, category: string, tags: seq<string>, rating: int,
                       notes: string, thumbnail: Option<Thumbnail>, now: int)
    requires FirstWithHash(s.prompts, HashOf(text)).None?
    ensures var res := AddResult(s, text, category, tags, rating, notes, thumbnail, now);
      && res.1 == NextId(s.prompts)
      && res.0.prompts == s.prompts + [NewRecord(res.1, text, category, tags, rating, notes, thumbnail, now)]
      && res.0.categories == Registered(s.categories, NonEmptyLabels([category]))
      && res.0.tags == Registered(s.tags, NonEmptyLabels(tags))
  {
  }

  /** Adding keeps ids unique and the registries free of repeats. */
  lemma AddPreservesValid(s: Store, text: string, category: string, tags: seq<string>, rating: int,
                          notes: string, thumbnail: Option<Thumbnail>, now: int)
    requires ValidStore(s)
    ensures ValidStore(AddResult(s, text, category, tags, rating, notes, thumbnail, now).0)
  {
    var res := AddResult(s, text, category, tags, rating, notes, thumbnail, now);
    if FirstWithHash(s.prompts, HashOf(text)).None? {
      var ps := res.0.prompts;
      forall i, j | 0 <= i < j < |ps| ensures ps[i].id != ps[j].id {
        if j < |s.prompts| {
          assert ps[i] == s.prompts[i] && ps[j] == s.prompts[j];
        } else {
          assert ps[i] == ps[..|s.prompts|][i];
        }
      }
    }
  }

  /** Adding keeps every record's hash equal to the hash of its text. */
  lemma AddPreservesHashes(s: Store, text: string, category: string, tags: seq<string>, rating: int,
                           notes: string, thumbnail: Option<Thumbnail>, now: int)
    requires HashesMatchText(s.prompts)
    ensures HashesMatchText(AddResult(s, text, category, tags, rating, notes, thumbnail, now).0.prompts)
  {
    if FirstWithHash(s.prompts, HashOf(text)).None? {
      AddFreshResult(s, text, category, tags, rating, notes, thumbnail, now);
      var p := NewRecord(NextId(s.prompts), text, category, tags, rating, notes, thumbnail, now);
      var ps := s.prompts + [p];
      assert ps == AddResult(s, text, category, tags, rating, notes, thumbnail, now).0.prompts;
      assert p.hash == HashOf(p.text);
      forall i | 0 <= i < |ps| ensures ps[i].hash == HashOf(ps[i].text) {
        if i < |s.prompts| {
          assert ps[i] == s.prompts[i];
        }
      }
    }
  }

  /** Adding the same text twice adds one record: the second call returns the
      first call's id and changes nothing. */
  lemma {:induction false} AddTwiceIsAddOnce(s: Store, text: string, category: string, tags: seq<string>,
                                             rating: int, notes: string, thumbnail: Option<Thumbnail>,
                                             now: int, now2: int)
    ensures var (s1, id1) := AddResult(s, text, category, tags, rating, notes, thumbnail, now);
      AddResult(s1, text, category, tags, rating, notes, thumbnail, now2) == (s1, id1)
  {
    var (s1, id1) := AddResult(s, text, category, tags, rating, notes, thumbnail, now);
    match FirstWithHash(s.prompts, HashOf(text))
    case Some(k) => {
      assert FirstWithHash(s1.prompts, HashOf(text)) == Some(k);
    }
    case None => {
      AddFreshResult(s, text, category, tags, rating, notes, thumbnail, now);
      var p := NewRecord(id1, text, category, tags, rating, notes, thumbnail, now);
      assert s1.prompts == s.prompts + [p];
      FirstWithHashSnoc(s.prompts, p, HashOf(text));
    }
  }

  /** Appending a record with a hash not yet present makes it the first
      record with that hash. */
  lemma FirstWithHashSnoc(ps: seq<Prompt>, p: Prompt, h: Hash)
    requires FirstWithHash(ps, h).None? && p.hash == h
    ensures FirstWithHash(ps + [p], h) == Some(|ps|)
  {
    var k := FirstWithHash(ps + [p], h);
    assert (ps + [p])[|ps|].hash == h;
    assert forall j :: 0 <= j < |ps| ==> (ps + [p])[j] == ps[j];
  }

  // ---------------------------------------------------------------------------
  // update_prompt
  // ---------------------------------------------------------------------------

  /** The optional arguments of `update_prompt`; `None` is "not supplied". */
  datatype PromptUpdate = PromptUpdate(
    text: Option<string>,
    category: Option<string>,
    tags: Option<seq<string>>,
    rating: Option<int>,
    notes: Option<string>)

  /** `max(0, min(5, r))`. */
  function ClampRating(r: int): (c: int)
    ensures 0 <= c <= 5
    ensures 0 <= r <= 5 ==> c == r
    ensures r < 0 ==> c == 0
    ensures r > 5 ==> c == 5
  {
    Max(0, Min(5, r))
  }

  /** The record after a partial update: the supplied fields are replaced (the
      text together with its hash, the rating clamped to 0..5), `updated_at`
      becomes `now`, and nothing else changes. */
  function ApplyUpdate(p: Prompt, u: PromptUpdate, now: int): (q: Prompt)
    ensures q.id == p.id && q.createdAt == p.createdAt && q.usedCount == p.usedCount
    ensures q.thumbnails == p.thumbnails && q.history == p.history
    ensures q.updatedAt == now
    ensures q.text == u.text.GetOr(p.text) && q.category == u.category.GetOr(p.category)
    ensures q.tags == u.tags.GetOr(p.tags) && q.notes == u.notes.GetOr(p.notes)
    ensures u.text.Some? ==> q.hash == HashOf(u.text.value)
    ensures u.text.None? ==> q.hash == p.hash
    ensures u.rating.Some? ==> q.rating == ClampRating(u.rating.value)
    ensures u.rating.None? ==> q.rating == p.rating
  {
    var p1 := if u.text.Some? then p.(text := u.text.value, hash := HashOf(u.text.value)) else p;
    var p2 := if u.category.Some? then p1.(category := u.category.value) else p1;
    var p3 := if u.tags.Some? then p2.(tags := u.tags.value) else p2;
    var p4 := if u.rating.Some? then p3.(rating := ClampRating(u.rating.value)) else p3;
    var p5 := if u.notes.Some? then p4.(notes := u.notes.value) else p4;
    p5.(updatedAt := now)
  }

  /** `update_prompt`: the new state and whether the id was found. */
  function UpdateResult(s: Store, id: int, u: PromptUpdate, now: int): (res: (Store, bool))
    // unknown id: False, and nothing changes
    ensures !res.1 <==> forall i :: 0 <= i < |s.prompts| ==> s.prompts[i].id != id
    ensures !res.1 ==> res.0 == s
    // known id: only the first record with that id changes
    ensures res.1 ==> |res.0.prompts| == |s.prompts|
    ensures res.1 ==>
      exists k :: (&& 0 <= k < |s.prompts| && s.prompts[k].id == id
                   && (forall j :: 0 <= j < k ==> s.prompts[j].id != id)
                   && res.0.prompts[k] == ApplyUpdate(s.prompts[k], u, now)
                   && forall j :: 0 <= j < |s.prompts| && j != k ==> res.0.prompts[j] == s.prompts[j])
    // a supplied category or tag list is registered (even when empty)
    ensures res.1 ==> res.0.categories == (if u.category.Some? then Registered(s.categories, [u.category.value]) else s.categories)
    ensures res.1 ==> res.0.tags == (if u.tags.Some? then Registered(s.tags, u.tags.value) else s.tags)
  {
    match FirstWithId(s.prompts, id)
    case None => (s, false)
    case Some(k) =>
      (Store(s.prompts[k := ApplyUpdate(s.prompts[k], u, now)],
             if u.category.Some? then Registered(s.categories, [u.category.value]) else s.categories,
             if u.tags.Some? then Registered(s.tags, u.tags.value) else s.tags),
       true)
  }

  /** The state after updating a known id. */
  lemma UpdateFoundResult(s: Store, id: int, u: PromptUpdate, now: int)
    requires FirstWithId(s.prompts, id).Some?
    ensures var k := FirstWithId(s.prompts, id).value;
      var res := UpdateResult(s, id, u, now);
      && res.1
      && res.0.prompts == s.prompts[k := ApplyUpdate(s.prompts[k], u, now)]
      && res.0.categories == (if u.category.Some? then Registered(s.categories, [u.category.value]) else s.categories)
      && res.0.tags == (if u.tags.Some? then Registered(s.tags, u.tags.value) else s.tags)
  {
  }

  lemma UpdatePreservesValid(s: Store, id: int, u: PromptUpdate, now: int)
    requires ValidStore(s)
    ensures ValidStore(UpdateResult(s, id, u, now).0)
  {
    var ps := UpdateResult(s, id, u, now).0.prompts;
    forall i, j | 0 <= i < j < |ps| ensures ps[i].id != ps[j].id {
      assert ps[i].id == s.prompts[i].id && ps[j].id == s.prompts[j].id;
    }
  }

  lemma UpdatePreservesHashes(s: Store, id: int, u: PromptUpdate, now: int)
    requires HashesMatchText(s.prompts)
    ensures HashesMatchText(UpdateResult(s, id, u, now).0.prompts)
  {
  }

  /** Hash uniqueness is not an invariant: renaming a record's text to
      another record's text leaves two records with one hash, and adding that
      text afterwards returns the older record's id. */
  lemma UpdateCanDuplicateHash()
    ensures var a := NewRecord(1, "a", "", [], 0, "", None, 0);
      var b := NewRecord(2, "b", "", [], 0, "", None, 0);
      var s := Store([a, b], [], []);
      var (s1, found) := UpdateResult(s, 2, PromptUpdate(Some("a"), None, None, None, None), 5);
      && found
      && s1.prompts[0].hash == s1.prompts[1].hash
      && AddResult(s1, "a", "", [], 0, "", None, 6).1 == 1
  {
    var a := NewRecord(1, "a", "", [], 0, "", None, 0);
    var b := NewRecord(2, "b", "", [], 0, "", None, 0);
    var s := Store([a, b], [], []);
    assert FirstWithId(s.prompts, 2) == Some(1);
    var (s1, _) := UpdateResult(s, 2, PromptUpdate(Some("a"), None, None, None, None), 5);
    assert FirstWithHash(s1.prompts, HashOf("a")) == Some(0);
  }

  // ---------------------------------------------------------------------------
  // delete_prompt
  // ---------------------------------------------------------------------------

  /** The records whose id differs from `id`, in their original order. */
  function WithoutId(ps: seq<Prompt>, id: int): (r: seq<Prompt>)
    ensures |r| <= |ps|
    decreases |ps|
  {
    if ps == [] then []
    else (if ps[0].id != id then [ps[0]] else []) + WithoutId(ps[1..], id)
  }

  /** The records kept are exactly those with another id. */
  lemma {:induction false} WithoutIdMembers(ps: seq<Prompt>, id: int)
    ensures forall p :: p in WithoutId(ps, id) <==> p in ps && p.id != id
    decreases |ps|
  {
    if ps != [] {
      WithoutIdMembers(ps[1..], id);
      assert ps == [ps[0]] + ps[1..];
    }
  }

  /** Nothing is dropped exactly when no record carries `id`. */
  lemma {:induction false} WithoutIdShrinks(ps: seq<Prompt>, id: int)
    ensures |WithoutId(ps, id)| == |ps| <==> forall i :: 0 <= i < |ps| ==> ps[i].id != id
    decreases |ps|
  {
    if ps != [] {
      WithoutIdShrinks(ps[1..], id);
      assert forall i :: 1 <= i < |ps| ==> ps[i] == ps[1..][i - 1];
    }
  }

  lemma {:induction false} WithoutIdAppend(a: seq<Prompt>, b: seq<Prompt>, id: int)
    ensures WithoutId(a + b, id) == WithoutId(a, id) + WithoutId(b, id)
    decreases |a|
  {
    if a == [] {
      assert a + b == b;
    } else {
      assert (a + b)[0] == a[0];
      assert (a + b)[1..] == a[1..] + b;
      WithoutIdAppend(a[1..], b, id);
    }
  }

  lemma {:induction false} WithoutAbsentId(ps: seq<Prompt>, id: int)
    requires forall i :: 0 <= i < |ps| ==> ps[i].id != id
    ensures WithoutId(ps, id) == ps
    decreases |ps|
  {
    if ps != [] {
      WithoutAbsentId(ps[1..], id);
      assert [ps[0]] + ps[1..] == ps;
    }
  }

  /** `delete_prompt`: the new state and whether anything was removed. The
      registries are not touched. */
  function DeleteResult(s: Store, id: int): (res: (Store, bool))
    ensures res.0.categories == s.categories && res.0.tags == s.tags
    ensures forall p :: p in res.0.prompts <==> p in s.prompts && p.id != id
    ensures res.1 <==> exists i :: 0 <= i < |s.prompts| && s.prompts[i].id == id
  {
    var r := WithoutId(s.prompts, id);
    WithoutIdMembers(s.prompts, id);
    WithoutIdShrinks(s.prompts, id);
    (s.(prompts := r), |r| < |s.prompts|)
  }

  /** With unique ids, deleting removes exactly the one record with that id
      and keeps the others in order. */
  lemma DeleteRemovesOne(ps: seq<Prompt>, id: int, k: nat)
    requires UniqueIds(ps)
    requires k < |ps| && ps[k].id == id
    ensures WithoutId(ps, id) == ps[..k] + ps[k + 1..]
  {
    var before, after := ps[..k], ps[k + 1..];
    assert ps == before + ([ps[k]] + after);
    assert WithoutId(before, id) == before by {
      WithoutAbsentId(before, id);
    }
    assert WithoutId(after, id) == after by {
      forall i | 0 <= i < |after| ensures after[i].id != id {
        assert after[i] == ps[k + 1 + i];
      }
      WithoutAbsentId(after, id);
    }
    assert WithoutId([ps[k]] + after, id) == after by {
      WithoutIdAppend([ps[k]], after, id);
      assert [ps[k]][1..] == [];
    }
    WithoutIdAppend(before, [ps[k]] + after, id);
  }

  lemma DeletePreservesValid(s: Store, id: int)
    requires ValidStore(s)
    ensures ValidStore(DeleteResult(s, id).0)
  {
    if k :| 0 <= k < |s.prompts| && s.prompts[k].id == id {
      DeleteRemovesOne(s.prompts, id, k);
      var ps := s.prompts[..k] + s.prompts[k + 1..];
      forall i, j | 0 <= i < j < |ps| ensures ps[i].id != ps[j].id {
        var i' := if i < k then i else i + 1;
        var j' := if j < k then j else j + 1;
        assert ps[i] == s.prompts[i'] && ps[j] == s.prompts[j'];
      }
    } else {
      WithoutAbsentId(s.prompts, id);
    }
  }

  /** Ids are not "never reused": deleting the newest record frees its id,
      and the next record added gets it again. */
  lemma IdReusedAfterDeletingNewest(ps: seq<Prompt>, p: Prompt)
    requires p.id == NextId(ps)
    ensures WithoutId(ps + [p], p.id) == ps
    ensures NextId(WithoutId(ps + [p], p.id)) == p.id
  {
    WithoutIdAppend(ps, [p], p.id);
    WithoutAbsentId(ps, p.id);
    assert WithoutId([p], p.id) == [] by {
      assert [p][1..] == [];
    }
  }

  // ---------------------------------------------------------------------------
  // search_prompts
  // ---------------------------------------------------------------------------

  /** The arguments of `search_prompts`; an empty text, category or tag list
      stands for "not given" (the source treats `None` and empty alike). */
  datatype SearchFilter = SearchFilter(text: string, category: string, tags: seq<string>,
                                       minRating: int, maxResults: int)

  /** The four conjunctive filters of `search_prompts`. */
  predicate MatchesFilter(p: Prompt, f: SearchFilter) {
    && p.rating >= f.minRating
    && (f.category == "" || p.category == f.category)
    && (f.tags == [] || exists t :: t in f.tags && t in p.tags)
    && (f.text == "" || Contains(Lower(p.text), Lower(f.text)) || Contains(Lower(p.notes), Lower(f.text)))
  }

  /** The matching records, in storage order. */
  function Matches(ps: seq<Prompt>, f: SearchFilter): (r: seq<Prompt>)
    ensures |r| <= |ps|
    decreases |ps|
  {
    if ps == [] then []
    else
      var init := ps[..|ps| - 1];
      var p := ps[|ps| - 1];
      Matches(init, f) + (if MatchesFilter(p, f) then [p] else [])
  }

  /** A record is among the matches exactly when it is stored and passes
      every filter. */
  lemma {:induction false} MatchesMembers(ps: seq<Prompt>, f: SearchFilter)
    ensures forall p :: p in Matches(ps, f) <==> p in ps && MatchesFilter(p, f)
    decreases |ps|
  {
    if ps != [] {
      var init := ps[..|ps| - 1];
      MatchesMembers(init, f);
      assert ps == init + [ps[|ps| - 1]];
    }
  }

  /** Once the matches of a prefix reach the limit, they are the first
      matches. */
  lemma StopAtLimit(ps: seq<Prompt>, n: nat, f: SearchFilter)
    requires n <= |ps|
    requires Matches(ps[..n], f) != []
    requires f.maxResults <= |Matches(ps[..n], f)| <= SearchCap(f.maxResults)
    ensures Matches(ps[..n], f) == FirstMatches(ps, f)
  {
    MatchesPrefix(ps, n, f);
    assert |Matches(ps[..n], f)| == SearchCap(f.maxResults);
  }

  /** The matches of one more record of a prefix. */
  lemma MatchesSnocAt(ps: seq<Prompt>, i: nat, f: SearchFilter)
    requires i < |ps|
    ensures Matches(ps[..i + 1], f) == Matches(ps[..i], f) + (if MatchesFilter(ps[i], f) then [ps[i]] else [])
  {
    var t := ps[..i + 1];
    assert t[..|t| - 1] == ps[..i];
    assert t[|t| - 1] == ps[i];
  }

  lemma {:induction false} MatchesPrefix(ps: seq<Prompt>, i: nat, f: SearchFilter)
    requires i <= |ps|
    ensures |Matches(ps[..i], f)| <= |Matches(ps, f)|
    ensures Matches(ps[..i], f) == Matches(ps, f)[..|Matches(ps[..i], f)|]
    decreases |ps| - i
  {
    if i == |ps| {
      assert ps[..i] == ps;
    } else {
      var init := ps[..|ps| - 1];
      assert init[..i] == ps[..i];
      MatchesPrefix(init, i, f);
    }
  }

  /** The loop stops once it holds `max_results` records, after appending, so
      a limit below 1 still lets the first match through. */
  function SearchCap(maxResults: int): int { Max(1, maxResults) }

  /** The key of `sort(key=lambda p: (p['rating'], p['used_count']))`. */
  function SearchRank(p: Prompt): Rank { Rank(p.rating, p.usedCount) }

  /** The first matches in storage order, as many as the limit allows. */
  function FirstMatches(ps: seq<Prompt>, f: SearchFilter): seq<Prompt> {
    var m := Matches(ps, f);
    m[..Min(SearchCap(f.maxResults), |m|)]
  }

  /** `search_prompts`: the first matches, sorted by (rating, used_count),
      highest first. */
  function SearchResults(ps: seq<Prompt>, f: SearchFilter): (r: seq<Prompt>)
    ensures |r| == Min(|Matches(ps, f)|, SearchCap(f.maxResults))
    ensures f.maxResults >= 1 ==> |r| <= f.maxResults
    ensures forall p :: p in r ==> p in ps && MatchesFilter(p, f)
    ensures SortedDesc(r, SearchRank)
    ensures multiset(r) == multiset(Matches(ps, f)[..|r|])
  {
    var m := Matches(ps, f);
    var first := m[..Min(SearchCap(f.maxResults), |m|)];
    var r := SortDesc(first, SearchRank);
    MatchesMembers(ps, f);
    forall p | p in r ensures p in ps && MatchesFilter(p, f) {
      assert p in multiset(first);
      assert p in first;
    }
    r
  }

  lemma SearchSortsFirstMatches(ps: seq<Prompt>, f: SearchFilter)
    ensures SearchResults(ps, f) == SortDesc(FirstMatches(ps, f), SearchRank)
  {
  }

  /** Filter conjunction: with a limit that does not bind, the result holds
      exactly the records that pass every filter, each as often as stored. */
  lemma SearchReturnsAllMatches(ps: seq<Prompt>, f: SearchFilter)
    requires f.maxResults >= |ps|
    ensures multiset(SearchResults(ps, f)) == multiset(Matches(ps, f))
    ensures forall p :: p in SearchResults(ps, f) <==> p in ps && MatchesFilter(p, f)
  {
    var m := Matches(ps, f);
    var r := SearchResults(ps, f);
    MatchesMembers(ps, f);
    assert m[..|r|] == m;
    forall p | p in ps && MatchesFilter(p, f) ensures p in r {
      assert p in multiset(m);
    }
  }

  // ---------------------------------------------------------------------------
  // get_latest_prompt_by_category
  // ---------------------------------------------------------------------------

  function UpdatedRank(p: Prompt): Rank { Rank(p.updatedAt, 0) }

  /** The records of one category, in storage order. */
  function InCategory(ps: seq<Prompt>, category: string): (r: seq<Prompt>)
    ensures |r| <= |ps|
  {
    if ps == [] then []
    else (if ps[0].category == category then [ps[0]] else []) + InCategory(ps[1..], category)
  }

  lemma {:induction false} InCategoryMembers(ps: seq<Prompt>, category: string)
    ensures forall p :: p in InCategory(ps, category) <==> p in ps && p.category == category
    decreases |ps|
  {
    if ps != [] {
      InCategoryMembers(ps[1..], category);
      assert ps == [ps[0]] + ps[1..];
    }
  }

  /** `get_latest_prompt_by_category`: None exactly when the category holds no
      record; otherwise a record of that category updated no earlier than any
      other record of it. */
  function LatestByCategory(ps: seq<Prompt>, category: string): (r: Option<Prompt>)
    ensures r.None? <==> forall p :: p in ps ==> p.category != category
    ensures r.Some? ==> r.value in ps && r.value.category == category
    ensures r.Some? ==> forall p :: p in ps && p.category == category ==> p.updatedAt <= r.value.updatedAt
  {
    var cs := InCategory(ps, category);
    InCategoryMembers(ps, category);
    if cs == [] then None
    else
      SortDescHeadIsMax(cs, UpdatedRank);
      Some(SortDesc(cs, UpdatedRank)[0])
  }

  /** `p` sits at position `k` of `cs` and was updated strictly later than
      every record listed before it. */
  predicate FirstMostRecentAt(cs: seq<Prompt>, k: int, p: Prompt) {
    0 <= k < |cs| && cs[k] == p && forall j :: 0 <= j < k ==> cs[j].updatedAt < p.updatedAt
  }

  /** Ties go to the record stored first: the sort is stable, so every record
      of the category listed before the one returned was updated strictly
      earlier. */
  lemma LatestIsFirstMostRecent(ps: seq<Prompt>, category: string)
    requires LatestByCategory(ps, category).Some?
    ensures exists k :: FirstMostRecentAt(InCategory(ps, category), k, LatestByCategory(ps, category).value)
  {
    var cs := InCategory(ps, category);
    var r := LatestByCategory(ps, category).value;
    assert r == SortDesc(cs, UpdatedRank)[0];
    SortDescHeadIsFirstMax(cs, UpdatedRank);
    var k :| 0 <= k < |cs| && SortDesc(cs, UpdatedRank)[0] == cs[k]
             && forall j :: 0 <= j < k ==> !RankGe(UpdatedRank(cs[j]), UpdatedRank(cs[k]));
    forall j | 0 <= j < k ensures cs[j].updatedAt < r.updatedAt {
      assert !RankGe(UpdatedRank(cs[j]), UpdatedRank(cs[k]));
    }
    assert FirstMostRecentAt(cs, k, r);
  }

  // ---------------------------------------------------------------------------
  // cleanup_old_unrated
  // ---------------------------------------------------------------------------

  const SecondsPerDay := 86400

  /** A record survives the clean-up if it is rated or newer than the cutoff. */
  predicate SurvivesCleanup(p: Prompt, cutoff: int) {
    p.rating > 0 || p.createdAt > cutoff
  }

  /** The records that survive, in storage order. */
  function KeptAfterCleanup(ps: seq<Prompt>, cutoff: int): (r: seq<Prompt>)
    ensures |r| <= |ps|
  {
    if ps == [] then []
    else (if SurvivesCleanup(ps[0], cutoff) then [ps[0]] else []) + KeptAfterCleanup(ps[1..], cutoff)
  }

  lemma {:induction false} KeptAfterCleanupMembers(ps: seq<Prompt>, cutoff: int)
    ensures forall p :: p in KeptAfterCleanup(ps, cutoff) <==> p in ps && SurvivesCleanup(p, cutoff)
    decreases |ps|
  {
    if ps != [] {
      KeptAfterCleanupMembers(ps[1..], cutoff);
      assert ps == [ps[0]] + ps[1..];
    }
  }

  lemma {:induction false} KeptAfterCleanupSnoc(ps: seq<Prompt>, p: Prompt, cutoff: int)
    ensures KeptAfterCleanup(ps + [p], cutoff)
         == KeptAfterCleanup(ps, cutoff) + (if SurvivesCleanup(p, cutoff) then [p] else [])
    decreases |ps|
  {
    if ps == [] {
      assert [] + [p] == [p];
      assert [p][1..] == [];
    } else {
      var head := if SurvivesCleanup(ps[0], cutoff) then [ps[0]] else [];
      var mid := KeptAfterCleanup(ps[1..], cutoff);
      var tail := if SurvivesCleanup(p, cutoff) then [p] else [];
      assert (ps + [p])[0] == ps[0];
      assert (ps + [p])[1..] == ps[1..] + [p];
      assert KeptAfterCleanup(ps + [p], cutoff) == head + KeptAfterCleanup(ps[1..] + [p], cutoff);
      KeptAfterCleanupSnoc(ps[1..], p, cutoff);
      assert KeptAfterCleanup(ps, cutoff) == head + mid;
      assert head + (mid + tail) == (head + mid) + tail;
    }
  }

  /** How many records the clean-up drops. */
  function CountDropped(ps: seq<Prompt>, cutoff: int): nat {
    if ps == [] then 0
    else (if SurvivesCleanup(ps[0], cutoff) then 0 else 1) + CountDropped(ps[1..], cutoff)
  }

  /** `cleanup_old_unrated`: the records left and the number removed. */
  function CleanupResult(ps: seq<Prompt>, settings: Settings, now: int): (res: (seq<Prompt>, int))
    ensures !settings.autoCleanupEnabled ==> res == (ps, 0)
    ensures settings.autoCleanupEnabled ==>
      var cutoff := now - settings.autoCleanupDays * SecondsPerDay;
      && res.0 == KeptAfterCleanup(ps, cutoff)
      && (forall p :: p in res.0 <==> p in ps && SurvivesCleanup(p, cutoff))
      && res.1 == |ps| - |res.0| == CountDropped(ps, cutoff)
  {
    if !settings.autoCleanupEnabled then (ps, 0)
    else
      var cutoff := now - settings.autoCleanupDays * SecondsPerDay;
      var kept := KeptAfterCleanup(ps, cutoff);
      KeptAfterCleanupMembers(ps, cutoff);
      CleanupCount(ps, cutoff);
      (kept, |ps| - |kept|)
  }

  /** Cleaning up twice with the same settings and clock removes nothing
      the second time: the survivors of the first pass all survive again. */
  lemma CleanupIdempotent(ps: seq<Prompt>, settings: Settings, now: int)
    ensures var once := CleanupResult(ps, settings, now);
      CleanupResult(once.0, settings, now) == (once.0, 0)
  {
    if settings.autoCleanupEnabled {
      KeptAfterCleanupTwice(ps, now - settings.autoCleanupDays * SecondsPerDay);
    }
  }

  lemma {:induction false} KeptAfterCleanupTwice(ps: seq<Prompt>, cutoff: int)
    ensures KeptAfterCleanup(KeptAfterCleanup(ps, cutoff), cutoff) == KeptAfterCleanup(ps, cutoff)
    decreases |ps|
  {
    if ps != [] {
      var rest := KeptAfterCleanup(ps[1..], cutoff);
      KeptAfterCleanupTwice(ps[1..], cutoff);
      if SurvivesCleanup(ps[0], cutoff) {
        assert ([ps[0]] + rest)[0] == ps[0];
        assert ([ps[0]] + rest)[1..] == rest;
      } else {
        assert [] + rest == rest;
      }
    }
  }

  lemma {:induction false} CleanupCount(ps: seq<Prompt>, cutoff: int)
    ensures |KeptAfterCleanup(ps, cutoff)| + CountDropped(ps, cutoff) == |ps|
  {
    if ps != [] {
      CleanupCount(ps[1..], cutoff);
    }
  }

  /** The clean-up keeps ids unique: every survivor's position in the kept
      list maps to a distinct position in the original. */
  lemma {:induction false} CleanupPreservesUniqueIds(ps: seq<Prompt>, cutoff: int)
    requires UniqueIds(ps)
    ensures UniqueIds(KeptAfterCleanup(ps, cutoff))
  {
    if ps != [] {
      CleanupPreservesUniqueIds(ps[1..], cutoff);
      var rest := KeptAfterCleanup(ps[1..], cutoff);
      KeptAfterCleanupMembers(ps[1..], cutoff);
      forall q | q in rest ensures q.id != ps[0].id {
        var j :| 0 <= j < |ps[1..]| && ps[1..][j] == q;
        assert ps[j + 1] == q;
      }
    }
  }

  // ---------------------------------------------------------------------------
  // merge_database
  // ---------------------------------------------------------------------------

  /** The already-parsed contents of another database file. */
  datatype Snapshot = Snapshot(prompts: seq<Prompt>, categories: seq<string>, tags: seq<string>)

  /** `merge_database`'s statistics; `skipped` is never incremented. */
  datatype MergeStats = MergeStats(added: nat, merged: nat, skipped: nat)

  /** An incoming record folded into the stored record with the same hash:
      the higher rating, the summed use count, the earlier creation time,
      merged thumbnails, concatenated history, and `updated_at` = now. Id,
      text, hash, category, tags and notes stay those of the stored record. */
  function FoldInto(e: Prompt, o: Prompt, maxThumbnails: int, now: int): Prompt
  {
    e.(rating := Max(e.rating, o.rating),
       usedCount := e.usedCount + o.usedCount,
       createdAt := Min(e.createdAt, o.createdAt),
       thumbnails := MergedThumbnails(e.thumbnails, o.thumbnails, maxThumbnails),
       history := e.history + o.history,
       updatedAt := now)
  }

  /** `FoldInto` with the merged thumbnails already computed. */
  lemma FoldIntoWith(e: Prompt, o: Prompt, maxThumbnails: int, now: int, thumbnails: seq<Thumbnail>)
    requires thumbnails == MergedThumbnails(e.thumbnails, o.thumbnails, maxThumbnails)
    ensures FoldInto(e, o, maxThumbnails, now)
         == e.(rating := Max(e.rating, o.rating), usedCount := e.usedCount + o.usedCount,
               createdAt := Min(e.createdAt, o.createdAt), thumbnails := thumbnails,
               history := e.history + o.history, updatedAt := now)
  {
  }

  /** One incoming record: appended under a fresh id if its hash is new (the
      `true` case), else folded into the first stored record with its hash. */
  function MergeStep(ps: seq<Prompt>, o: Prompt, maxThumbnails: int, now: int): (res: (seq<Prompt>, bool))
    ensures res.1 <==> forall i :: 0 <= i < |ps| ==> ps[i].hash != o.hash
    ensures res.1 ==> res.0 == ps + [o.(id := NextId(ps))]
    ensures !res.1 ==>
      var k := FirstWithHash(ps, o.hash).value;
      res.0 == ps[k := FoldInto(ps[k], o, maxThumbnails, now)]
  {
    match FirstWithHash(ps, o.hash)
    case None => (ps + [o.(id := NextId(ps))], true)
    case Some(k) => (ps[k := FoldInto(ps[k], o, maxThumbnails, now)], false)
  }

  /** The loop of `merge_database` over the incoming records: the records
      afterwards and the added and merged counts. */
  function MergePrompts(ps: seq<Prompt>, incoming: seq<Prompt>, maxThumbnails: int, now: int): (res: (seq<Prompt>, nat, nat))
    // every incoming record is counted once
    ensures res.1 + res.2 == |incoming|
    // only added records lengthen the table
    ensures |res.0| == |ps| + res.1
    decreases |incoming|
  {
    if incoming == [] then (ps, 0, 0)
    else
      var init := incoming[..|incoming| - 1];
      var o := incoming[|incoming| - 1];
      var (q, added, merged) := MergePrompts(ps, init, maxThumbnails, now);
      var (q', wasAdded) := MergeStep(q, o, maxThumbnails, now);
      (q', if wasAdded then added + 1 else added, if wasAdded then merged else merged + 1)
  }

  /** Merging removes nothing and re-identifies nothing: every stored record
      keeps its position, id, hash and text, and ids stay unique. */
  lemma {:induction false} MergeKeepsStored(ps: seq<Prompt>, incoming: seq<Prompt>, maxThumbnails: int, now: int)
    ensures var q := MergePrompts(ps, incoming, maxThumbnails, now).0;
      && (forall i :: 0 <= i < |ps| ==> q[i].id == ps[i].id && q[i].hash == ps[i].hash && q[i].text == ps[i].text)
      && (UniqueIds(ps) ==> UniqueIds(q))
    decreases |incoming|
  {
    if incoming != [] {
      var init := incoming[..|incoming| - 1];
      var o := incoming[|incoming| - 1];
      MergeKeepsStored(ps, init, maxThumbnails, now);
      var q := MergePrompts(ps, init, maxThumbnails, now).0;
      MergeStepKeeps(q, o, maxThumbnails, now);
    }
  }

  /** Some stored record carries hash `h`. */
  predicate HasHash(ps: seq<Prompt>, h: Hash) {
    exists i :: 0 <= i < |ps| && ps[i].hash == h
  }

  /** The last incoming record is one `MergeStep` on top of the others. */
  lemma MergePromptsLast(ps: seq<Prompt>, incoming: seq<Prompt>, maxThumbnails: int, now: int)
    requires incoming != []
    ensures var prev := MergePrompts(ps, incoming[..|incoming| - 1], maxThumbnails, now);
      var step := MergeStep(prev.0, incoming[|incoming| - 1], maxThumbnails, now);
      var res := MergePrompts(ps, incoming, maxThumbnails, now);
      && res.0 == step.0
      && res.1 == (if step.1 then prev.1 + 1 else prev.1)
      && res.2 == (if step.1 then prev.2 else prev.2 + 1)
  {
  }

  /** `MergePromptsLast` for a prefix of the incoming records. */
  lemma MergePromptsPrefix(ps: seq<Prompt>, incoming: seq<Prompt>, i: nat, maxThumbnails: int, now: int)
    requires i < |incoming|
    ensures var prev := MergePrompts(ps, incoming[..i], maxThumbnails, now);
      var step := MergeStep(prev.0, incoming[i], maxThumbnails, now);
      var res := MergePrompts(ps, incoming[..i + 1], maxThumbnails, now);
      && res.0 == step.0
      && res.1 == (if step.1 then prev.1 + 1 else prev.1)
      && res.2 == (if step.1 then prev.2 else prev.2 + 1)
  {
    var t := incoming[..i + 1];
    assert t[..|t| - 1] == incoming[..i];
    assert t[|t| - 1] == incoming[i];
    MergePromptsLast(ps, t, maxThumbnails, now);
  }

  /** After merging, every incoming text's hash is stored. */
  lemma {:induction false} MergeCoversIncoming(ps: seq<Prompt>, incoming: seq<Prompt>, maxThumbnails: int, now: int)
    ensures forall j :: 0 <= j < |incoming| ==> HasHash(MergePrompts(ps, incoming, maxThumbnails, now).0, incoming[j].hash)
    decreases |incoming|
  {
    if incoming != [] {
      var init := incoming[..|incoming| - 1];
      var o := incoming[|incoming| - 1];
      var prev := MergePrompts(ps, init, maxThumbnails, now);
      MergeCoversIncoming(ps, init, maxThumbnails, now);
      MergePromptsLast(ps, incoming, maxThumbnails, now);
      MergeStepKeeps(prev.0, o, maxThumbnails, now);
      KeepsCover(prev.0, MergePrompts(ps, incoming, maxThumbnails, now).0, init, incoming);
    }
  }

  /** A table that keeps the hashes of `q` in place and holds the hash of
      the last incoming record holds every incoming hash, when `q` held those
      of the records before it. */
  lemma KeepsCover(q: seq<Prompt>, q': seq<Prompt>, init: seq<Prompt>, incoming: seq<Prompt>)
    requires incoming != [] && init == incoming[..|incoming| - 1]
    requires |q| <= |q'| && forall i :: 0 <= i < |q| ==> q'[i].hash == q[i].hash
    requires HasHash(q', incoming[|incoming| - 1].hash)
    requires forall j :: 0 <= j < |init| ==> HasHash(q, init[j].hash)
    ensures forall j :: 0 <= j < |incoming| ==> HasHash(q', incoming[j].hash)
  {
    forall j | 0 <= j < |init| ensures HasHash(q', incoming[j].hash) {
      assert incoming[j] == init[j];
      var i :| 0 <= i < |q| && q[i].hash == init[j].hash;
      assert q'[i].hash == q[i].hash;
    }
  }

  /** One merge step keeps every stored record's id, hash and text in place,
      keeps ids unique, and leaves the incoming hash present. */
  lemma MergeStepKeeps(ps: seq<Prompt>, o: Prompt, maxThumbnails: int, now: int)
    ensures var q := MergeStep(ps, o, maxThumbnails, now).0;
      && |ps| <= |q|
      && (forall i :: 0 <= i < |ps| ==> q[i].id == ps[i].id && q[i].hash == ps[i].hash && q[i].text == ps[i].text)
      && (UniqueIds(ps) ==> UniqueIds(q))
      && HasHash(q, o.hash)
  {
    match FirstWithHash(ps, o.hash)
    case None =>
      SnocKeeps(ps, o.(id := NextId(ps)));
    case Some(k) =>
      UpdateKeeps(ps, k, FoldInto(ps[k], o, maxThumbnails, now));
  }

  /** Appending a record with an id not in use keeps the stored records
      and the uniqueness of ids, and stores its hash. */
  lemma SnocKeeps(ps: seq<Prompt>, p: Prompt)
    requires forall i :: 0 <= i < |ps| ==> ps[i].id != p.id
    ensures var q := ps + [p];
      && |ps| <= |q|
      && (forall i :: 0 <= i < |ps| ==> q[i].id == ps[i].id && q[i].hash == ps[i].hash && q[i].text == ps[i].text)
      && (UniqueIds(ps) ==> UniqueIds(q))
      && HasHash(q, p.hash)
  {
    var q := ps + [p];
    assert q[|ps|] == p;
    assert forall i :: 0 <= i < |ps| ==> q[i] == ps[i];
  }

  /** Replacing a record by one with the same id, hash and text keeps the
      identities of all records and stores that hash. */
  lemma UpdateKeeps(ps: seq<Prompt>, k: int, e: Prompt)
    requires 0 <= k < |ps| && e.id == ps[k].id && e.hash == ps[k].hash && e.text == ps[k].text
    ensures var q := ps[k := e];
      && |ps| <= |q|
      && (forall i :: 0 <= i < |ps| ==> q[i].id == ps[i].id && q[i].hash == ps[i].hash && q[i].text == ps[i].text)
      && (UniqueIds(ps) ==> UniqueIds(q))
      && HasHash(q, e.hash)
  {
    assert ps[k := e][k] == e;
  }


  /** `merge_database` on already-parsed data: the new state and statistics.
      The registries become the duplicate-free union of both sides. */
  function MergeResult(s: Store, other: Snapshot, maxThumbnails: int, now: int): (res: (Store, MergeStats))
    ensures res.1.added + res.1.merged == |other.prompts| && res.1.skipped == 0
    ensures |res.0.prompts| == |s.prompts| + res.1.added
    ensures forall l :: l in res.0.categories <==> l in s.categories || l in other.categories
    ensures forall l :: l in res.0.tags <==> l in s.tags || l in other.tags
    ensures ValidStore(s) ==> ValidStore(res.0)
  {
    var (ps, added, merged) := MergePrompts(s.prompts, other.prompts, maxThumbnails, now);
    MergeKeepsStored(s.prompts, other.prompts, maxThumbnails, now);
    (Store(ps, Registered(s.categories, other.categories), Registered(s.tags, other.tags)),
     MergeStats(added, merged, 0))
  }

  /** Merging is not idempotent: when every incoming hash is already stored
      (for instance on importing the same file a second time), nothing is
      added and every incoming record is merged again. */
  lemma {:induction false} RemergeAddsNothing(ps: seq<Prompt>, incoming: seq<Prompt>, maxThumbnails: int, now: int)
    requires forall j :: 0 <= j < |incoming| ==> HasHash(ps, incoming[j].hash)
    ensures MergePrompts(ps, incoming, maxThumbnails, now).1 == 0
    ensures MergePrompts(ps, incoming, maxThumbnails, now).2 == |incoming|
    decreases |incoming|
  {
    if incoming != [] {
      var init := incoming[..|incoming| - 1];
      var o := incoming[|incoming| - 1];
      assert forall j :: 0 <= j < |init| ==> init[j] == incoming[j];
      RemergeAddsNothing(ps, init, maxThumbnails, now);
      MergeKeepsStored(ps, init, maxThumbnails, now);
      MergePromptsLast(ps, incoming, maxThumbnails, now);
      var q := MergePrompts(ps, init, maxThumbnails, now).0;
      assert HasHash(ps, o.hash);
      var i :| 0 <= i < |ps| && ps[i].hash == o.hash;
      assert q[i].hash == o.hash;
      assert !MergeStep(q, o, maxThumbnails, now).1;
    }
  }

  // ---------------------------------------------------------------------------
  // get_statistics
  // ---------------------------------------------------------------------------

  datatype Stats = Stats(totalPrompts: nat, totalCategories: nat, totalTags: nat,
                         ratedPrompts: nat, unratedPrompts: nat,
                         promptsWithThumbnails: nat, totalGenerations: int)

  function CountRated(ps: seq<Prompt>): (n: nat)
    ensures n <= |ps|
  {
    if ps == [] then 0 else (if ps[0].rating > 0 then 1 else 0) + CountRated(ps[1..])
  }

  function CountUnrated(ps: seq<Prompt>): (n: nat)
    ensures n <= |ps|
  {
    if ps == [] then 0 else (if ps[0].rating == 0 then 1 else 0) + CountUnrated(ps[1..])
  }

  function CountWithThumbnails(ps: seq<Prompt>): (n: nat)
    ensures n <= |ps|
  {
    if ps == [] then 0 else (if ps[0].thumbnails != [] then 1 else 0) + CountWithThumbnails(ps[1..])
  }

  function SumUsedCount(ps: seq<Prompt>): int {
    if ps == [] then 0 else ps[0].usedCount + SumUsedCount(ps[1..])
  }

  /** `get_statistics`: sizes, the records rated above 0, those rated 0,
      those with at least one thumbnail, and the sum of the use counts. */
  function Statistics(s: Store): (st: Stats)
    ensures st.totalPrompts == |s.prompts| && st.totalCategories == |s.categories| && st.totalTags == |s.tags|
    ensures st.ratedPrompts == CountRated(s.prompts) && st.unratedPrompts == CountUnrated(s.prompts)
    ensures st.promptsWithThumbnails == CountWithThumbnails(s.prompts)
    ensures st.totalGenerations == SumUsedCount(s.prompts)
    ensures st.ratedPrompts <= st.totalPrompts && st.promptsWithThumbnails <= st.totalPrompts
    ensures st.ratedPrompts + st.unratedPrompts <= st.totalPrompts
  {
    RatedUnratedSplit(s.prompts);
    Stats(|s.prompts|, |s.categories|, |s.tags|, CountRated(s.prompts), CountUnrated(s.prompts),
          CountWithThumbnails(s.prompts), SumUsedCount(s.prompts))
  }

  /** Rated and unrated records never overlap, and they cover the table when
      no rating is negative. */
  lemma {:induction false} RatedUnratedSplit(ps: seq<Prompt>)
    ensures CountRated(ps) + CountUnrated(ps) <= |ps|
    ensures (forall i :: 0 <= i < |ps| ==> ps[i].rating >= 0) ==> CountRated(ps) + CountUnrated(ps) == |ps|
  {
    if ps != [] {
      RatedUnratedSplit(ps[1..]);
      assert forall i :: 1 <= i < |ps| ==> ps[i] == ps[1..][i - 1];
    }
  }

  /** Each count grows by the appended record's own contribution. */
  lemma {:induction false} CountsAppend(ps: seq<Prompt>, p: Prompt)
    ensures CountRated(ps + [p]) == CountRated(ps) + (if p.rating > 0 then 1 else 0)
    ensures CountUnrated(ps + [p]) == CountUnrated(ps) + (if p.rating == 0 then 1 else 0)
    ensures CountWithThumbnails(ps + [p]) == CountWithThumbnails(ps) + (if p.thumbnails != [] then 1 else 0)
    decreases |ps|
  {
    if ps == [] {
      assert [] + [p] == [p];
    } else {
      assert (ps + [p])[1..] == ps[1..] + [p];
      CountsAppend(ps[1..], p);
    }
  }

  /** What `add_prompt` does to `get_statistics`: a known text leaves every
      figure as it was; a new one adds one record, one generation, one rated
      or unrated record by its rating, and one record with thumbnails when
      an image was encoded. */
  lemma AddUpdatesStatistics(s: Store, text: string, category: string, tags: seq<string>, rating: int,
                             notes: string, thumbnail: Option<Thumbnail>, now: int)
    ensures var before := Statistics(s);
      var after := Statistics(AddResult(s, text, category, tags, rating, notes, thumbnail, now).0);
      && (FirstWithHash(s.prompts, HashOf(text)).Some? ==> after == before)
      && (FirstWithHash(s.prompts, HashOf(text)).None? ==>
            && after.totalPrompts == before.totalPrompts + 1
            && after.totalGenerations == before.totalGenerations + 1
            && after.ratedPrompts == before.ratedPrompts + (if rating > 0 then 1 else 0)
            && after.unratedPrompts == before.unratedPrompts + (if rating == 0 then 1 else 0)
            && after.promptsWithThumbnails == before.promptsWithThumbnails + (if thumbnail.Some? then 1 else 0))
  {
    if FirstWithHash(s.prompts, HashOf(text)).None? {
      var p := NewRecord(NextId(s.prompts), text, category, tags, rating, notes, thumbnail, now);
      AddFreshResult(s, text, category, tags, rating, notes, thumbnail, now);
      CountsAppend(s.prompts, p);
      SumUsedCountAppend(s.prompts, p);
    }
  }

  /** The total of use counts grows by the appended record's use count. */
  lemma {:induction false} SumUsedCountAppend(ps: seq<Prompt>, p: Prompt)
    ensures SumUsedCount(ps + [p]) == SumUsedCount(ps) + p.usedCount
    decreases |ps|
  {
    if ps == [] {
      assert [] + [p] == [p];
    } else {
      assert (ps + [p])[1..] == ps[1..] + [p];
      SumUsedCountAppend(ps[1..], p);
    }
  }

  /** Merging keeps the total number of generations: the use counts of merged
      records are summed into the stored ones and added records bring theirs. */
  lemma {:induction false} MergeKeepsGenerations(ps: seq<Prompt>, incoming: seq<Prompt>, maxThumbnails: int, now: int)
    ensures SumUsedCount(MergePrompts(ps, incoming, maxThumbnails, now).0) == SumUsedCount(ps) + SumUsedCount(incoming)
    decreases |incoming|
  {
    if incoming != [] {
      var init := incoming[..|incoming| - 1];
      var o := incoming[|incoming| - 1];
      MergeKeepsGenerations(ps, init, maxThumbnails, now);
      MergeLastUses(ps, incoming, maxThumbnails, now);
      SumUsedCountLast(incoming);
    }
  }

  /** Merging one more record adds its uses to the merged table's total. */
  lemma MergeLastUses(ps: seq<Prompt>, incoming: seq<Prompt>, maxThumbnails: int, now: int)
    requires incoming != []
    ensures SumUsedCount(MergePrompts(ps, incoming, maxThumbnails, now).0)
         == SumUsedCount(MergePrompts(ps, incoming[..|incoming| - 1], maxThumbnails, now).0)
            + incoming[|incoming| - 1].usedCount
  {
    MergePromptsLast(ps, incoming, maxThumbnails, now);
    MergeStepAddsUses(MergePrompts(ps, incoming[..|incoming| - 1], maxThumbnails, now).0,
                      incoming[|incoming| - 1], maxThumbnails, now);
  }

  /** The total of a list is that of all but its last record plus the
      last record's uses. */
  lemma SumUsedCountLast(ps: seq<Prompt>)
    requires ps != []
    ensures SumUsedCount(ps) == SumUsedCount(ps[..|ps| - 1]) + ps[|ps| - 1].usedCount
  {
    assert ps == ps[..|ps| - 1] + [ps[|ps| - 1]];
    SumUsedCountAppend(ps[..|ps| - 1], ps[|ps| - 1]);
  }

  /** One merge step adds the incoming record's uses to the table's total,
      whether the record is appended or folded in. */
  lemma MergeStepAddsUses(q: seq<Prompt>, o: Prompt, maxThumbnails: int, now: int)
    ensures SumUsedCount(MergeStep(q, o, maxThumbnails, now).0) == SumUsedCount(q) + o.usedCount
  {
    var (q', wasAdded) := MergeStep(q, o, maxThumbnails, now);
    if wasAdded {
      SumUsedCountAppend(q, o.(id := NextId(q)));
    } else {
      var k := FirstWithHash(q, o.hash).value;
      SumUsedCountUpdate(q, k, FoldInto(q[k], o, maxThumbnails, now));
    }
  }

  lemma {:induction false} SumUsedCountUpdate(ps: seq<Prompt>, k: nat, p: Prompt)
    requires k < |ps|
    ensures SumUsedCount(ps[k := p]) == SumUsedCount(ps) - ps[k].usedCount + p.usedCount
    decreases |ps|
  {
    if k > 0 {
      assert ps[k := p][1..] == ps[1..][k - 1 := p];
      SumUsedCountUpdate(ps[1..], k - 1, p);
    }
  }
}
