/** `PromptDatabase` (database/db_manager.py): the in-memory table of prompt
    records and the two label registries, changed in place by its methods.
    Every method is proved to leave the object in the state the matching
    function of `PromptStore` describes, and the properties of those
    functions are proved there. Saving to and loading from disk are not
    modelled; `now` stands for the clock. */
module PromptDatabase {
  import opened Common
  import opened Sorting
  import opened ImageHandler
  import opened PromptStore

  class Database {
    var prompts: seq<Prompt>
    var categories: seq<string>
    var tags: seq<string>
    var settings: Settings

    /** The part of the object the operations change. */
    function State(): Store
      reads this
    {
      Store(prompts, categories, tags)
    }

    /** Ids unique, registries free of repeats. */
    predicate Valid()
      reads this
    {
      ValidStore(State())
    }

    /** `_create_empty_database`: no records, empty registries, default
        settings. */
    constructor ()
      ensures prompts == [] && categories == [] && tags == []
      ensures settings == DefaultSettings
      ensures Valid()
    {
      prompts := [];
      categories := [];
      tags := [];
      settings := DefaultSettings;
    }

    // -------------------------------------------------------------------------
    // Lookups
    // -------------------------------------------------------------------------

    /** The scan of `get_prompt`: the position of the first record with `id`. */
    method IndexOfId(id: int) returns (k: Option<nat>)
      ensures k == FirstWithId(prompts, id)
    {
      for i := 0 to |prompts|
        invariant forall j :: 0 <= j < i ==> prompts[j].id != id
      {
        if prompts[i].id == id {
          return Some(i);
        }
      }
      return None;
    }

    /** The scan of `find_by_hash`: the position of the first record with `h`. */
    method IndexOfHash(h: Hash) returns (k: Option<nat>)
      ensures k == FirstWithHash(prompts, h)
    {
      for i := 0 to |prompts|
        invariant forall j :: 0 <= j < i ==> prompts[j].hash != h
      {
        if prompts[i].hash == h {
          return Some(i);
        }
      }
      return None;
    }

    /** `get_prompt`: the first record with that id, if any. */
    method GetPrompt(id: int) returns (p: Option<Prompt>)
      ensures p.None? <==> forall i :: 0 <= i < |prompts| ==> prompts[i].id != id
      ensures p.Some? ==> p.value.id == id && p.value == prompts[FirstWithId(prompts, id).value]
    {
      var k := IndexOfId(id);
      if k.None? {
        return None;
      }
      return Some(prompts[k.value]);
    }

    /** `find_by_hash`: the first record with that hash, if any. */
    method FindByHash(h: Hash) returns (p: Option<Prompt>)
      ensures p.None? <==> forall i :: 0 <= i < |prompts| ==> prompts[i].hash != h
      ensures p.Some? ==> p.value.hash == h && p.value == prompts[FirstWithHash(prompts, h).value]
    {
      var k := IndexOfHash(h);
      if k.None? {
        return None;
      }
      return Some(prompts[k.value]);
    }

    // -------------------------------------------------------------------------
    // Registries
    // -------------------------------------------------------------------------

    /** `if tag and tag not in tags: tags.append(tag)` for each tag. */
    method RegisterNonEmptyTags(labels: seq<string>)
      modifies this
      ensures tags == Registered(old(tags), NonEmptyLabels(labels))
      ensures prompts == old(prompts) && categories == old(categories) && settings == old(settings)
    {
      for i := 0 to |labels|
        invariant tags == Registered(old(tags), NonEmptyLabels(labels[..i]))
        invariant prompts == old(prompts) && categories == old(categories) && settings == old(settings)
      {
        ghost var done := NonEmptyLabels(labels[..i]);
        ghost var next := done + (if labels[i] != "" then [labels[i]] else []);
        assert NonEmptyLabels(labels[..i + 1]) == next by {
          assert labels[..i + 1] == labels[..i] + [labels[i]];
          NonEmptyLabelsSnoc(labels[..i], labels[i]);
        }
        if labels[i] != "" {
          RegisteredSnoc(old(tags), done, labels[i]);
          if labels[i] !in tags {
            tags := tags + [labels[i]];
          }
        } else {
          assert next == done;
        }
        assert tags == Registered(old(tags), next);
      }
      assert labels[..|labels|] == labels;
    }

    /** `if tag not in tags: tags.append(tag)` for each tag, empty ones too. */
    method RegisterTags(labels: seq<string>)
      modifies this
      ensures tags == Registered(old(tags), labels)
      ensures prompts == old(prompts) && categories == old(categories) && settings == old(settings)
    {
      for i := 0 to |labels|
        invariant tags == Registered(old(tags), labels[..i])
        invariant prompts == old(prompts) && categories == old(categories) && settings == old(settings)
      {
        assert Registered(old(tags), labels[..i + 1])
            == (if labels[i] in tags then tags else tags + [labels[i]]) by {
          assert labels[..i + 1] == labels[..i] + [labels[i]];
          RegisteredSnoc(old(tags), labels[..i], labels[i]);
        }
        if labels[i] !in tags {
          tags := tags + [labels[i]];
        }
      }
      assert labels[..|labels|] == labels;
    }

    /** The same loop over the category registry. */
    method RegisterCategories(labels: seq<string>)
      modifies this
      ensures categories == Registered(old(categories), labels)
      ensures prompts == old(prompts) && tags == old(tags) && settings == old(settings)
    {
      for i := 0 to |labels|
        invariant categories == Registered(old(categories), labels[..i])
        invariant prompts == old(prompts) && tags == old(tags) && settings == old(settings)
      {
        assert Registered(old(categories), labels[..i + 1])
            == (if labels[i] in categories then categories else categories + [labels[i]]) by {
          assert labels[..i + 1] == labels[..i] + [labels[i]];
          RegisteredSnoc(old(categories), labels[..i], labels[i]);
        }
        if labels[i] !in categories {
          categories := categories + [labels[i]];
        }
      }
      assert labels[..|labels|] == labels;
    }

    // -------------------------------------------------------------------------
    // add_prompt / update_prompt / delete_prompt
    // -------------------------------------------------------------------------

    /** `add_prompt`. `encoded` is what encoding the optional image produced
        (None when there was no image or encoding failed) and `sourceImage`
        the image's file name. */
    method AddPrompt(text: string, category: string, tagList: seq<string>, rating: int, notes: string,
                     encoded: Option<string>, sourceImage: string, now: int) returns (id: int)
      modifies this
      ensures var res := AddResult(old(State()), text, category, tagList, rating, notes,
                                   NewThumbnail(encoded, sourceImage, now), now);
        State() == res.0 && id == res.1
      ensures settings == old(settings)
      ensures old(Valid()) ==> Valid()
    {
      ghost var s0 := State();
      var thumbnail := NewThumbnail(encoded, sourceImage, now);
      var existing := IndexOfHash(HashOf(text));
      if existing.Some? {
        id := prompts[existing.value].id;
      } else {
        id := NextId(prompts);
        AppendRecord(NewRecord(id, text, category, tagList, rating, notes, thumbnail, now));
        AddFreshResult(s0, text, category, tagList, rating, notes, thumbnail, now);
      }
      if ValidStore(s0) {
        AddPreservesValid(s0, text, category, tagList, rating, notes, thumbnail, now);
      }
    }

    /** The fresh-text path of `add_prompt`: the record is appended, then its
        non-empty category and tags are registered. */
    method AppendRecord(p: Prompt)
      modifies this
      ensures prompts == old(prompts) + [p]
      ensures categories == Registered(old(categories), NonEmptyLabels([p.category]))
      ensures tags == Registered(old(tags), NonEmptyLabels(p.tags))
      ensures settings == old(settings)
    {
      prompts := prompts + [p];
      RegisterCategory(p.category);
      RegisterNonEmptyTags(p.tags);
    }

    /** A non-empty category not registered yet is appended to the
        registry. */
    method RegisterCategory(category: string)
      modifies this
      ensures categories == Registered(old(categories), NonEmptyLabels([category]))
      ensures prompts == old(prompts) && tags == old(tags) && settings == old(settings)
    {
      RegisterOne(categories, category);
      if category != "" && category !in categories {
        categories := categories + [category];
      }
    }

    /** `update_prompt`: the supplied fields of the first record with `id`
        are replaced in place. */
    method UpdatePrompt(id: int, u: PromptUpdate, now: int) returns (ok: bool)
      modifies this
      ensures var res := UpdateResult(old(State()), id, u, now);
        State() == res.0 && ok == res.1
      ensures settings == old(settings)
      ensures old(Valid()) ==> Valid()
    {
      ghost var s0 := State();
      var k := IndexOfId(id);
      if k.None? {
        return false;
      }
      UpdateAt(k.value, u, now);
      UpdateFoundResult(s0, id, u, now);
      if ValidStore(s0) {
        UpdatePreservesValid(s0, id, u, now);
      }
      return true;
    }

    /** The field assignments of `update_prompt` on the record at `k`, with
        the supplied category and tags registered. */
    method UpdateAt(k: nat, u: PromptUpdate, now: int)
      requires k < |prompts|
      modifies this
      ensures prompts == old(prompts)[k := ApplyUpdate(old(prompts)[k], u, now)]
      ensures categories == (if u.category.Some? then Registered(old(categories), [u.category.value]) else old(categories))
      ensures tags == (if u.tags.Some? then Registered(old(tags), u.tags.value) else old(tags))
      ensures settings == old(settings)
    {
      var p := prompts[k];
      if u.text.Some? {
        p := p.(text := u.text.value, hash := HashOf(u.text.value));
      }
      if u.category.Some? {
        p := p.(category := u.category.value);
      }
      if u.tags.Some? {
        p := p.(tags := u.tags.value);
      }
      if u.rating.Some? {
        p := p.(rating := Max(0, Min(5, u.rating.value)));
      }
      if u.notes.Some? {
        p := p.(notes := u.notes.value);
      }
      p := p.(updatedAt := now);
      prompts := prompts[k := p];
      RegisterUpdateLabels(u);
    }

    /** The category and the tags an update sets are registered. */
    method RegisterUpdateLabels(u: PromptUpdate)
      modifies this
      ensures categories == (if u.category.Some? then Registered(old(categories), [u.category.value]) else old(categories))
      ensures tags == (if u.tags.Some? then Registered(old(tags), u.tags.value) else old(tags))
      ensures prompts == old(prompts) && settings == old(settings)
    {
      if u.category.Some? {
        RegisteredSnoc(categories, [], u.category.value);
        assert [] + [u.category.value] == [u.category.value];
        if u.category.value !in categories {
          categories := categories + [u.category.value];
        }
      }
      if u.tags.Some? {
        RegisterTags(u.tags.value);
      }
    }

    /** `delete_prompt`: the table is rebuilt without the records carrying
        `id`; the result says whether it shrank. */
    method DeletePrompt(id: int) returns (removed: bool)
      modifies this
      ensures var res := DeleteResult(old(State()), id);
        State() == res.0 && removed == res.1
      ensures settings == old(settings)
      ensures old(Valid()) ==> Valid()
    {
      ghost var s0 := State();
      var ps := prompts;
      var kept: seq<Prompt> := [];
      for i := 0 to |ps|
        invariant kept == WithoutId(ps[..i], id)
        invariant prompts == ps && categories == old(categories) && tags == old(tags) && settings == old(settings)
      {
        assert ps[..i + 1] == ps[..i] + [ps[i]];
        WithoutIdAppend(ps[..i], [ps[i]], id);
        assert [ps[i]][1..] == [];
        if ps[i].id != id {
          kept := kept + [ps[i]];
        }
      }
      assert ps[..|ps|] == ps;
      prompts := kept;
      if ValidStore(s0) {
        DeletePreservesValid(s0, id);
      }
      return |kept| < |ps|;
    }

    // -------------------------------------------------------------------------
    // search_prompts / get_latest_prompt_by_category
    // -------------------------------------------------------------------------

    /** `search_prompts`: the scan collects matches until it holds
        `max_results` of them, then the matches are sorted. */
    method SearchPrompts(f: SearchFilter) returns (results: seq<Prompt>)
      ensures results == SearchResults(prompts, f)
    {
      results := CollectMatches(f);
      SearchSortsFirstMatches(prompts, f);
      results := SortDesc(results, SearchRank);
    }

    /** The scan of `search_prompts`: matches in storage order, stopping
        right after the one that reaches `max_results`. */
    method CollectMatches(f: SearchFilter) returns (results: seq<Prompt>)
      ensures results == FirstMatches(prompts, f)
    {
      results := [];
      var i := 0;
      while i < |prompts|
        invariant 0 <= i <= |prompts|
        invariant results == Matches(prompts[..i], f)
        invariant |results| < SearchCap(f.maxResults)
      {
        MatchesSnocAt(prompts, i, f);
        if MatchesFilter(prompts[i], f) {
          results := results + [prompts[i]];
          if |results| >= f.maxResults {
            StopAtLimit(prompts, i + 1, f);
            return;
          }
        }
        i := i + 1;
      }
      assert prompts[..i] == prompts;
    }

    /** `get_latest_prompt_by_category`. */
    method GetLatestPromptByCategory(category: string) returns (r: Option<Prompt>)
      ensures r == LatestByCategory(prompts, category)
    {
      r := LatestByCategory(prompts, category);
    }

    // -------------------------------------------------------------------------
    // cleanup_old_unrated
    // -------------------------------------------------------------------------

    /** `cleanup_old_unrated`: unless disabled, the table is rebuilt with the
        records that are rated or were created after the cutoff. */
    method CleanupOldUnrated(now: int) returns (removed: int)
      modifies this
      ensures var res := CleanupResult(old(prompts), settings, now);
        prompts == res.0 && removed == res.1
      ensures categories == old(categories) && tags == old(tags) && settings == old(settings)
      ensures old(Valid()) ==> Valid()
    {
      if !settings.autoCleanupEnabled {
        return 0;
      }
      var cutoff := now - settings.autoCleanupDays * SecondsPerDay;
      var ps := prompts;
      var kept: seq<Prompt> := [];
      for i := 0 to |ps|
        invariant kept == KeptAfterCleanup(ps[..i], cutoff)
        invariant prompts == ps && categories == old(categories) && tags == old(tags) && settings == old(settings)
      {
        assert ps[..i + 1] == ps[..i] + [ps[i]];
        KeptAfterCleanupSnoc(ps[..i], ps[i], cutoff);
        if SurvivesCleanup(ps[i], cutoff) {
          kept := kept + [ps[i]];
        }
      }
      assert ps[..|ps|] == ps;
      if UniqueIds(ps) {
        CleanupPreservesUniqueIds(ps, cutoff);
      }
      prompts := kept;
      removed := |ps| - |kept|;
    }

    // -------------------------------------------------------------------------
    // merge_database
    // -------------------------------------------------------------------------

    /** One incoming record folded into the record at `k`, field by field. */
    method FoldAt(k: nat, o: Prompt, now: int)
      requires k < |prompts|
      modifies this
      ensures prompts == old(prompts)[k := FoldInto(old(prompts)[k], o, settings.maxThumbnails, now)]
      ensures categories == old(categories) && tags == old(tags) && settings == old(settings)
    {
      var e := prompts[k];
      var thumbnails := MergeThumbnails(e.thumbnails, o.thumbnails, settings.maxThumbnails);
      var folded := e.(rating := Max(e.rating, o.rating), usedCount := e.usedCount + o.usedCount,
                       createdAt := Min(e.createdAt, o.createdAt), thumbnails := thumbnails,
                       history := e.history + o.history, updatedAt := now);
      FoldIntoWith(e, o, settings.maxThumbnails, now, thumbnails);
      prompts := prompts[k := folded];
    }

    /** `merge_database` on the already-parsed contents of another database. */
    method MergeDatabase(other: Snapshot, now: int) returns (stats: MergeStats)
      modifies this
      ensures (State(), stats) == MergeResult(old(State()), other, settings.maxThumbnails, now)
      ensures settings == old(settings)
      ensures old(Valid()) ==> Valid()
    {
      ghost var s0 := State();
      var added, merged := MergeRecords(other.prompts, now);
      RegisterCategories(other.categories);
      RegisterTags(other.tags);
      stats := MergeStats(added, merged, 0);
      assert State() == MergeResult(s0, other, settings.maxThumbnails, now).0;
    }

    /** One step of `merge_database`: a record whose hash is not stored yet
        is appended under the next id, otherwise it is folded into the first
        stored record with that hash. */
    method MergeOne(o: Prompt, now: int) returns (isNew: bool)
      modifies this
      ensures (prompts, isNew) == MergeStep(old(prompts), o, settings.maxThumbnails, now)
      ensures categories == old(categories) && tags == old(tags) && settings == old(settings)
    {
      var existing := IndexOfHash(o.hash);
      if existing.None? {
        var newId := NextId(prompts);
        prompts := prompts + [o.(id := newId)];
        isNew := true;
      } else {
        FoldAt(existing.value, o, now);
        isNew := false;
      }
    }

    /** The loop of `merge_database` over the incoming records: each is
        appended under a fresh id or folded into the stored record with the
        same hash. */
    method MergeRecords(incoming: seq<Prompt>, now: int) returns (added: nat, merged: nat)
      modifies this
      ensures prompts == MergePrompts(old(prompts), incoming, settings.maxThumbnails, now).0
      ensures added == MergePrompts(old(prompts), incoming, settings.maxThumbnails, now).1
      ensures merged == MergePrompts(old(prompts), incoming, settings.maxThumbnails, now).2
      ensures categories == old(categories) && tags == old(tags) && settings == old(settings)
    {
      added, merged := 0, 0;
      for i := 0 to |incoming|
        invariant prompts == MergePrompts(old(prompts), incoming[..i], settings.maxThumbnails, now).0
        invariant added == MergePrompts(old(prompts), incoming[..i], settings.maxThumbnails, now).1
        invariant merged == MergePrompts(old(prompts), incoming[..i], settings.maxThumbnails, now).2
        invariant categories == old(categories) && tags == old(tags) && settings == old(settings)
      {
        MergePromptsPrefix(old(prompts), incoming, i, settings.maxThumbnails, now);
        var isNew := MergeOne(incoming[i], now);
        if isNew { added := added + 1; } else { merged := merged + 1; }
      }
      assert incoming[..|incoming|] == incoming;
    }
  }
}
