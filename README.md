# Prompting System: a verified model of the prompt store and its callers

This project models the core of the ComfyUI Prompting System in Dafny:

- the in-memory prompt table `PromptDatabase` (records, the category and tag
  registries, add / update / delete / lookup / search / clean-up / merge /
  statistics);
- the thumbnail slot policy of `ImageHandler` (capture into a bounded list of
  lockable slots, lock, unlock, merge of two lists);
- the two workflow nodes that decide between saving a new prompt and editing
  the last one: `PromptSaverNode` and `SmartTextInputNode`;
- the extraction of prompt text from a ComfyUI prompt graph read from image
  metadata;
- the value-level decisions of the browser panel: the star rating a click
  sends, the prompt-list query, the card preview, the canvas button hit-test
  and the workflow name.

Layout, one module per component:

| file | module | models |
|---|---|---|
| common.dfy | `Common` | Option, `strip`, `split`, `join`, ASCII `lower`, substring search |
| sorting.dfy | `Sorting` | Python's stable `sort(key=…, reverse=True)` and `list[:k]` |
| image_handler.dfy | `ImageHandler` | database/image_handler.py |
| prompt_store.dfy | `PromptStore` | database/db_manager.py, as functions of a store state, and their properties |
| prompt_database.dfy | `PromptDatabase` | database/db_manager.py, the class whose methods change the table in place, each proved to produce the state the matching `PromptStore` function describes |
| prompt_saver.dfy | `PromptSaver` | nodes/prompt_saver.py |
| smart_text_input.dfy | `SmartTextInput` | nodes/smart_text_input.py |
| metadata_extractor.dfy | `MetadataExtractor` | `extract_all_text_from_prompt_data` of utils/metadata_extractor.py |
| prompting_panel.dfy | `PromptingPanel` | the pure rules of js/prompting_system.js |

Conventions of the model:

- The SHA-256 text hash is replaced by an injective stand-in, the text itself
  (`PromptStore.HashOf`). The store only compares hashes for equality.
- Timestamps are integers. ISO 8601 strings of one format order the way the
  instants they name do, so every comparison the source makes on them is
  kept. "Now" is always a parameter.
- `id(self)`, the node identity the workflow nodes key their remembered text
  by, is a constant field `nodeId`.
- `difflib.SequenceMatcher(...).ratio()` is a parameter of type
  `(string, string) -> real`. Only the threshold comparisons are modelled.
- Encoding an image for a thumbnail is a parameter too: an optional data
  string, `None` when encoding failed.

Where the intended design of the store and the code differ, the model follows
the code:

- Ids can be reused. `_get_next_id` is max + 1, so deleting the newest
  record frees its id for the next insert (`PromptStore.IdReusedAfterDeletingNewest`).
- `merge_database` does not keep incoming ids. A record whose hash is new is
  appended under a fresh id; one whose hash is stored is folded into the
  stored record.
- Merging is not idempotent. Importing the same data twice adds nothing the
  second time, but it merges every record again and sums `used_count` again
  (`PromptStore.RemergeAddsNothing`, `PromptStore.MergeKeepsGenerations`).
- Search results are ordered by (rating, used_count), highest first. They are
  not ordered by update time.
- Text hashes need not be unique. `update_prompt` rehashes without checking
  for duplicates (`PromptStore.UpdateCanDuplicateHash`).
- Tags are a registry that only grows. They are not derived from the records.
  There is no model-label registry, no per-saver reset operation and no
  rating validation beyond clamping, because the code has none of these.
- A locked save updates the latest record of the category. It does not
  update the record the node saved last.

## Model

| member | source | states |
|---|---|---|
| `PromptStore.NextId` | database/db_manager.py:90-94 | 1 on an empty table; otherwise one more than an existing id, so larger than every id in use |
| `PromptStore.FirstWithId` | database/db_manager.py:227-232 | the first position holding the id; None exactly when no record has it |
| `PromptStore.FirstWithHash` | database/db_manager.py:234-239 | the first position holding the hash; None exactly when no record has it |
| `PromptStore.Registered` | database/db_manager.py:160-165 | appending absent labels: the old registry is a prefix, the result lists exactly the old and new labels, and no label twice if there was none before |
| `PromptStore.AddResult` | database/db_manager.py:119-165 | a known text hash returns the id of the first record holding it (as `find_by_hash` finds it) and changes nothing; otherwise exactly one record is appended under the id max + 1 (1 on an empty table), with use count 1, empty history, both timestamps now and the optional thumbnail as its only one, and the non-empty category and tags are registered if absent |
| `PromptStore.AddPreservesValid` | database/db_manager.py:140-165 | adding keeps ids unique and both registries free of repeats |
| `PromptStore.AddPreservesHashes` | database/db_manager.py:142-155 | adding keeps every record's hash equal to the hash of its text |
| `PromptStore.AddTwiceIsAddOnce` | database/db_manager.py:120-126 | adding the same text a second time returns the first id and leaves the state as the first add left it |
| `PromptStore.ClampRating` | database/db_manager.py:215-216 | the stored rating is within 0..5; ratings in range are kept, lower ones become 0, higher ones 5 |
| `PromptStore.ApplyUpdate` | database/db_manager.py:199-221 | only supplied fields change (the text together with its hash; a supplied rating r becomes max(0, min(5, r))); `updated_at` becomes now; id, creation time, use count, thumbnails and history are kept |
| `PromptStore.UpdateResult` | database/db_manager.py:194-221 | unknown id: False and no change; known id: only the first record with it changes, and a supplied category or tag list is registered |
| `PromptStore.UpdatePreservesValid` | database/db_manager.py:194-221 | updating keeps ids unique and the registries free of repeats |
| `PromptStore.UpdatePreservesHashes` | database/db_manager.py:200-202 | updating keeps every record's hash equal to the hash of its text |
| `PromptStore.UpdateCanDuplicateHash` | database/db_manager.py:200-202 | renaming one record's text to another's leaves two records with one hash, and a later add of that text returns the older id |
| `PromptStore.WithoutIdMembers` | database/db_manager.py:244 | the rebuilt table holds exactly the records whose id differs |
| `PromptStore.DeleteResult` | database/db_manager.py:241-251 | registries untouched; the records kept are those with another id; True exactly when some record had the id |
| `PromptStore.DeleteRemovesOne` | database/db_manager.py:243-244 | with unique ids, deleting removes exactly the one record with that id and keeps the others in order |
| `PromptStore.DeletePreservesValid` | database/db_manager.py:241-251 | deleting keeps ids unique |
| `PromptStore.IdReusedAfterDeletingNewest` | database/db_manager.py:90-94 | after deleting the newest record, the next id is that record's id again |
| `PromptStore.MatchesMembers` | database/db_manager.py:375-397 | a record is a match exactly when it is stored and passes every filter (rating, category, shared tag, case-insensitive text or notes) |
| `PromptStore.SearchResults` | database/db_manager.py:373-405 | as many results as matches up to the cap, at most `max_results` when that is at least 1, every result a stored match, sorted by (rating, used_count) descending, a permutation of the first matches in storage order |
| `PromptStore.SearchReturnsAllMatches` | database/db_manager.py:375-403 | with a limit that does not bind, the results are exactly the matching records, each as often as stored |
| `PromptStore.LatestByCategory` | database/db_manager.py:407-416 | None exactly when the category is empty; otherwise a stored record of that category updated no earlier than any other record of it |
| `PromptStore.LatestIsFirstMostRecent` | database/db_manager.py:414-416 | ties go to the record stored first: each record of the category stored before the one returned was updated strictly earlier |
| `PromptStore.CleanupResult` | database/db_manager.py:418-448 | disabled: no change and 0; enabled: the survivors are the records rated above 0 or created after now minus the configured days, kept in storage order (`KeptAfterCleanup`), and the count is the number removed |
| `PromptStore.KeptAfterCleanupSnoc` | database/db_manager.py:437-440 | the order-preserving filter law: the survivors of a list with one more record are the survivors before it, then that record if it survives |
| `PromptStore.CleanupIdempotent` | database/db_manager.py:425-442 | a second clean-up with the same settings and clock removes nothing |
| `PromptStore.CleanupPreservesUniqueIds` | database/db_manager.py:437-440 | the clean-up keeps ids unique |
| `PromptStore.MergeStep` | database/db_manager.py:477-521 | an incoming record with a new hash is appended under the next id; otherwise it is folded into the first stored record with that hash (as `find_by_hash` finds it), which takes the higher rating, the summed use count, the earlier creation time and the concatenated history |
| `PromptStore.MergePrompts` | database/db_manager.py:471-521 | added + merged equals the number of incoming records, and the table grows by exactly the number added |
| `PromptStore.MergeKeepsStored` | database/db_manager.py:477-521 | merging removes nothing: every stored record keeps its position, id, hash and text, and ids stay unique |
| `PromptStore.MergeCoversIncoming` | database/db_manager.py:477-521 | after merging, the hash of every incoming record is stored |
| `PromptStore.MergeResult` | database/db_manager.py:471-534 | the statistics add up, nothing is skipped, each registry becomes the duplicate-free union of both sides, and validity is kept |
| `PromptStore.RemergeAddsNothing` | database/db_manager.py:477-521 | when every incoming hash is already stored, nothing is added and every incoming record is merged again |
| `PromptStore.MergeKeepsGenerations` | database/db_manager.py:496-500 | merging keeps the total use count: the result's total is the old total plus the incoming total |
| `PromptStore.Statistics` | database/db_manager.py:551-561 | totals equal the table and registry sizes; rated counts records rated above 0, unrated those rated 0, with-thumbnails those holding a thumbnail, and total generations is the sum of the use counts |
| `PromptStore.AddUpdatesStatistics` | database/db_manager.py:119-165 | adding a known text leaves every statistic unchanged; a new text adds one record, one generation, one rated or unrated record by its rating, and one record with thumbnails when an image was encoded |
| `PromptStore.RatedUnratedSplit` | database/db_manager.py:557-558 | rated and unrated never overlap, and they cover the table when no rating is negative |
| `PromptDatabase.Database.constructor` | database/db_manager.py:47-61 | an empty table, empty registries and the default settings (clean-up on, 30 days, 3 thumbnails) |
| `PromptDatabase.Database.GetPrompt` | database/db_manager.py:227-232 | the first record with the id, or None exactly when there is none |
| `PromptDatabase.Database.FindByHash` | database/db_manager.py:234-239 | the first record with the hash, or None exactly when there is none |
| `PromptDatabase.Database.AddPrompt` | database/db_manager.py:96-169 | the table and id become those of `AddResult`, and validity is kept |
| `PromptDatabase.Database.UpdatePrompt` | database/db_manager.py:171-225 | the table and result become those of `UpdateResult`, and validity is kept |
| `PromptDatabase.Database.DeletePrompt` | database/db_manager.py:241-251 | the table and result become those of `DeleteResult`, and validity is kept |
| `PromptDatabase.Database.CollectMatches` | database/db_manager.py:373-400 | the scan collects exactly the first matches in storage order, stopping after the one that reaches the limit |
| `PromptDatabase.Database.SearchPrompts` | database/db_manager.py:352-405 | the results are those of `SearchResults` |
| `PromptDatabase.Database.GetLatestPromptByCategory` | database/db_manager.py:407-416 | the record is that of `LatestByCategory` |
| `PromptDatabase.Database.CleanupOldUnrated` | database/db_manager.py:418-448 | the table and count become those of `CleanupResult`; registries and settings are untouched and validity is kept |
| `PromptDatabase.Database.MergeRecords` | database/db_manager.py:477-521 | the table and both counters become those of `MergePrompts`; registries are untouched |
| `PromptDatabase.Database.MergeDatabase` | database/db_manager.py:450-534 | the table, registries and statistics become those of `MergeResult`, and validity is kept |
| `ImageHandler.ManageThumbnails` | database/image_handler.py:96-155 | a failed encoding changes nothing; an empty list becomes [new]; the first unlocked slot is overwritten by the new unlocked thumbnail with nothing else changed; with all slots locked the new one is appended while there is room, else it follows the max-1 newest |
| `ImageHandler.EvictionKeepsNewest` | database/image_handler.py:152-155 | with max >= 1 and a full locked list, exactly max-1 thumbnails survive, all from the list, none older than any dropped one |
| `ImageHandler.LockThumbnail` | database/image_handler.py:157-170 | only the lock flag of the slot at an in-range index changes, to locked; an out-of-range index changes nothing |
| `ImageHandler.UnlockThumbnail` | database/image_handler.py:172-185 | only the lock flag of the slot at an in-range index changes, to unlocked; an out-of-range index changes nothing |
| `ImageHandler.LockUnlockInverse` | database/image_handler.py:168-185 | unlocking undoes locking an unlocked slot and locking undoes unlocking a locked one |
| `ImageHandler.MergedThumbnails` | database/image_handler.py:187-239 | never more than max entries when max is not negative |
| `ImageHandler.MergedThumbnailsProps` | database/image_handler.py:204-239 | no two entries share image data, locked entries come first, every entry comes from an input, and when the distinct locked images fit, each stays present and locked |
| `ImageHandler.MergedThumbnailsKeepsNewest` | database/image_handler.py:216-237 | with more distinct locked images than fit, only distinct locked entries are kept, exactly max of them, and no dropped locked entry is newer than a kept one; with room, the distinct locked entries come first, unlocked ones are added until max are held or no unlocked image with new data is left, and none left out with new data is newer than one added |
| `ImageHandler.DedupByData` | database/image_handler.py:209-215 | the loop keeps the first thumbnail of each image data and remembers exactly the data kept |
| `ImageHandler.FillUpTo` | database/image_handler.py:231-237 | the loop appends candidates with unseen data until max entries are held |
| `ImageHandler.MergeThumbnails` | database/image_handler.py:187-239 | computes `MergedThumbnails`, so at most max entries |
| `PromptSaver.ResolveCategory` | nodes/prompt_saver.py:111-115 | "+ New Category" with a typed name gives that name, without one "Uncategorized"; any other choice is kept |
| `PromptSaver.ParseTagsClean` | nodes/prompt_saver.py:118 | every parsed tag is non-empty, stripped and comma-free, and is the stripped form of one comma-separated piece |
| `PromptSaver.ParseTagsInOrder` | nodes/prompt_saver.py:118 | the tags are built piece by piece in input order: around any piece, the tags before it, that piece's own tags, then the tags after it |
| `PromptSaver.CleanPiecesOne` | nodes/prompt_saver.py:118 | one piece yields its stripped form as a tag, or nothing when it is blank |
| `PromptSaver.ParseTagsKeepsPieces` | nodes/prompt_saver.py:118 | every comma-separated piece that is not blank yields its stripped form as a tag |
| `PromptSaver.ParseJoinedTags` | nodes/prompt_saver.py:118-129 | tags joined with ", " as the node shows them parse back to the same list |
| `PromptSaver.UpdateOnlyWhenSimilar` | nodes/prompt_saver.py:82-91 | a locked auto-saving call differs from `add_prompt` only when both the remembered and the submitted text are non-empty and rated at least 0.2 alike |
| `PromptSaver.EmptyTextIgnoresSimilarity` | nodes/prompt_saver.py:82-91 | with no remembered text or an empty submitted text, the outcome of `process` does not depend on the similarity measure |
| `PromptSaver.UnlockedLoadsLatest` | nodes/prompt_saver.py:123-142 | unlocked mode never writes to the database; with an empty category it returns the input text with id 0 and remembers nothing |
| `PromptSaver.UnlockedOutputIsLatestRecord` | nodes/prompt_saver.py:125-139 | unlocked mode with a non-empty category writes nothing, returns a latest record's text and id, and remembers that text |
| `PromptSaver.LockedWithoutAutoSaveChangesNothing` | nodes/prompt_saver.py:146-148 | locked without auto-save: (text, category, 0) and no change at all |
| `PromptSaver.AutoSaveRemembersText` | nodes/prompt_saver.py:150-205 | after a locked auto-saving call the node remembers exactly the submitted text and outputs it unchanged |
| `PromptSaver.SaveInserts` | nodes/prompt_saver.py:153-205 | with nothing remembered, a complete rewrite, or an empty category, the save is `add_prompt` |
| `PromptSaver.SaveUpdatesLatest` | nodes/prompt_saver.py:169-191 | otherwise the category's latest record is updated with every field and its id is returned |
| `PromptSaver.SaveIdHoldsText` | nodes/prompt_saver.py:153-205 | the id a save returns names a record holding the submitted text |
| `PromptSaver.SavePreservesValid` | nodes/prompt_saver.py:153-205 | saving keeps ids unique and registries free of repeats |
| `PromptSaver.PromptSaverNode.Process` | nodes/prompt_saver.py:93-205 | the database, the remembered texts and the outputs become those of `Processed`, and validity is kept |
| `PromptSaver.PromptSaverNode.Save` | nodes/prompt_saver.py:150-205 | the database and id become those of `SaveLocked` |
| `SmartTextInput.ClassifyMonotoneInThreshold` | nodes/smart_text_input.py:62-82 | the text is returned unchanged, the similarity does not depend on the threshold, and a text reported new under one threshold is new under every larger one |
| `SmartTextInput.NonPositiveThresholdNeverNew` | nodes/smart_text_input.py:62-72 | with a threshold of at most 0.0 and a non-negative ratio, no call reports a new prompt, not even the first |
| `SmartTextInput.ClassifySimilarity` | nodes/smart_text_input.py:47-72 | no previous text or an empty text gives similarity 0.0, hence "new" under a positive threshold; otherwise the similarity is the ratio |
| `SmartTextInput.SmartTextInputNode.Process` | nodes/smart_text_input.py:53-82 | classifies against the remembered text, then remembers the submitted text whatever the outcome |
| `SmartTextInput.TwoCallsOnNewNode` | nodes/smart_text_input.py:53-82 | on a new node the first call reports similarity 0.0, and the second compares its text with the first call's text |
| `MetadataExtractor.InputTextsOrigin` | utils/metadata_extractor.py:80-83 | each contribution is non-blank, stripped, and the stripped value of a string input under text, prompt, positive or negative |
| `MetadataExtractor.NodeTextsOrigin` | utils/metadata_extractor.py:75-83 | each contribution comes from the inputs map of some node |
| `MetadataExtractor.InputTextsComplete` | utils/metadata_extractor.py:80-83 | conversely, every non-blank stripped string input under text, prompt, positive or negative is among the node's contributions |
| `MetadataExtractor.NodeTextsComplete` | utils/metadata_extractor.py:75-83 | conversely, when no node raises, every non-blank text taken from any node's inputs map is among the contributions |
| `MetadataExtractor.NodeTextsNoneIffRaises` | utils/metadata_extractor.py:75-89 | the exception path is taken exactly when some node has an `inputs` that is not a map |
| `MetadataExtractor.ExtractedIsStripped` | utils/metadata_extractor.py:83-85 | the result has no leading or trailing whitespace |
| `MetadataExtractor.ExtractedEmptyCases` | utils/metadata_extractor.py:71-89 | "" for a graph that is not a map or holds a raising node; otherwise "" exactly when nothing contributes |
| `MetadataExtractor.CollectInputTexts` | utils/metadata_extractor.py:80-83 | the inner loop collects the contributions of one node's inputs, in order |
| `MetadataExtractor.ExtractAllText` | utils/metadata_extractor.py:60-89 | the nested loops compute `ExtractedText`: contributions joined with ", " in node then input order, or "" on the exception path |
| `PromptingPanel.ClickedRating` | js/prompting_system.js:484 | the sent rating is within 0..5; it is 0 exactly when the clicked star is the current rating, and the clicked star otherwise |
| `PromptingPanel.ClickThenRedraw` | js/prompting_system.js:478-484 | after a click, stars 1..i are filled unless i was the current rating; clicking the same star again restores rating i |
| `PromptingPanel.ListQuery` | js/prompting_system.js:394-399 | the query ends with limit=50 and holds only the chosen filters |
| `PromptingPanel.ListQueryFilters` | js/prompting_system.js:394-399 | search is sent exactly when non-empty; category, model and tag exactly when not "All" |
| `PromptingPanel.ListQueryKeysDistinct` | js/prompting_system.js:394-399 | no key occurs twice in the query |
| `PromptingPanel.Preview` | js/prompting_system.js:458 | texts of up to 120 characters are shown whole; longer ones as their first 120 characters followed by "..." |
| `PromptingPanel.PreviewIdempotent` | js/prompting_system.js:458 | previewing a preview changes nothing |
| `PromptingPanel.HitTest` | js/prompting_system.js:627-637 | the index of the first button whose closed rectangle holds the point, or None exactly when no button does |
| `PromptingPanel.NodeButtonsDisjoint` | js/prompting_system.js:569-575 | the node's three buttons never share a point, so at most one is hit |
| `PromptingPanel.FindFirstIsFirst` | js/prompting_system.js:48 | `indexOf` finds the first occurrence, and None means there is none |
| `PromptingPanel.WorkflowNameSources` | js/prompting_system.js:42-49 | the extra title if truthy, else the graph name if truthy, else the trimmed text before the first " - " of the page title (an occurrence with none before it), which itself holds no " - ", else workflow_ and the date |
| `Sorting.SortDesc` | database/db_manager.py:403 | Python's descending sort: same length, sorted by the key, a permutation of the input |
| `Sorting.SortDescStable` | database/db_manager.py:403 | the sort is stable: for every key, the elements with that key keep their input order |
| `Sorting.SortDescHeadIsFirstMax` | database/db_manager.py:415-416 | the first element after the sort is the first element of the input with the largest key |

## Left out

- Repeated JSON keys: a JSON object is modelled as a list of members whose keys may repeat. `json.load` keeps the last value of a repeated key, while `Lookup` takes the first `inputs` member and `InputTexts` visits every repeated input key. So the model agrees with the source on objects with distinct keys, which are all that a parsed dict can hold. Its lemmas also hold for objects with repeated keys, which no dict corresponds to.
- Persistence: loading and creating the database file, `save` with its
  temporary file and rename, `export_to_file`, and reading the other file in
  `merge_database` with its `{'error': …}` result. The merge takes the
  already-parsed records and labels.
- SHA-256 in `_generate_hash`: replaced by the text itself, which is equally
  injective for the equality tests the store makes.
- `datetime.now()`: a parameter. ISO strings are integers.
- Missing keys and `.get(key, default)`: every modelled record carries every
  field, so the defaults the source falls back to never apply.
- `add_thumbnail`, the `lock_thumbnail` / `unlock_thumbnail` wrappers of
  `PromptDatabase` and `add_generation_history`: thin wrappers that look a
  record up and store the result of an `ImageHandler` call or append one
  history entry. They are outside the modelled operations.
- Image work in `ImageHandler` (`compress_and_encode`, `decode_and_save`):
  the encoded data is a parameter.
- Python's `hash()` in `merge_thumbnails`: two thumbnails are compared by
  their data itself.
- `difflib.SequenceMatcher.ratio`: a parameter of type real. Floating-point
  rounding is not modelled.
- Update in place: `manage_thumbnails`, `lock_thumbnail`, `unlock_thumbnail`
  and `merge_thumbnails` are modelled on values. The model does not capture
  the aliasing between the list a caller passes and the one returned, nor the
  in-place sort of the caller's list.
- Common.Lower: lower-cases ASCII letters only. Python's `str.lower` also
  folds other letters.
- Common.Strip: removes ASCII whitespace only (space, tab, line feed,
  carriage return, vertical tab, form feed). Python's `str.strip` also
  removes the ASCII separators \x1c-\x1f, and both it and JavaScript's
  `trim` remove other Unicode white space.
- PromptingPanel.Preview: counts and cuts the text in Unicode characters.
  JavaScript's `length` and `substring` count UTF-16 code units, so a text
  with characters outside the Basic Multilingual Plane is cut earlier in the
  panel (up to half as many characters), and the cut can split a surrogate
  pair.
- ComfyUI plumbing: `INPUT_TYPES`, `IS_CHANGED` with its random value, node
  registration and printed log lines.
- The other nodes and helpers (the prompt library browser, the export
  manager, path utilities, image-file metadata readers): action dispatch,
  formatting and file-system access over the modelled store.
- The browser panel's DOM, `fetch` calls, local storage, clipboard, toasts,
  timers and canvas drawing. The HTTP handlers of the panel's endpoints are
  not part of this model.
