/** `PromptSaverNode` (nodes/prompt_saver.py): the workflow node that either
    loads the latest prompt of a category into the workflow (unlocked) or
    saves the text it is given (locked), deciding between inserting a new
    record and updating the category's latest one by comparing the text with
    the one it remembers. The similarity ratio is a parameter: it stands for
    `difflib.SequenceMatcher(None, a, b).ratio()`, which is not modelled. */
module PromptSaver {
  import opened Common
  import opened ImageHandler
  import opened PromptStore
  import opened PromptDatabase

  /** The category-list entry that asks for the `new_category` field. */
  const NewCategoryChoice: string := "+ New Category"

  /** The category used when "+ New Category" is chosen with no name. */
  const FallbackCategory: string := "Uncategorized"

  /** Below this similarity ratio a locked save counts as a new prompt. */
  const RewriteThreshold: real := 0.2

  // ---------------------------------------------------------------------------
  // Category resolution and tag parsing
  // ---------------------------------------------------------------------------

  /** The category a call works in: the typed-in name, or "Uncategorized"
      when none was typed, if "+ New Category" was chosen; otherwise the
      chosen one. The result is "+ New Category" only when that very text was
      typed in as the new name. */
  function ResolveCategory(category: string, newCategory: string): (r: string)
    ensures category == NewCategoryChoice && newCategory != "" ==> r == newCategory
    ensures category == NewCategoryChoice && newCategory == "" ==> r == FallbackCategory
    ensures category != NewCategoryChoice ==> r == category
    ensures r == NewCategoryChoice ==> newCategory == NewCategoryChoice
    ensures category != "" ==> r != ""
  {
    if category == NewCategoryChoice && newCategory != "" then newCategory
    else if category == NewCategoryChoice then FallbackCategory
    else category
  }

  /** The stripped, non-empty pieces, in order. */
  function CleanPieces(pieces: seq<string>): (r: seq<string>)
    ensures |r| <= |pieces|
    ensures forall t :: t in r ==> t != "" && Stripped(t)
  {
    if pieces == [] then []
    else (if Strip(pieces[0]) != "" then [Strip(pieces[0])] else []) + CleanPieces(pieces[1..])
  }

  /** A well-formed tag: non-empty, no surrounding whitespace, no comma. */
  predicate CleanTag(t: string) {
    t != "" && Stripped(t) && ',' !in t
  }

  /** `[t.strip() for t in tags.split(',') if t.strip()]`. */
  function ParseTags(tags: string): (r: seq<string>)
  {
    CleanPieces(Split(tags, ','))
  }

  /** Every piece stripped, in order. */
  function StripAll(pieces: seq<string>): seq<string> {
    if pieces == [] then [] else [Strip(pieces[0])] + StripAll(pieces[1..])
  }

  /** `t` is the stripped form of one of the pieces. */
  predicate StrippedPiece(t: string, pieces: seq<string>) {
    t in StripAll(pieces)
  }

  /** No cleaned piece holds a comma when no piece does. */
  lemma {:induction false} CleanPiecesHaveNoComma(pieces: seq<string>)
    requires forall i :: 0 <= i < |pieces| ==> ',' !in pieces[i]
    ensures forall t :: t in CleanPieces(pieces) ==> ',' !in t
  {
    if pieces != [] {
      var tail := pieces[1..];
      assert forall i :: 0 <= i < |tail| ==> tail[i] == pieces[i + 1];
      CleanPiecesHaveNoComma(tail);
      StripKeepsOut(pieces[0], ',');
      var head := if Strip(pieces[0]) != "" then [Strip(pieces[0])] else [];
      assert CleanPieces(pieces) == head + CleanPieces(tail);
      forall t | t in head + CleanPieces(tail) ensures ',' !in t {
        InAppend(head, CleanPieces(tail), t);
        if t in head {
          InSingleton(Strip(pieces[0]), t);
        }
      }
    }
  }

  /** Every cleaned piece is the stripped form of one of the pieces. */
  lemma {:induction false} CleanPiecesAreStripped(pieces: seq<string>)
    ensures forall t :: t in CleanPieces(pieces) ==> StrippedPiece(t, pieces)
  {
    if pieces != [] {
      var tail := pieces[1..];
      CleanPiecesAreStripped(tail);
      var s := Strip(pieces[0]);
      assert CleanPieces(pieces) == (if s != "" then [s] else []) + CleanPieces(tail);
      assert StripAll(pieces) == [s] + StripAll(tail);
    }
  }

  /** Stripping does not bring in a character the input lacks. */
  lemma StripKeepsOut(x: string, c: char)
    requires c !in x
    ensures c !in Strip(x)
  {
    var t := TrimStart(x);
    forall j | 0 <= j < |t| ensures t[j] != c {
      assert t[j] == x[|x| - |t| + j];
    }
    var s := TrimEnd(t);
    forall j | 0 <= j < |s| ensures s[j] != c {
      assert s[j] == t[j];
    }
    assert Strip(x) == s;
  }

  /** The tag list parsed from a string is made of well-formed tags, each
      the stripped form of some comma-separated piece of that string. */
  lemma ParseTagsClean(tags: string)
    ensures forall t :: t in ParseTags(tags) ==> CleanTag(t)
    ensures forall t :: t in ParseTags(tags) ==> StrippedPiece(t, Split(tags, ','))
  {
    var pieces := Split(tags, ',');
    CleanPiecesHaveNoComma(pieces);
    CleanPiecesAreStripped(pieces);
    assert ParseTags(tags) == CleanPieces(pieces);
  }

  /** Conversely, the tag list is assembled piece by piece in input order:
      around any piece, the tags of the pieces before it, then that piece's
      own tag (see `CleanPiecesOne`), then the tags of the pieces after it. */
  lemma ParseTagsInOrder(tags: string)
    ensures var pieces := Split(tags, ',');
      forall i :: 0 <= i < |pieces| ==>
        ParseTags(tags) == CleanPieces(pieces[..i]) + CleanPieces([pieces[i]]) + CleanPieces(pieces[i + 1..])
  {
    var pieces := Split(tags, ',');
    assert ParseTags(tags) == CleanPieces(pieces);
    forall i | 0 <= i < |pieces|
      ensures CleanPieces(pieces) == CleanPieces(pieces[..i]) + CleanPieces([pieces[i]]) + CleanPieces(pieces[i + 1..])
    {
      CleanPiecesAround(pieces, i);
    }
  }

  /** So every piece that does not strip to nothing yields its stripped form
      as a tag. */
  lemma ParseTagsKeepsPieces(tags: string)
    ensures var pieces := Split(tags, ',');
      forall i :: 0 <= i < |pieces| && Strip(pieces[i]) != "" ==> Strip(pieces[i]) in ParseTags(tags)
  {
    var pieces := Split(tags, ',');
    forall i | 0 <= i < |pieces| && Strip(pieces[i]) != "" ensures Strip(pieces[i]) in ParseTags(tags) {
      PieceKept(pieces, i);
    }
  }

  /** One non-blank piece and the tags it lands among. */
  lemma PieceKept(pieces: seq<string>, i: nat)
    requires i < |pieces| && Strip(pieces[i]) != ""
    ensures Strip(pieces[i]) in CleanPieces(pieces)
  {
    CleanPiecesAround(pieces, i);
    CleanPiecesOne(pieces[i]);
    var a, b := CleanPieces(pieces[..i]), CleanPieces(pieces[i + 1..]);
    assert CleanPieces(pieces) == a + [Strip(pieces[i])] + b;
    assert (a + [Strip(pieces[i])] + b)[|a|] == Strip(pieces[i]);
  }

  /** `CleanPieces` around the piece at `i`. */
  lemma CleanPiecesAround(pieces: seq<string>, i: nat)
    requires i < |pieces|
    ensures CleanPieces(pieces) == CleanPieces(pieces[..i]) + CleanPieces([pieces[i]]) + CleanPieces(pieces[i + 1..])
  {
    var pre, x, post := pieces[..i], pieces[i], pieces[i + 1..];
    SplitAround(pieces, i);
    CleanPiecesAppend(pre, [x] + post);
    CleanPiecesCons(x, post);
    AppendAssoc(CleanPieces(pre), CleanPieces([x]), CleanPieces(post));
  }

  /** One piece cleans to its stripped form, or to nothing when blank. */
  lemma CleanPiecesOne(x: string)
    ensures CleanPieces([x]) == if Strip(x) != "" then [Strip(x)] else []
  {
    assert [x][1..] == [];
  }

  /** Cleaning distributes over concatenation. */
  lemma {:induction false} CleanPiecesAppend(xs: seq<string>, ys: seq<string>)
    ensures CleanPieces(xs + ys) == CleanPieces(xs) + CleanPieces(ys)
    decreases |xs|
  {
    if xs == [] {
      assert xs + ys == ys;
    } else {
      AppendTail(xs, ys);
      CleanPiecesAppend(xs[1..], ys);
      var head := if Strip(xs[0]) != "" then [Strip(xs[0])] else [];
      AppendAssoc(head, CleanPieces(xs[1..]), CleanPieces(ys));
    }
  }

  /** Leading whitespace in front of a string starting with a non-space is
      dropped by `TrimStart`. */
  lemma {:induction false} TrimStartPastSpaces(pre: string, t: string)
    requires AllSpace(pre)
    requires t == [] || !IsSpace(t[0])
    ensures TrimStart(pre + t) == t
    decreases |pre|
  {
    if pre == [] {
      assert pre + t == t;
    } else {
      assert (pre + t)[1..] == pre[1..] + t;
      TrimStartPastSpaces(pre[1..], t);
    }
  }

  /** Stripping whitespace followed by a stripped string gives that string. */
  lemma StripPastSpaces(pre: string, t: string)
    requires AllSpace(pre) && t != [] && Stripped(t)
    ensures Strip(pre + t) == t
  {
    TrimStartPastSpaces(pre, t);
  }

  /** A single piece made of whitespace and then a well-formed tag cleans to
      that tag; a piece of whitespace alone cleans to nothing. */
  lemma CleanSinglePiece(pre: string, t: string)
    requires AllSpace(pre)
    requires t == [] || CleanTag(t)
    ensures CleanPieces([pre + t]) == (if t == [] then [] else [t])
  {
    assert [pre + t][1..] == [];
    if t == [] {
      assert pre + t == pre;
      StripEmptyIffAllSpace(pre);
    } else {
      StripPastSpaces(pre, t);
    }
  }

  /** Cleaning the pieces of `a,b` when `a` holds no comma: `a` cleaned,
      then the pieces of `b` cleaned. */
  lemma CleanPiecesAfterPiece(a: string, b: string)
    requires ',' !in a
    ensures CleanPieces(Split(a + [','] + b, ',')) == CleanPieces([a]) + CleanPieces(Split(b, ','))
  {
    SplitAfterPiece(a, b, ',');
    CleanPiecesCons(a, Split(b, ','));
  }

  /** Cleaning works piece by piece. */
  lemma CleanPiecesCons(x: string, rest: seq<string>)
    ensures CleanPieces([x] + rest) == CleanPieces([x]) + CleanPieces(rest)
  {
    var ps := [x] + rest;
    assert ps[0] == x && ps[1..] == rest;
    assert [x][0] == x && [x][1..] == [];
  }

  /** Parsing the `", "`-joined form of well-formed tags, behind any run of
      whitespace, gives the tags back. */
  lemma {:induction false} CleanPiecesOfJoin(pre: string, ts: seq<string>)
    requires AllSpace(pre)
    requires forall i :: 0 <= i < |ts| ==> CleanTag(ts[i])
    ensures CleanPieces(Split(pre + Join(ts, ", "), ',')) == ts
    decreases |ts|
  {
    if |ts| <= 1 {
      CleanJoinShort(pre, ts);
    } else {
      assert AllSpace(" ");
      CleanPiecesOfJoin(" ", ts[1..]);
      CleanJoinStep(pre, ts);
    }
  }

  /** `CleanPiecesOfJoin` for no tag and for one tag. */
  lemma CleanJoinShort(pre: string, ts: seq<string>)
    requires AllSpace(pre) && |ts| <= 1
    requires forall i :: 0 <= i < |ts| ==> CleanTag(ts[i])
    ensures CleanPieces(Split(pre + Join(ts, ", "), ',')) == ts
  {
    var t := if ts == [] then [] else ts[0];
    assert pre + Join(ts, ", ") == pre + t;
    NoCommaBeforeTag(pre, t);
    SplitPiece(pre + t, ',');
    CleanSinglePiece(pre, t);
  }

  /** The inductive step of `CleanPiecesOfJoin`: the first tag, then the
      rest behind the blank that follows the comma. */
  lemma CleanJoinStep(pre: string, ts: seq<string>)
    requires AllSpace(pre) && |ts| >= 2 && CleanTag(ts[0])
    requires CleanPieces(Split(" " + Join(ts[1..], ", "), ',')) == ts[1..]
    ensures CleanPieces(Split(pre + Join(ts, ", "), ',')) == ts
  {
    var rest := CleanPieces(Split(" " + Join(ts[1..], ", "), ','));
    CleanJoinAtFirst(pre, ts);
    assert CleanPieces(Split(pre + Join(ts, ", "), ',')) == [ts[0]] + rest;
    HeadTail(ts);
  }

  /** Cleaning the joined tags behind whitespace: the first tag, then the
      pieces of the rest behind the blank after the first comma. */
  lemma CleanJoinAtFirst(pre: string, ts: seq<string>)
    requires AllSpace(pre) && |ts| >= 2 && CleanTag(ts[0])
    ensures CleanPieces(Split(pre + Join(ts, ", "), ','))
         == [ts[0]] + CleanPieces(Split(" " + Join(ts[1..], ", "), ','))
  {
    JoinAfterFirst(pre, ts);
    CleanAfterTag(pre, ts[0], " " + Join(ts[1..], ", "), pre + Join(ts, ", "));
  }

  /** A well-formed tag behind whitespace, then a comma: the tag is the
      first cleaned piece, the pieces after the comma follow. */
  lemma CleanAfterTag(pre: string, t: string, rest: string, x: string)
    requires AllSpace(pre) && CleanTag(t) && x == (pre + t) + [','] + rest
    ensures CleanPieces(Split(x, ',')) == [t] + CleanPieces(Split(rest, ','))
  {
    NoCommaBeforeTag(pre, t);
    CleanPiecesAfterPiece(pre + t, rest);
    CleanSinglePiece(pre, t);
  }

  /** The `", "`-joined form of two or more strings, split at its first
      comma. */
  lemma JoinAfterFirst(pre: string, ts: seq<string>)
    requires |ts| >= 2
    ensures pre + Join(ts, ", ") == (pre + ts[0]) + [','] + (" " + Join(ts[1..], ", "))
  {
    assert Join(ts, ", ") == ts[0] + ", " + Join(ts[1..], ", ");
    RegroupAtComma(pre, ts[0], Join(ts[1..], ", "));
  }

  lemma RegroupAtComma(pre: string, t: string, rest: string)
    ensures pre + (t + ", " + rest) == (pre + t) + [','] + (" " + rest)
  {
    assert ", " == [','] + " ";
  }

  /** Whitespace followed by a well-formed tag holds no comma. */
  lemma NoCommaBeforeTag(pre: string, t: string)
    requires AllSpace(pre)
    requires t == [] || CleanTag(t)
    ensures ',' !in pre + t
  {
    var x := pre + t;
    forall j | 0 <= j < |x| ensures x[j] != ',' {
      if j < |pre| {
        assert x[j] == pre[j] && IsSpace(pre[j]);
      } else {
        assert x[j] == t[j - |pre|];
      }
    }
  }

  /** Round trip: the tags of a record, joined with ", " as the node shows
      them, parse back to the same list when every tag is well formed. */
  lemma ParseJoinedTags(ts: seq<string>)
    requires forall i :: 0 <= i < |ts| ==> CleanTag(ts[i])
    ensures ParseTags(Join(ts, ", ")) == ts
  {
    CleanPiecesOfJoin("", ts);
    assert "" + Join(ts, ", ") == Join(ts, ", ");
  }

  // ---------------------------------------------------------------------------
  // Change detection
  // ---------------------------------------------------------------------------

  /** `_is_complete_rewrite`: an empty text on either side always counts as a
      rewrite; otherwise the similarity ratio must be below 0.2. */
  predicate IsCompleteRewrite(oldText: string, newText: string, similarity: (string, string) -> real) {
    oldText == "" || newText == "" || similarity(oldText, newText) < RewriteThreshold
  }

  // ---------------------------------------------------------------------------
  // process
  // ---------------------------------------------------------------------------

  /** The inputs of one `process` call. */
  datatype SaverInput = SaverInput(
    text: string,
    locked: bool,
    category: string,
    newCategory: string,
    tags: string,
    rating: int,
    notes: string,
    autoSave: bool)

  /** The node's outputs: text, category and prompt id. */
  datatype SaverOutput = SaverOutput(text: string, category: string, promptId: int)

  /** The update a locked save sends for the category's latest record: every
      field the node has. */
  function SaveUpdate(input: SaverInput, category: string): PromptUpdate {
    PromptUpdate(Some(input.text), Some(category), Some(ParseTags(input.tags)),
                 Some(input.rating), Some(input.notes))
  }

  /** A locked, auto-saving call inserts (rather than updates) when the node
      remembers no text or the text was completely rewritten. */
  predicate SavesAsNew(prev: string, text: string, similarity: (string, string) -> real) {
    prev == "" || IsCompleteRewrite(prev, text, similarity)
  }

  /** The database state and the id a locked, auto-saving call produces,
      given the text the node remembers (`prev`). */
  function SaveLocked(s: Store, prev: string, input: SaverInput, category: string,
                      similarity: (string, string) -> real, now: int): (Store, int)
  {
    var added := AddResult(s, input.text, category, ParseTags(input.tags), input.rating, input.notes, None, now);
    if SavesAsNew(prev, input.text, similarity) then added
    else
      match LatestByCategory(s.prompts, category)
      case Some(p) => (UpdateResult(s, p.id, SaveUpdate(input, category), now).0, p.id)
      case None => added
  }

  /** `process` on the database state `s` and the remembered texts `last`:
      the new database state, the new remembered texts and the outputs. */
  function Processed(s: Store, last: map<int, string>, node: int, input: SaverInput,
                     similarity: (string, string) -> real, now: int): (Store, map<int, string>, SaverOutput)
  {
    var category := ResolveCategory(input.category, input.newCategory);
    if !input.locked then
      match LatestByCategory(s.prompts, category)
      case Some(p) => (s, last[node := p.text], SaverOutput(p.text, category, p.id))
      case None => (s, last, SaverOutput(input.text, category, 0))
    else if !input.autoSave then
      (s, last, SaverOutput(input.text, category, 0))
    else
      var saved := SaveLocked(s, Remembered(last, node), input, category, similarity, now);
      (saved.0, last[node := input.text], SaverOutput(input.text, category, saved.1))
  }

  /** Unlocked mode never writes to the database. It outputs the latest
      record of the category (its text and id) and remembers that text, or,
      when the category is empty, the input text with id 0 and nothing
      remembered. */
  lemma UnlockedLoadsLatest(s: Store, last: map<int, string>, node: int, input: SaverInput,
                            similarity: (string, string) -> real, now: int)
    requires !input.locked
    ensures var r := Processed(s, last, node, input, similarity, now);
      var category := ResolveCategory(input.category, input.newCategory);
      && r.0 == s
      && r.2.category == category
      && ((forall p :: p in s.prompts ==> p.category != category) ==>
            r.1 == last && r.2.text == input.text && r.2.promptId == 0)
  {
  }

  /** In unlocked mode with a non-empty category, the output names a stored
      record of that category, updated no earlier than any other record of
      it, and the node now remembers that record's text. */
  lemma UnlockedOutputIsLatestRecord(s: Store, last: map<int, string>, node: int, input: SaverInput,
                                     similarity: (string, string) -> real, now: int)
    requires !input.locked
    requires exists p :: p in s.prompts && p.category == ResolveCategory(input.category, input.newCategory)
    ensures var r := Processed(s, last, node, input, similarity, now);
      var category := ResolveCategory(input.category, input.newCategory);
      && r.0 == s
      && (exists p :: p in s.prompts && p.category == category && p.id == r.2.promptId && p.text == r.2.text
            && r.1 == last[node := p.text]
            && forall q :: q in s.prompts && q.category == category ==> q.updatedAt <= p.updatedAt)
  {
    var category := ResolveCategory(input.category, input.newCategory);
    var latest := LatestByCategory(s.prompts, category);
    assert latest.Some?;
    var p := latest.value;
    assert p in s.prompts && p.category == category;
  }

  /** Locked mode with auto-save off outputs the input text, the resolved
      category and id 0, and changes nothing. */
  lemma LockedWithoutAutoSaveChangesNothing(s: Store, last: map<int, string>, node: int, input: SaverInput,
                                            similarity: (string, string) -> real, now: int)
    requires input.locked && !input.autoSave
    ensures Processed(s, last, node, input, similarity, now)
         == (s, last, SaverOutput(input.text, ResolveCategory(input.category, input.newCategory), 0))
  {
  }

  /** After a locked, auto-saving call the node remembers exactly the text it
      was given, it outputs that text unchanged, and the database state and
      id are those of saving against the text it remembered before. */
  lemma AutoSaveRemembersText(s: Store, last: map<int, string>, node: int, input: SaverInput,
                              similarity: (string, string) -> real, now: int)
    requires input.locked && input.autoSave
    ensures var r := Processed(s, last, node, input, similarity, now);
      var category := ResolveCategory(input.category, input.newCategory);
      var saved := SaveLocked(s, Remembered(last, node), input, category, similarity, now);
      && r.1 == last[node := input.text] && r.2.text == input.text && r.2.category == category
      && r.0 == saved.0 && r.2.promptId == saved.1
  {
  }

  /** A locked, auto-saving call edits an existing record only when both
      the remembered and the submitted text are non-empty and the measure
      rates them at least 0.2 alike: whenever its state or id differs from
      `add_prompt`'s, those three conditions hold. */
  lemma UpdateOnlyWhenSimilar(s: Store, last: map<int, string>, node: int, input: SaverInput,
                              similarity: (string, string) -> real, now: int)
    requires input.locked && input.autoSave
    ensures var r := Processed(s, last, node, input, similarity, now);
      var category := ResolveCategory(input.category, input.newCategory);
      var added := AddResult(s, input.text, category, ParseTags(input.tags), input.rating, input.notes, None, now);
      var prev := Remembered(last, node);
      (r.0 != added.0 || r.2.promptId != added.1) ==>
        prev != "" && input.text != "" && similarity(prev, input.text) >= RewriteThreshold
  {
    var prev := Remembered(last, node);
    if !(prev != "" && input.text != "" && similarity(prev, input.text) >= RewriteThreshold) {
      SaveInserts(s, prev, input, ResolveCategory(input.category, input.newCategory), similarity, now);
    }
  }

  /** When the node remembers no text, or the submitted text is empty, the
      similarity measure is never consulted: any two measures give the same
      outcome of `process`. */
  lemma EmptyTextIgnoresSimilarity(s: Store, last: map<int, string>, node: int, input: SaverInput,
                                   sim1: (string, string) -> real, sim2: (string, string) -> real, now: int)
    requires Remembered(last, node) == "" || input.text == ""
    ensures Processed(s, last, node, input, sim1, now) == Processed(s, last, node, input, sim2, now)
  {
  }

  /** A locked, auto-saving call inserts (`add_prompt`) when the node
      remembers no text or the text was rewritten, and also when the
      category holds no record. */
  lemma SaveInserts(s: Store, prev: string, input: SaverInput, category: string,
                    similarity: (string, string) -> real, now: int)
    requires SavesAsNew(prev, input.text, similarity) || LatestByCategory(s.prompts, category).None?
    ensures SaveLocked(s, prev, input, category, similarity, now)
         == AddResult(s, input.text, category, ParseTags(input.tags), input.rating, input.notes, None, now)
  {
  }

  /** Otherwise it updates the category's latest record (not necessarily
      the record the node saved last) with every field it has, and outputs
      that record's id. */
  lemma SaveUpdatesLatest(s: Store, prev: string, input: SaverInput, category: string,
                          similarity: (string, string) -> real, now: int)
    requires !SavesAsNew(prev, input.text, similarity) && LatestByCategory(s.prompts, category).Some?
    ensures var latest := LatestByCategory(s.prompts, category).value;
      SaveLocked(s, prev, input, category, similarity, now)
      == (UpdateResult(s, latest.id, SaveUpdate(input, category), now).0, latest.id)
  {
  }

  /** The id a locked, auto-saving call outputs names a record of the new
      database state whose text is the submitted text, provided every stored
      hash is the hash of its record's text. */
  lemma SaveIdHoldsText(s: Store, prev: string, input: SaverInput, category: string,
                        similarity: (string, string) -> real, now: int)
    requires HashesMatchText(s.prompts)
    ensures var r := SaveLocked(s, prev, input, category, similarity, now);
      exists p :: p in r.0.prompts && p.id == r.1 && p.text == input.text
  {
    var latest := LatestByCategory(s.prompts, category);
    if SavesAsNew(prev, input.text, similarity) || latest.None? {
      SaveInserts(s, prev, input, category, similarity, now);
      AddedIdHoldsText(s, input.text, category, ParseTags(input.tags), input.rating, input.notes, now);
    } else {
      SaveUpdatesLatest(s, prev, input, category, similarity, now);
      UpdatedIdHoldsText(s, latest.value, SaveUpdate(input, category), now);
    }
  }

  /** `add_prompt` returns the id of a record holding the text: the existing
      record with its hash, or the appended one. */
  lemma AddedIdHoldsText(s: Store, text: string, category: string, tags: seq<string>, rating: int,
                         notes: string, now: int)
    requires HashesMatchText(s.prompts)
    ensures var res := AddResult(s, text, category, tags, rating, notes, None, now);
      exists p :: p in res.0.prompts && p.id == res.1 && p.text == text
  {
    var res := AddResult(s, text, category, tags, rating, notes, None, now);
    match FirstWithHash(s.prompts, HashOf(text))
    case Some(k) => {
      assert s.prompts[k].hash == HashOf(s.prompts[k].text);
      assert s.prompts[k] in res.0.prompts;
    }
    case None => {
      AddFreshResult(s, text, category, tags, rating, notes, None, now);
      var p := NewRecord(NextId(s.prompts), text, category, tags, rating, notes, None, now);
      assert res.0.prompts[|s.prompts|] == p;
    }
  }

  /** Updating the text of a stored record's id leaves a record with that id
      and the new text. */
  lemma UpdatedIdHoldsText(s: Store, p: Prompt, u: PromptUpdate, now: int)
    requires p in s.prompts && u.text.Some?
    ensures exists q :: q in UpdateResult(s, p.id, u, now).0.prompts && q.id == p.id && q.text == u.text.value
  {
    var k :| 0 <= k < |s.prompts| && s.prompts[k] == p;
    assert FirstWithId(s.prompts, p.id).Some? by {
      assert s.prompts[k].id == p.id;
    }
    UpdateFoundResult(s, p.id, u, now);
    var j := FirstWithId(s.prompts, p.id).value;
    var ps := UpdateResult(s, p.id, u, now).0.prompts;
    assert ps[j] == ApplyUpdate(s.prompts[j], u, now);
    assert ps[j] in ps;
  }

  /** Saving keeps ids unique and the registries free of repeats. */
  lemma SavePreservesValid(s: Store, prev: string, input: SaverInput, category: string,
                           similarity: (string, string) -> real, now: int)
    requires ValidStore(s)
    ensures ValidStore(SaveLocked(s, prev, input, category, similarity, now).0)
  {
    var latest := LatestByCategory(s.prompts, category);
    if SavesAsNew(prev, input.text, similarity) || latest.None? {
      SaveInserts(s, prev, input, category, similarity, now);
      AddPreservesValid(s, input.text, category, ParseTags(input.tags), input.rating, input.notes, None, now);
    } else {
      SaveUpdatesLatest(s, prev, input, category, similarity, now);
      UpdatePreservesValid(s, latest.value.id, SaveUpdate(input, category), now);
    }
  }

  /** The node: its identity (Python's `id(self)`), the database it writes
      to and the text it remembers per node identity. */
  class PromptSaverNode {
    const nodeId: int
    const db: Database
    var lastText: map<int, string>

    /** `__init__`: no remembered text. The database is the one given; the
        source loads it from disk, which is not modelled. */
    constructor (nodeId: int, db: Database)
      ensures this.nodeId == nodeId && this.db == db && lastText == map[]
    {
      this.nodeId := nodeId;
      this.db := db;
      lastText := map[];
    }

    /** `process`: the outputs, the database and the remembered texts end up
        as `Processed` describes. */
    method Process(input: SaverInput, similarity: (string, string) -> real, now: int) returns (out: SaverOutput)
      modifies this, db
      ensures var r := Processed(old(db.State()), old(lastText), nodeId, input, similarity, now);
        db.State() == r.0 && lastText == r.1 && out == r.2
      ensures db.settings == old(db.settings)
      ensures old(db.Valid()) ==> db.Valid()
    {
      ghost var s0 := db.State();
      var category := ResolveCategory(input.category, input.newCategory);
      if !input.locked {
        var latest := db.GetLatestPromptByCategory(category);
        if latest.Some? {
          assert Processed(s0, lastText, nodeId, input, similarity, now)
              == (s0, lastText[nodeId := latest.value.text], SaverOutput(latest.value.text, category, latest.value.id));
          lastText := lastText[nodeId := latest.value.text];
          return SaverOutput(latest.value.text, category, latest.value.id);
        }
        assert Processed(s0, lastText, nodeId, input, similarity, now)
            == (s0, lastText, SaverOutput(input.text, category, 0));
        return SaverOutput(input.text, category, 0);
      }
      if !input.autoSave {
        LockedWithoutAutoSaveChangesNothing(s0, lastText, nodeId, input, similarity, now);
        return SaverOutput(input.text, category, 0);
      }
      AutoSaveRemembersText(s0, lastText, nodeId, input, similarity, now);
      var prev := if nodeId in lastText then lastText[nodeId] else "";
      var id := Save(prev, input, category, similarity, now);
      lastText := lastText[nodeId := input.text];
      out := SaverOutput(input.text, category, id);
    }

    /** The saving branch of `process`: `add_prompt`, or `update_prompt` on
        the category's latest record. */
    method Save(prev: string, input: SaverInput, category: string, similarity: (string, string) -> real, now: int)
      returns (id: int)
      modifies db
      ensures var saved := SaveLocked(old(db.State()), prev, input, category, similarity, now);
        db.State() == saved.0 && id == saved.1
      ensures db.settings == old(db.settings)
      ensures old(db.Valid()) ==> db.Valid()
    {
      ghost var s0 := db.State();
      var tagList := ParseTags(input.tags);
      ghost var added := AddResult(s0, input.text, category, tagList, input.rating, input.notes, None, now);
      assert NewThumbnail(None, "", now) == None;
      if prev == "" || IsCompleteRewrite(prev, input.text, similarity) {
        SaveInserts(s0, prev, input, category, similarity, now);
        id := db.AddPrompt(input.text, category, tagList, input.rating, input.notes, None, "", now);
        assert db.State() == added.0 && id == added.1;
      } else {
        var latest := db.GetLatestPromptByCategory(category);
        if latest.Some? {
          SaveUpdatesLatest(s0, prev, input, category, similarity, now);
          id := latest.value.id;
          var u := PromptUpdate(Some(input.text), Some(category), Some(tagList), Some(input.rating), Some(input.notes));
          assert u == SaveUpdate(input, category);
          var _ := db.UpdatePrompt(id, u, now);
          assert db.State() == UpdateResult(s0, id, u, now).0;
        } else {
          SaveInserts(s0, prev, input, category, similarity, now);
          id := db.AddPrompt(input.text, category, tagList, input.rating, input.notes, None, "", now);
          assert db.State() == added.0 && id == added.1;
        }
      }
      if ValidStore(s0) {
        SavePreservesValid(s0, prev, input, category, similarity, now);
      }
    }
  }
}
