/** The decisions the browser panel (js/prompting_system.js) takes on values:
    the rating a star click sends, which stars are drawn filled, the query of
    the prompt list, the card preview, which canvas button of the Smart Text
    node a click lands on, and the name under which a workflow is saved. The
    DOM, `fetch`, local storage and the clipboard are not modelled. */
module PromptingPanel {
  import opened Common

  // ---------------------------------------------------------------------------
  // Star rating
  // ---------------------------------------------------------------------------

  /** The rating sent when star `i` of a card whose record has rating
      `rating` (absent when the record has none) is clicked: clicking the
      star of the current rating clears it, any other star sets it. */
  function ClickedRating(i: int, rating: Option<int>): (r: int)
    requires 1 <= i <= 5
    ensures 0 <= r <= 5
    ensures r == 0 <==> rating == Some(i)
    ensures r != 0 ==> r == i
  {
    if rating == Some(i) then 0 else i
  }

  /** Star `i` is drawn filled when it is at most the rating, a missing
      rating counting as 0. */
  predicate StarFilled(i: int, rating: Option<int>) {
    i <= rating.GetOr(0)
  }

  /** Once the record holds the sent rating, clicking star `i` leaves stars
      1..i filled and the rest empty, unless `i` was the current rating, in
      which case no star is filled; clicking the same star again restores
      rating `i`. */
  lemma {:induction false} ClickThenRedraw(i: int, rating: Option<int>)
    requires 1 <= i <= 5
    ensures var sent := ClickedRating(i, rating);
      forall j :: 1 <= j <= 5 ==>
        (StarFilled(j, Some(sent)) <==> rating != Some(i) && j <= i)
    ensures ClickedRating(i, Some(ClickedRating(i, Some(i)))) == i
  {
    var sent := ClickedRating(i, rating);
    forall j | 1 <= j <= 5
      ensures StarFilled(j, Some(sent)) <==> rating != Some(i) && j <= i
    {
      assert Some(sent).GetOr(0) == sent;
    }
    assert ClickedRating(i, Some(i)) == 0;
  }

  // ---------------------------------------------------------------------------
  // The prompt-list query
  // ---------------------------------------------------------------------------

  /** The filter value that means "no filter" for category, model and tag. */
  const AllChoice := "All"
  /** The number of prompts the panel asks for. */
  const ListLimit := "50"

  /** The query holds some pair with key `key`. */
  predicate HasKey(params: seq<(string, string)>, key: string) {
    exists i :: 0 <= i < |params| && params[i].0 == key
  }

  /** One optional parameter: present exactly when `present` holds. */
  function OptionalParam(present: bool, key: string, value: string): seq<(string, string)> {
    if present then [(key, value)] else []
  }

  /** `loadData`'s query parameters, in the order they are appended. */
  function ListQuery(search: string, category: string, model: string, tag: string): (r: seq<(string, string)>)
    ensures r != [] && r[|r| - 1] == ("limit", ListLimit)
    ensures forall i :: 0 <= i < |r| ==>
      r[i] in {("search", search), ("category", category), ("model", model), ("tag", tag), ("limit", ListLimit)}
  {
    OptionalParam(search != "", "search", search)
    + OptionalParam(category != AllChoice, "category", category)
    + OptionalParam(model != AllChoice, "model", model)
    + OptionalParam(tag != AllChoice, "tag", tag)
    + [("limit", ListLimit)]
  }

  lemma HasKeyAppend(a: seq<(string, string)>, b: seq<(string, string)>, key: string)
    ensures HasKey(a + b, key) <==> HasKey(a, key) || HasKey(b, key)
  {
    if HasKey(a, key) {
      var i :| 0 <= i < |a| && a[i].0 == key;
      assert (a + b)[i] == a[i];
    }
    if HasKey(b, key) {
      var i :| 0 <= i < |b| && b[i].0 == key;
      assert (a + b)[|a| + i] == b[i];
    }
  }

  lemma HasKeyOptional(present: bool, k: string, value: string, key: string)
    ensures HasKey(OptionalParam(present, k, value), key) <==> present && k == key
  {
    if present && k == key {
      assert OptionalParam(present, k, value)[0].0 == key;
    }
  }

  /** The search text is sent exactly when it is not empty, and each of the
      category, model and tag filters exactly when it is not "All". */
  lemma ListQueryFilters(search: string, category: string, model: string, tag: string)
    ensures var r := ListQuery(search, category, model, tag);
      && (HasKey(r, "search") <==> search != "")
      && (HasKey(r, "category") <==> category != AllChoice)
      && (HasKey(r, "model") <==> model != AllChoice)
      && (HasKey(r, "tag") <==> tag != AllChoice)
  {
    var a := OptionalParam(search != "", "search", search);
    var b := OptionalParam(category != AllChoice, "category", category);
    var c := OptionalParam(model != AllChoice, "model", model);
    var d := OptionalParam(tag != AllChoice, "tag", tag);
    var e := [("limit", ListLimit)];
    forall key | key in {"search", "category", "model", "tag"}
      ensures HasKey(a + b + c + d + e, key) <==> HasKey(a, key) || HasKey(b, key) || HasKey(c, key) || HasKey(d, key)
    {
      HasKeyAppend(a + b + c + d, e, key);
      HasKeyAppend(a + b + c, d, key);
      HasKeyAppend(a + b, c, key);
      HasKeyAppend(a, b, key);
      assert !HasKey(e, key);
    }
    forall key | key in {"search", "category", "model", "tag"}
      ensures HasKey(a, key) <==> search != "" && key == "search"
      ensures HasKey(b, key) <==> category != AllChoice && key == "category"
      ensures HasKey(c, key) <==> model != AllChoice && key == "model"
      ensures HasKey(d, key) <==> tag != AllChoice && key == "tag"
    {
      HasKeyOptional(search != "", "search", search, key);
      HasKeyOptional(category != AllChoice, "category", category, key);
      HasKeyOptional(model != AllChoice, "model", model, key);
      HasKeyOptional(tag != AllChoice, "tag", tag, key);
    }
  }

  /** Every key occurs at most once, so each filter the query carries has the
      value the user chose. */
  lemma ListQueryKeysDistinct(search: string, category: string, model: string, tag: string)
    ensures var r := ListQuery(search, category, model, tag);
      forall i, j :: 0 <= i < j < |r| ==> r[i].0 != r[j].0
  {
    var a := OptionalParam(search != "", "search", search);
    var b := OptionalParam(category != AllChoice, "category", category);
    var c := OptionalParam(model != AllChoice, "model", model);
    var d := OptionalParam(tag != AllChoice, "tag", tag);
    var e := [("limit", ListLimit)];
    OptionalRanked(search != "", "search", search);
    OptionalRanked(category != AllChoice, "category", category);
    OptionalRanked(model != AllChoice, "model", model);
    OptionalRanked(tag != AllChoice, "tag", tag);
    assert Ascending(e) && RanksIn(e, 4, 5);
    RankedAppend(a, b, 0, 1, 2);
    RankedAppend(a + b, c, 0, 2, 3);
    RankedAppend(a + b + c, d, 0, 3, 4);
    RankedAppend(a + b + c + d, e, 0, 4, 5);
  }

  /** The position of each query key in the order `loadData` appends them. */
  function KeyRank(key: string): nat {
    if key == "search" then 0
    else if key == "category" then 1
    else if key == "model" then 2
    else if key == "tag" then 3
    else 4
  }

  /** The keys' ranks strictly increase along the parameters. */
  predicate Ascending(ps: seq<(string, string)>) {
    forall i, j :: 0 <= i < j < |ps| ==> KeyRank(ps[i].0) < KeyRank(ps[j].0)
  }

  predicate RanksIn(ps: seq<(string, string)>, lo: nat, hi: nat) {
    forall i :: 0 <= i < |ps| ==> lo <= KeyRank(ps[i].0) < hi
  }

  lemma OptionalRanked(present: bool, key: string, value: string)
    ensures Ascending(OptionalParam(present, key, value))
    ensures RanksIn(OptionalParam(present, key, value), KeyRank(key), KeyRank(key) + 1)
  {
  }

  /** Ascending runs of ranks in consecutive ranges concatenate to an
      ascending run. */
  lemma RankedAppend(a: seq<(string, string)>, b: seq<(string, string)>, lo: nat, mid: nat, hi: nat)
    requires lo <= mid <= hi && Ascending(a) && RanksIn(a, lo, mid)
    requires Ascending(b) && RanksIn(b, mid, hi)
    ensures Ascending(a + b) && RanksIn(a + b, lo, hi)
  {
    forall i, j | 0 <= i < j < |a + b| ensures KeyRank((a + b)[i].0) < KeyRank((a + b)[j].0) {
      if j < |a| {
        assert (a + b)[i] == a[i] && (a + b)[j] == a[j];
      } else if i < |a| {
        assert (a + b)[i] == a[i] && (a + b)[j] == b[j - |a|];
      } else {
        assert (a + b)[i] == b[i - |a|] && (a + b)[j] == b[j - |a|];
      }
    }
    forall i | 0 <= i < |a + b| ensures lo <= KeyRank((a + b)[i].0) < hi {
      if i < |a| {
        assert (a + b)[i] == a[i];
      } else {
        assert (a + b)[i] == b[i - |a|];
      }
    }
  }

  // ---------------------------------------------------------------------------
  // Card preview
  // ---------------------------------------------------------------------------

  /** The number of characters a card shows. */
  const PreviewLength := 120

  /** The card text: the first 120 characters, with "..." after them when the
      text is longer. */
  function Preview(text: string): (r: string)
    ensures |r| <= PreviewLength + 3
    ensures |text| <= PreviewLength ==> r == text
    ensures |text| > PreviewLength ==>
      |r| == PreviewLength + 3 && r[..PreviewLength] == text[..PreviewLength] && r[PreviewLength..] == "..."
  {
    text[..Min(PreviewLength, |text|)] + (if |text| > PreviewLength then "..." else "")
  }

  /** Previewing a preview changes nothing: a shortened text keeps its
      first 120 characters and its "...". */
  lemma PreviewIdempotent(text: string)
    ensures Preview(Preview(text)) == Preview(text)
  {
    var p := Preview(text);
    if |text| > PreviewLength {
      assert p[..PreviewLength] + "..." == p;
    }
  }

  // ---------------------------------------------------------------------------
  // Canvas buttons of the Smart Text node
  // ---------------------------------------------------------------------------

  /** A button's horizontal offset and width. */
  datatype Button = Button(x: real, w: real)

  /** Where the row of buttons starts and its vertical extent. */
  const ButtonsStartX: real := 10.0
  const ButtonsY: real := 4.0
  const ButtonsHeight: real := 20.0

  /** The three buttons the node is created with. */
  const NodeButtons: seq<Button> := [Button(0.0, 22.0), Button(24.0, 22.0), Button(48.0, 22.0)]

  /** The point lies in the button's rectangle, borders included. */
  predicate Hits(b: Button, px: real, py: real) {
    ButtonsStartX + b.x <= px <= ButtonsStartX + b.x + b.w && ButtonsY <= py <= ButtonsY + ButtonsHeight
  }

  /** `onMouseDown`: the index of the first button the point hits, or None
      when it hits none and the event goes to the node. */
  method HitTest(buttons: seq<Button>, px: real, py: real) returns (r: Option<nat>)
    ensures r.Some? ==> r.value < |buttons| && Hits(buttons[r.value], px, py)
    ensures r.Some? ==> forall j :: 0 <= j < r.value ==> !Hits(buttons[j], px, py)
    ensures r.None? <==> forall j :: 0 <= j < |buttons| ==> !Hits(buttons[j], px, py)
  {
    for i := 0 to |buttons|
      invariant forall j :: 0 <= j < i ==> !Hits(buttons[j], px, py)
    {
      var b := buttons[i];
      if ButtonsStartX + b.x <= px && px <= ButtonsStartX + b.x + b.w
        && ButtonsY <= py && py <= ButtonsY + ButtonsHeight
      {
        return Some(i);
      }
    }
    return None;
  }

  /** The node's three buttons do not overlap: a point hits at most one,
      so the first hit is the only one. */
  lemma NodeButtonsDisjoint(i: int, j: int, px: real, py: real)
    requires 0 <= i < |NodeButtons| && 0 <= j < |NodeButtons|
    requires Hits(NodeButtons[i], px, py) && Hits(NodeButtons[j], px, py)
    ensures i == j
  {
  }

  // ---------------------------------------------------------------------------
  // Workflow name
  // ---------------------------------------------------------------------------

  /** The first position where `needle` occurs in `hay` (JavaScript's
      `indexOf`), None when it does not occur. */
  function FindFirst(hay: string, needle: string): (r: Option<nat>)
    ensures r.Some? ==> r.value + |needle| <= |hay|
    decreases |hay|
  {
    if IsPrefix(needle, hay) then Some(0)
    else if hay == [] then None
    else
      match FindFirst(hay[1..], needle)
      case None => None
      case Some(k) => Some(k + 1)
  }

  /** `FindFirst` finds an occurrence, and it is the first one; None means
      there is none. */
  lemma {:induction false} FindFirstIsFirst(hay: string, needle: string)
    ensures FindFirst(hay, needle).Some? ==> OccursAt(hay, needle, FindFirst(hay, needle).value)
    ensures FindFirst(hay, needle).Some? ==>
      forall j :: 0 <= j < FindFirst(hay, needle).value ==> !OccursAt(hay, needle, j)
    ensures FindFirst(hay, needle).None? <==> forall j :: !OccursAt(hay, needle, j)
    decreases |hay|
  {
    if IsPrefix(needle, hay) {
      assert OccursAt(hay, needle, 0);
    } else if hay == [] {
      forall j ensures !OccursAt(hay, needle, j) {
      }
    } else {
      FindFirstIsFirst(hay[1..], needle);
      assert !OccursAt(hay, needle, 0);
      match FindFirst(hay[1..], needle)
      case None =>
        forall j ensures !OccursAt(hay, needle, j) {
          if j >= 1 {
            OccursShift(hay, needle, j);
          }
        }
      case Some(k) =>
        OccursShift(hay, needle, k + 1);
        forall j | 0 <= j < k + 1 ensures !OccursAt(hay, needle, j) {
          if j >= 1 {
            OccursShift(hay, needle, j);
          }
        }
    }
  }

  /** An occurrence after the first position is an occurrence in the rest. */
  lemma OccursShift(hay: string, needle: string, j: int)
    requires hay != [] && j >= 1
    ensures OccursAt(hay, needle, j) <==> OccursAt(hay[1..], needle, j - 1)
  {
    if 0 <= j <= |hay| - |needle| {
      var here, there := hay[j..j + |needle|], hay[1..][j - 1..j - 1 + |needle|];
      assert |here| == |there|;
      forall q | 0 <= q < |here| ensures here[q] == there[q] {
        assert here[q] == hay[j + q] == hay[1..][j - 1 + q];
      }
      assert here == there;
    }
  }

  /** The separator between a workflow's name and the rest of the page
      title. */
  const TitleSeparator := " - "

  /** A value JavaScript treats as true: present and not empty. */
  predicate Truthy(s: Option<string>) {
    s.Some? && s.value != ""
  }

  /** `getWorkflowName`: the graph's extra title, else the graph's name,
      else the trimmed part of the page title before its first " - ", else
      "workflow_" and the date part of the current ISO time. */
  function WorkflowName(extraTitle: Option<string>, graphName: Option<string>, pageTitle: string, isoNow: string): string {
    if Truthy(extraTitle) then extraTitle.value
    else if Truthy(graphName) then graphName.value
    else
      match FindFirst(pageTitle, TitleSeparator)
      case Some(k) => Strip(pageTitle[..k])
      case None => "workflow_" + isoNow[..Min(10, |isoNow|)]
  }

  /** Which source names the workflow: a title read from the page is the
      trimmed text before the first separator and holds no separator itself;
      the fallback is used only when the page title has no separator. */
  lemma WorkflowNameSources(extraTitle: Option<string>, graphName: Option<string>, pageTitle: string, isoNow: string)
    ensures var r := WorkflowName(extraTitle, graphName, pageTitle, isoNow);
      && (Truthy(extraTitle) ==> r == extraTitle.value)
      && (!Truthy(extraTitle) && Truthy(graphName) ==> r == graphName.value)
      && (!Truthy(extraTitle) && !Truthy(graphName) && Contains(pageTitle, TitleSeparator) ==>
            Stripped(r) && !Contains(r, TitleSeparator)
            && exists k :: && OccursAt(pageTitle, TitleSeparator, k)
                           && (forall j :: 0 <= j < k ==> !OccursAt(pageTitle, TitleSeparator, j))
                           && r == Strip(pageTitle[..k]))
      && (!Truthy(extraTitle) && !Truthy(graphName) && !Contains(pageTitle, TitleSeparator) ==>
            r == "workflow_" + isoNow[..Min(10, |isoNow|)])
  {
    FindFirstIsFirst(pageTitle, TitleSeparator);
    ContainsIffOccurs(pageTitle, TitleSeparator);
    if !Truthy(extraTitle) && !Truthy(graphName) && FindFirst(pageTitle, TitleSeparator).Some? {
      var k := FindFirst(pageTitle, TitleSeparator).value;
      HeadHasNoSeparator(pageTitle, TitleSeparator, k);
    }
  }

  /** The text before the first occurrence of a non-empty separator,
      trimmed, holds no separator. */
  lemma HeadHasNoSeparator(title: string, sep: string, k: nat)
    requires sep != [] && k <= |title|
    requires forall j :: 0 <= j < k ==> !OccursAt(title, sep, j)
    ensures !Contains(Strip(title[..k]), sep)
  {
    var r := Strip(title[..k]);
    var i := StripOffset(title[..k]);
    SliceOfPrefix(title, k, i, |r|);
    NoOccurrenceInside(title, sep, k, i, r);
    ContainsIffOccurs(r, sep);
  }

  /** Where the stripped text starts inside the original. */
  lemma StripOffset(s: string) returns (i: nat)
    ensures i + |Strip(s)| <= |s| && Strip(s) == s[i..i + |Strip(s)|]
  {
    var t := TrimStart(s);
    i := |s| - |t|;
    assert t == s[i..];
  }

  /** A slice of a prefix is a slice of the whole. */
  lemma SliceOfPrefix(s: string, k: nat, i: nat, n: nat)
    requires i + n <= k <= |s|
    ensures s[..k][i..i + n] == s[i..i + n]
  {
  }

  /** A slice ending by `k` holds no occurrence of `sep` when none starts
      before `k`. */
  lemma NoOccurrenceInside(title: string, sep: string, k: nat, i: nat, r: string)
    requires sep != [] && i + |r| <= k <= |title| && r == title[i..i + |r|]
    requires forall j :: 0 <= j < k ==> !OccursAt(title, sep, j)
    ensures forall m :: !OccursAt(r, sep, m)
  {
    forall m | OccursAt(r, sep, m) ensures false {
      OccursInSlice(title, i, i + |r|, sep, m);
    }
  }

  /** An occurrence inside a slice is an occurrence in the whole string,
      ending within the slice. */
  lemma OccursInSlice(s: string, lo: nat, hi: nat, needle: string, m: int)
    requires lo <= hi <= |s| && OccursAt(s[lo..hi], needle, m)
    ensures OccursAt(s, needle, lo + m) && lo + m + |needle| <= hi
  {
    var n := |needle|;
    var inner := s[lo..hi][m..m + n];
    var outer := s[lo + m..lo + m + n];
    forall q | 0 <= q < n ensures inner[q] == outer[q] {
      assert inner[q] == s[lo..hi][m + q];
    }
    assert inner == outer;
  }
}
