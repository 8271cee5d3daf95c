/** `extract_all_text_from_prompt_data` (utils/metadata_extractor.py): the
    prompt texts of a ComfyUI prompt graph read from image metadata. The
    graph maps node ids to nodes; a node is a map whose `inputs` map holds
    the node's input values. Every non-blank string input under one of the
    keys text, prompt, positive or negative contributes its stripped value,
    and the contributions are joined with ", ". */
module MetadataExtractor {
  import opened Common

  /** A parsed JSON value. Objects keep their members in order, as Python's
      dicts do. A parsed dict holds each key once; the model does not demand
      it, so its lemmas also cover objects with a repeated key. */
  datatype Json =
    | JNull
    | JBool(b: bool)
    | JNum(n: int)
    | JStr(s: string)
    | JArr(items: seq<Json>)
    | JObj(members: seq<(string, Json)>)

  /** The input keys whose string values are prompt text. */
  const TextKeys: set<string> := {"text", "prompt", "positive", "negative"}

  /** `d[key]` after `key in d`: the value of the member with that key. */
  function Lookup(members: seq<(string, Json)>, key: string): (r: Option<Json>)
    ensures r.None? <==> forall i :: 0 <= i < |members| ==> members[i].0 != key
    ensures r.Some? ==> exists i :: 0 <= i < |members| && members[i] == (key, r.value)
  {
    if members == [] then None
    else if members[0].0 == key then Some(members[0].1)
    else
      var r := Lookup(members[1..], key);
      assert forall i :: 1 <= i < |members| ==> members[i] == members[1..][i - 1];
      r
  }

  /** What one input contributes: its stripped value, if it is a string
      under a text key and is not blank. */
  function Contribution(key: string, value: Json): seq<string> {
    if value.JStr? && key in TextKeys && Strip(value.s) != "" then [Strip(value.s)] else []
  }

  /** The contributions of a node's inputs, in input order. */
  function InputTexts(inputs: seq<(string, Json)>): seq<string> {
    if inputs == [] then []
    else
      var last := inputs[|inputs| - 1];
      InputTexts(inputs[..|inputs| - 1]) + Contribution(last.0, last.1)
  }

  /** The `inputs` value of a node that is a map holding that key. */
  function InputsOf(node: Json): Option<Json> {
    if node.JObj? then Lookup(node.members, "inputs") else None
  }

  /** A node whose `inputs` exists but is not a map: iterating over it
      raises. */
  predicate Raises(node: Json) {
    InputsOf(node).Some? && !InputsOf(node).value.JObj?
  }

  /** The contributions of the nodes in node order, or None when a node
      raises. */
  function NodeTexts(nodes: seq<(string, Json)>): Option<seq<string>> {
    if nodes == [] then Some([])
    else
      var node := nodes[|nodes| - 1].1;
      match NodeTexts(nodes[..|nodes| - 1])
      case None => None
      case Some(texts) =>
        if Raises(node) then None
        else if InputsOf(node).Some? then Some(texts + InputTexts(InputsOf(node).value.members))
        else Some(texts)
  }

  /** The function's result: the contributions joined with ", ", or "" when
      the graph is not a map or a node raises. */
  function ExtractedText(data: Json): string {
    if !data.JObj? then ""
    else
      match NodeTexts(data.members)
      case None => ""
      case Some(texts) => Join(texts, ", ")
  }

  // ---------------------------------------------------------------------------
  // Properties
  // ---------------------------------------------------------------------------

  /** `t` is the stripped value of one of the string inputs under a text
      key. */
  predicate FromInputs(t: string, inputs: seq<(string, Json)>) {
    exists j :: 0 <= j < |inputs| && TextOf(t, inputs[j])
  }

  /** `t` is the stripped value of this input, a string under a text key. */
  predicate TextOf(t: string, input: (string, Json)) {
    input.0 in TextKeys && input.1.JStr? && t == Strip(input.1.s)
  }

  /** `t` comes from the inputs map of `node`. */
  predicate FromNode(t: string, node: Json) {
    InputsOf(node).Some? && InputsOf(node).value.JObj? && FromInputs(t, InputsOf(node).value.members)
  }

  /** `t` comes from the inputs of the node at some position. */
  predicate ContributedBy(t: string, nodes: seq<(string, Json)>) {
    exists i :: 0 <= i < |nodes| && FromNode(t, nodes[i].1)
  }

  /** Every contribution of a node's inputs is non-blank, stripped, and the
      stripped value of one of its string inputs under a text key. */
  lemma {:induction false} InputTextsOrigin(inputs: seq<(string, Json)>)
    ensures forall t :: t in InputTexts(inputs) ==> t != "" && Stripped(t) && FromInputs(t, inputs)
    decreases |inputs|
  {
    if inputs != [] {
      var init := inputs[..|inputs| - 1];
      var last := inputs[|inputs| - 1];
      InputTextsOrigin(init);
      forall t | t in InputTexts(inputs) ensures t != "" && Stripped(t) && FromInputs(t, inputs) {
        if t in InputTexts(init) {
          FromInputsSnoc(t, inputs);
        } else {
          assert t in Contribution(last.0, last.1);
          assert TextOf(t, inputs[|inputs| - 1]);
        }
      }
    }
  }

  /** Provenance in all but the last input carries over to the whole. */
  lemma FromInputsSnoc(t: string, inputs: seq<(string, Json)>)
    requires inputs != [] && FromInputs(t, inputs[..|inputs| - 1])
    ensures FromInputs(t, inputs)
  {
    var j :| 0 <= j < |inputs| - 1 && TextOf(t, inputs[..|inputs| - 1][j]);
    assert inputs[..|inputs| - 1][j] == inputs[j];
  }

  /** Provenance in all but the last node carries over to the whole. */
  lemma ContributedBySnoc(t: string, nodes: seq<(string, Json)>)
    requires nodes != [] && ContributedBy(t, nodes[..|nodes| - 1])
    ensures ContributedBy(t, nodes)
  {
    var i :| 0 <= i < |nodes| - 1 && FromNode(t, nodes[..|nodes| - 1][i].1);
    assert nodes[..|nodes| - 1][i] == nodes[i];
  }

  /** Every contribution of the nodes is non-blank, stripped, and contributed
      by one of them. */
  lemma {:induction false} NodeTextsOrigin(nodes: seq<(string, Json)>)
    requires NodeTexts(nodes).Some?
    ensures forall t :: t in NodeTexts(nodes).value ==> t != "" && Stripped(t) && ContributedBy(t, nodes)
    decreases |nodes|
  {
    if nodes != [] {
      var init := nodes[..|nodes| - 1];
      var node := nodes[|nodes| - 1].1;
      NodeTextsOrigin(init);
      var texts := NodeTexts(init).value;
      forall t | t in NodeTexts(nodes).value ensures t != "" && Stripped(t) && ContributedBy(t, nodes) {
        if t in texts {
          ContributedBySnoc(t, nodes);
        } else {
          InputTextsOrigin(InputsOf(node).value.members);
          assert FromNode(t, nodes[|nodes| - 1].1);
        }
      }
    }
  }

  /** A non-blank text taken from one input is exactly what it contributes. */
  lemma ContributionOfText(input: (string, Json), t: string)
    requires TextOf(t, input) && t != ""
    ensures Contribution(input.0, input.1) == [t]
  {
  }

  /** The stripped value of input `j`, when it is a non-blank string under
      a text key, is among the node's contributions. */
  lemma {:induction false} InputTextsHas(inputs: seq<(string, Json)>, j: int, t: string)
    requires 0 <= j < |inputs| && TextOf(t, inputs[j]) && t != ""
    ensures t in InputTexts(inputs)
    decreases |inputs|
  {
    if j < |inputs| - 1 {
      assert inputs[..|inputs| - 1][j] == inputs[j];
      InputTextsHas(inputs[..|inputs| - 1], j, t);
      InputTextsGrow(inputs, t);
    } else {
      InputTextsLast(inputs, t);
    }
  }

  /** A contribution of all but the last input is one of the whole. */
  lemma InputTextsGrow(inputs: seq<(string, Json)>, t: string)
    requires inputs != [] && t in InputTexts(inputs[..|inputs| - 1])
    ensures t in InputTexts(inputs)
  {
    var last := inputs[|inputs| - 1];
    InAppendLeft(InputTexts(inputs[..|inputs| - 1]), Contribution(last.0, last.1), t);
  }

  /** The last input's non-blank text is a contribution of the whole. */
  lemma InputTextsLast(inputs: seq<(string, Json)>, t: string)
    requires inputs != [] && TextOf(t, inputs[|inputs| - 1]) && t != ""
    ensures t in InputTexts(inputs)
  {
    var last := inputs[|inputs| - 1];
    ContributionOfText(last, t);
    InAppendRight(InputTexts(inputs[..|inputs| - 1]), Contribution(last.0, last.1), t);
  }

  /** Conversely, every non-blank stripped value of a string input under a
      text key is among the node's contributions. */
  lemma InputTextsComplete(inputs: seq<(string, Json)>)
    ensures forall t :: t != "" && FromInputs(t, inputs) ==> t in InputTexts(inputs)
  {
    forall t | t != "" && FromInputs(t, inputs) ensures t in InputTexts(inputs) {
      var j :| 0 <= j < |inputs| && TextOf(t, inputs[j]);
      InputTextsHas(inputs, j, t);
    }
  }

  /** A non-blank text from the inputs map of node `i` is among the
      contributions, when no node raises. */
  lemma {:induction false} NodeTextsHas(nodes: seq<(string, Json)>, i: int, t: string)
    requires NodeTexts(nodes).Some?
    requires 0 <= i < |nodes| && FromNode(t, nodes[i].1) && t != ""
    ensures t in NodeTexts(nodes).value
    decreases |nodes|
  {
    if i < |nodes| - 1 {
      var init := nodes[..|nodes| - 1];
      NodeTextsOfInit(nodes);
      assert init[i] == nodes[i];
      NodeTextsHas(init, i, t);
      NodeTextsGrow(nodes, t);
    } else {
      NodeTextsLast(nodes, t);
    }
  }

  /** When no node raises, no node but the last one raises either. */
  lemma NodeTextsOfInit(nodes: seq<(string, Json)>)
    requires nodes != [] && NodeTexts(nodes).Some?
    ensures NodeTexts(nodes[..|nodes| - 1]).Some?
  {
  }

  /** A contribution of all but the last node is one of the whole, when the
      last node does not raise. */
  lemma NodeTextsGrow(nodes: seq<(string, Json)>, t: string)
    requires nodes != [] && NodeTexts(nodes).Some?
    requires NodeTexts(nodes[..|nodes| - 1]).Some? && t in NodeTexts(nodes[..|nodes| - 1]).value
    ensures t in NodeTexts(nodes).value
  {
    var node := nodes[|nodes| - 1].1;
    if InputsOf(node).Some? {
      InAppendLeft(NodeTexts(nodes[..|nodes| - 1]).value, InputTexts(InputsOf(node).value.members), t);
    }
  }

  /** A non-blank text from the last node's inputs is a contribution of the
      whole. */
  lemma NodeTextsLast(nodes: seq<(string, Json)>, t: string)
    requires nodes != [] && NodeTexts(nodes).Some?
    requires FromNode(t, nodes[|nodes| - 1].1) && t != ""
    ensures t in NodeTexts(nodes).value
  {
    var members := InputsOf(nodes[|nodes| - 1].1).value.members;
    var j :| 0 <= j < |members| && TextOf(t, members[j]);
    InputTextsHas(members, j, t);
    InAppendRight(NodeTexts(nodes[..|nodes| - 1]).value, InputTexts(members), t);
  }

  /** Conversely, when no node raises, every non-blank text taken from the
      inputs map of any node is among the contributions. */
  lemma NodeTextsComplete(nodes: seq<(string, Json)>)
    requires NodeTexts(nodes).Some?
    ensures forall t :: t != "" && ContributedBy(t, nodes) ==> t in NodeTexts(nodes).value
  {
    forall t | t != "" && ContributedBy(t, nodes) ensures t in NodeTexts(nodes).value {
      var i :| 0 <= i < |nodes| && FromNode(t, nodes[i].1);
      NodeTextsHas(nodes, i, t);
    }
  }

  /** A node that raises makes the whole outcome None, whatever follows it;
      without such a node there is an outcome. */
  lemma {:induction false} NodeTextsNoneIffRaises(nodes: seq<(string, Json)>)
    ensures NodeTexts(nodes).None? <==> exists i :: 0 <= i < |nodes| && Raises(nodes[i].1)
    decreases |nodes|
  {
    if nodes != [] {
      var init := nodes[..|nodes| - 1];
      NodeTextsNoneIffRaises(init);
      if exists i :: 0 <= i < |init| && Raises(init[i].1) {
        var i :| 0 <= i < |init| && Raises(init[i].1);
        assert nodes[i] == init[i];
      }
      if exists i :: 0 <= i < |nodes| && Raises(nodes[i].1) {
        var i :| 0 <= i < |nodes| && Raises(nodes[i].1);
        if i < |init| {
          assert nodes[i] == init[i];
        }
      }
    }
  }

  /** The first and last characters of strings joined with a separator are
      the first character of the first string and the last character of the
      last one, when every string is non-empty. */
  lemma {:induction false} JoinEnds(xs: seq<string>, sep: string)
    requires xs != []
    requires forall i :: 0 <= i < |xs| ==> xs[i] != ""
    ensures Join(xs, sep) != ""
    ensures Join(xs, sep)[0] == xs[0][0]
    ensures Join(xs, sep)[|Join(xs, sep)| - 1] == xs[|xs| - 1][|xs[|xs| - 1]| - 1]
    decreases |xs|
  {
    if |xs| > 1 {
      JoinEnds(xs[1..], sep);
      var rest := Join(xs[1..], sep);
      assert Join(xs, sep) == xs[0] + sep + rest;
      assert xs[1..][|xs[1..]| - 1] == xs[|xs| - 1];
    }
  }

  /** Joining non-empty stripped strings gives a stripped string. */
  lemma JoinOfStripped(xs: seq<string>, sep: string)
    requires forall i :: 0 <= i < |xs| ==> xs[i] != "" && Stripped(xs[i])
    ensures Stripped(Join(xs, sep))
  {
    if xs != [] {
      JoinEnds(xs, sep);
    }
  }

  /** The result never has leading or trailing whitespace. */
  lemma ExtractedIsStripped(data: Json)
    ensures Stripped(ExtractedText(data))
  {
    if data.JObj? && NodeTexts(data.members).Some? {
      var texts := NodeTexts(data.members).value;
      NodeTextsOrigin(data.members);
      forall i | 0 <= i < |texts| ensures texts[i] != "" && Stripped(texts[i]) {
        assert texts[i] in texts;
      }
      JoinOfStripped(texts, ", ");
    }
  }

  /** The result is "" when the graph is not a map or some node raises;
      otherwise it is "" exactly when nothing contributes. */
  lemma ExtractedEmptyCases(data: Json)
    ensures !data.JObj? ==> ExtractedText(data) == ""
    ensures data.JObj? && (exists i :: 0 <= i < |data.members| && Raises(data.members[i].1)) ==>
      ExtractedText(data) == ""
    ensures data.JObj? && NodeTexts(data.members).Some? ==>
      (ExtractedText(data) == "" <==> NodeTexts(data.members).value == [])
  {
    if data.JObj? {
      NodeTextsNoneIffRaises(data.members);
      if NodeTexts(data.members).Some? {
        var texts := NodeTexts(data.members).value;
        NodeTextsOrigin(data.members);
        if texts != [] {
          assert forall i :: 0 <= i < |texts| ==> texts[i] in texts;
          JoinEnds(texts, ", ");
        }
      }
    }
  }

  // ---------------------------------------------------------------------------
  // The function itself
  // ---------------------------------------------------------------------------

  /** `extract_all_text_from_prompt_data`: the loop over the nodes,
      appending the contributions of each node's inputs; a node whose
      `inputs` is not a map ends the function with "". */
  method ExtractAllText(data: Json) returns (r: string)
    ensures r == ExtractedText(data)
  {
    if !data.JObj? {
      return "";
    }
    var nodes := data.members;
    var texts: seq<string> := [];
    for i := 0 to |nodes|
      invariant NodeTexts(nodes[..i]) == Some(texts)
    {
      NodeTextsStep(nodes, i);
      var node := nodes[i].1;
      if node.JObj? {
        var inputs := Lookup(node.members, "inputs");
        if inputs.Some? {
          if !inputs.value.JObj? {
            NodeTextsNoneIffRaises(nodes);
            return "";
          }
          var found := CollectInputTexts(inputs.value.members);
          texts := texts + found;
        }
      }
    }
    assert nodes[..|nodes|] == nodes;
    r := Join(texts, ", ");
  }

  /** One more node: the outcome for the first `i + 1` nodes from that for
      the first `i`. */
  lemma NodeTextsStep(nodes: seq<(string, Json)>, i: nat)
    requires i < |nodes|
    ensures var node := nodes[i].1;
      NodeTexts(nodes[..i + 1]) ==
        if NodeTexts(nodes[..i]).None? || Raises(node) then None
        else if InputsOf(node).Some? then Some(NodeTexts(nodes[..i]).value + InputTexts(InputsOf(node).value.members))
        else NodeTexts(nodes[..i])
  {
    assert nodes[..i + 1][..i] == nodes[..i];
    assert nodes[..i + 1][i] == nodes[i];
  }

  /** The inner loop: the contributions of one node's inputs, in order. */
  method CollectInputTexts(inputs: seq<(string, Json)>) returns (texts: seq<string>)
    ensures texts == InputTexts(inputs)
  {
    texts := [];
    for j := 0 to |inputs|
      invariant texts == InputTexts(inputs[..j])
    {
      assert inputs[..j + 1][..j] == inputs[..j];
      assert inputs[..j + 1][j] == inputs[j];
      var (key, value) := inputs[j];
      if value.JStr? && key in TextKeys {
        var v := Strip(value.s);
        if v != "" {
          texts := texts + [v];
        }
      }
    }
    assert inputs[..|inputs|] == inputs;
  }
}
