/** `SmartTextInputNode` (nodes/smart_text_input.py): a text input that
    classifies each submitted text as a new prompt or a minor edit of the
    previous one, by comparing a similarity ratio with a threshold. The ratio
    is a parameter: it stands for `difflib.SequenceMatcher(None, a, b).ratio()`,
    which is not modelled. */
module SmartTextInput {
  import opened Common

  /** The threshold the node offers by default. */
  const DefaultThreshold: real := 0.2

  /** `_calculate_similarity`: 0.0 when either text is empty, otherwise the
      ratio. */
  function GuardedSimilarity(a: string, b: string, ratio: (string, string) -> real): real {
    if a == "" || b == "" then 0.0 else ratio(a, b)
  }

  /** The node's outputs: the text, whether it is a new prompt, and the
      similarity the decision used. */
  datatype Classification = Classification(text: string, isNew: bool, similarity: real)

  /** One `process` call given the remembered previous text (`""` when there
      is none): the similarity is 0.0 without a previous text, and the text
      is new exactly when the similarity is below the threshold. */
  function Classify(previous: string, text: string, threshold: real, ratio: (string, string) -> real): Classification
  {
    var similarity := if previous != "" then GuardedSimilarity(previous, text, ratio) else 0.0;
    Classification(text, similarity < threshold, similarity)
  }

  /** The similarity does not depend on the threshold, and the verdict is
      monotone in it: a text reported new under one threshold is new under
      every larger one, and one reported as an edit stays an edit under
      every smaller one. */
  lemma ClassifyMonotoneInThreshold(previous: string, text: string, t1: real, t2: real, ratio: (string, string) -> real)
    requires t1 <= t2
    ensures var c1 := Classify(previous, text, t1, ratio);
      var c2 := Classify(previous, text, t2, ratio);
      && c1.text == text && c2.text == text
      && c1.similarity == c2.similarity
      && (c1.isNew ==> c2.isNew)
      && (!c2.isNew ==> !c1.isNew)
  {
  }

  /** With a threshold of at most 0.0 and a ratio that is never negative
      (a `SequenceMatcher` ratio lies in [0, 1]), no call reports a new
      prompt, not even the first one. */
  lemma NonPositiveThresholdNeverNew(previous: string, text: string, threshold: real, ratio: (string, string) -> real)
    requires threshold <= 0.0
    requires forall a, b :: 0.0 <= ratio(a, b)
    ensures !Classify(previous, text, threshold, ratio).isNew
  {
  }

  /** Without a previous text, or for an empty text, the similarity is 0.0,
      so with a positive threshold (the default is 0.2) the text is
      classified as new; otherwise the similarity is the ratio of the two
      texts. */
  lemma ClassifySimilarity(previous: string, text: string, threshold: real, ratio: (string, string) -> real)
    ensures var c := Classify(previous, text, threshold, ratio);
      && (previous == "" || text == "" ==> c.similarity == 0.0 && (threshold > 0.0 ==> c.isNew))
      && (previous != "" && text != "" ==> c.similarity == ratio(previous, text))
  {
  }

  /** The node: its identity (Python's `id(self)`) and the previous text per
      node identity. */
  class SmartTextInputNode {
    const nodeId: int
    var previousText: map<int, string>

    /** `__init__`: no previous text. */
    constructor (nodeId: int)
      ensures this.nodeId == nodeId && previousText == map[]
    {
      this.nodeId := nodeId;
      previousText := map[];
    }

    /** `process`: classifies the text against the remembered one, then
        remembers the text, whatever the classification. */
    method Process(text: string, threshold: real, ratio: (string, string) -> real) returns (c: Classification)
      modifies this
      ensures c == Classify(Remembered(old(previousText), nodeId), text, threshold, ratio)
      ensures previousText == old(previousText)[nodeId := text]
    {
      var previous := if nodeId in previousText then previousText[nodeId] else "";
      var similarity: real;
      if previous != "" {
        similarity := GuardedSimilarity(previous, text, ratio);
      } else {
        similarity := 0.0;
      }
      var isNew := similarity < threshold;
      previousText := previousText[nodeId := text];
      c := Classification(text, isNew, similarity);
    }
  }

  /** Two calls in a row on a new node: the first finds no previous text,
      so it reports similarity 0.0; the second compares its text with the
      first call's text, whatever the first call's outcome. */
  method TwoCallsOnNewNode(nodeId: int, first: string, second: string,
                           threshold: real, ratio: (string, string) -> real)
    returns (c1: Classification, c2: Classification)
    ensures c1 == Classification(first, 0.0 < threshold, 0.0)
    ensures c2 == Classify(first, second, threshold, ratio)
  {
    var node := new SmartTextInputNode(nodeId);
    c1 := node.Process(first, threshold, ratio);
    c2 := node.Process(second, threshold, ratio);
  }
}
