/** What splitting and trimming keep of a text, and the answer that a stream of pure reasoning falls back to. */
module StreamText {
  import opened Wrappers
  import opened Strings

  /** What is shown when the model only produced reasoning: the part after the thoughts, or before the end mark. */
  function ReasoningPayload(space: char -> bool, reasoning: string): string {
    if Contains(reasoning, "</think>") then
      var pieces := Split(reasoning, "</think>");
      Strip(space, pieces[|pieces| - 1])
    else if Contains(reasoning, "<|im_end|>") then
      Strip(space, Split(reasoning, "<|im_end|>")[0])
    else reasoning
  }

  /** A fallback answer never carries the mark it was cut at. */
  lemma ReasoningPayloadClean(space: char -> bool, reasoning: string)
    ensures !Contains(ReasoningPayload(space, reasoning), "</think>")
    ensures !Contains(reasoning, "</think>") ==> !Contains(ReasoningPayload(space, reasoning), "<|im_end|>")
  {
    hide Strip, Split, Find, Contains;
    var think, end := "</think>", "<|im_end|>";
    if Contains(reasoning, think) {
      LastPieceClean(reasoning, think);
      var pieces := Split(reasoning, think);
      StripKeepsClean(space, pieces[|pieces| - 1], think);
    } else if Contains(reasoning, end) {
      FirstPieceClean(reasoning, end);
      FirstPieceOf(reasoning, end);
      var piece := Split(reasoning, end)[0];
      StripKeepsClean(space, piece, end);
      if Contains(piece, think) {
        ContainsInPrefix(reasoning, |piece|, think);
      }
      StripKeepsClean(space, piece, think);
    }
  }

}
