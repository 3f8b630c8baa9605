/** The editor and the backend together: what the buttons type is what the
    backend's checks let through to the evaluator. */
module Wiring {
  import DisplayEdits
  import Backend

  /** A non-empty display typed with the buttons has no whitespace to trim
      and only whitelisted characters once normalised, so the backend hands
      it, normalised, to the evaluator. */
  lemma EditorTextReachesEvaluator(d: string)
    requires d != [] && DisplayEdits.InEditorAlphabet(d)
    ensures Backend.Prepare(d) == Backend.Evaluate(Backend.Normalize(d))
  {
    forall i | 0 <= i < |d|
      ensures !Backend.IsJsWhitespace(d[i])
      ensures Backend.IsAllowedChar(d[i]) || Backend.IsDisplaySymbol(d[i])
    {
      assert DisplayEdits.IsDigit(d[i]) || d[i] == '.' || DisplayEdits.IsDisplayOperator(d[i]);
    }
    assert Backend.TrimStart(d) == d;
    assert Backend.TrimEnd(d) == d;
    Backend.WhitelistAfterNormalize(d);
  }
}
