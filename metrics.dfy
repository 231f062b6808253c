/**
  The placeholder hallucination flag (`unsupported_claim` in evaluation/metrics.py): an answer
  is flagged when it is more than three times as long as its context. It needs no embedding model.
*/
module Metrics {
  import opened Wrappers

  /** `unsupported_claim(model_answer, context)`; lengths count code points, as Python's `len`. */
  function UnsupportedClaim(answer: string, context: Option<string>): (flagged: bool)
    ensures context.None? ==> !flagged
    ensures context == Some([]) ==> (flagged <==> answer != [])
    ensures flagged ==> |answer| > 0
  {
    match context
    case None => false
    case Some(c) => |answer| > 3 * |c|
  }

  /** The flag sees only the two lengths, never the characters. */
  lemma DependsOnlyOnLengths(answer1: string, answer2: string, context1: Option<string>, context2: Option<string>)
    requires |answer1| == |answer2|
    requires context1.None? <==> context2.None?
    requires context1.Some? ==> |context1.value| == |context2.value|
    ensures UnsupportedClaim(answer1, context1) == UnsupportedClaim(answer2, context2)
  {
  }

  /** A longer answer against the same context stays flagged. */
  lemma MonotoneInAnswer(shorter: string, longer: string, context: Option<string>)
    requires |shorter| <= |longer|
    requires UnsupportedClaim(shorter, context)
    ensures UnsupportedClaim(longer, context)
  {
  }

  /** A longer context for the same answer stays unflagged. */
  lemma AntitoneInContext(answer: string, shorter: string, longer: string)
    requires |shorter| <= |longer|
    requires !UnsupportedClaim(answer, Some(shorter))
    ensures !UnsupportedClaim(answer, Some(longer))
  {
  }

  /** 100 characters against 10 is flagged (100 > 30); a short answer or a missing context is not. */
  lemma Examples()
    ensures UnsupportedClaim(seq(100, _ => 'a'), Some(seq(10, _ => 'b')))
    ensures !UnsupportedClaim("short", Some("this context is fairly long"))
    ensures !UnsupportedClaim("anything", None)
  {
  }
}
