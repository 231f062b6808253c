# Claim-support scoring, modelled in Dafny

This project models the evaluation core of *whitebox-hallucinations*: the pipeline that decides
whether the claims of a language model's answer are supported by a reference context.

- **Claim extraction** (`extract_claims`, module `Claims`, `claims.dfy`). An answer is split on
  every run of whitespace that directly follows `.`, `?` or `!`, which is what
  `re.split(r"(?<=[\.\?\!])\s+", text)` does. Each fragment is stripped with `str.strip()` and
  blank fragments are dropped. `None` and `""` give no claims. Whitespace is Python's:
  `str.isspace()`, which is also what `\s` matches in a `str` pattern and what `strip()` removes.
- **Support scoring** (`best_support_score`, `is_claim_supported`, module `Scorer`,
  `scorer.py`). The embedding model is an oracle, `Provider`. `Available(similarity)` gives the
  cosine similarity of two texts' embeddings. `Unavailable` stands for a library that cannot be
  imported: every call that needs the model raises `RuntimeError`. A claim's score is 0.0 when there
  is no context, and the model is not consulted. Otherwise the score is the largest similarity
  to any context. A claim is supported when its score is at least the threshold (default 0.65).
- **Aggregators** (`score_answer_ucr`, `faithfulness_score`). A missing, empty or whitespace-only
  context becomes the empty context list. `score_answer_ucr` is a method whose loop counts
  unsupported claims. It is proved equal to the specification function `Ucr`, which returns
  `(rate, unsupported, total)`, with `(0.0, 0, 0)` for an answer with no claims. `Faithfulness`
  is the mean support score, or 1.0 for an answer with no claims.
- **Placeholder metric** (`unsupported_claim`, module `Metrics`, `metrics.dfy`). It flags an
  answer longer than three times its context, and never flags an answer whose context is `None`.

`wrappers.dfy` holds `Option` (Python's `None`-or-value) and `Result` (return or raise).

## Model

| member | source | states |
|---|---|---|
| `Claims.IsSpaceIsMembership` | src/whitebox_hallucinations/evaluation/scorer.py:23 | the whitespace predicate used by `\s` and `strip()` is membership in Python's whitespace table |
| `Claims.TerminalIsNotSpace` | src/whitebox_hallucinations/evaluation/scorer.py:23 | none of `.`, `?`, `!` is whitespace |
| `Claims.NonSpaceEmptyIffBlank` | src/whitebox_hallucinations/evaluation/scorer.py:29 | a string has no non-whitespace character iff `s.strip()` is falsy |
| `Claims.StripStart` | src/whitebox_hallucinations/evaluation/scorer.py:29 | the left strip is a suffix, the removed prefix is whitespace, and the result starts with non-whitespace |
| `Claims.StripEnd` | src/whitebox_hallucinations/evaluation/scorer.py:29 | the right strip is a prefix, the removed suffix is whitespace, and the result ends with non-whitespace |
| `Claims.Strip` | src/whitebox_hallucinations/evaluation/scorer.py:29 | `s.strip()` is empty iff `s` is blank; otherwise it starts and ends with non-whitespace |
| `Claims.StripKeepsNonSpace` | src/whitebox_hallucinations/evaluation/scorer.py:29 | stripping removes whitespace only |
| `Claims.StripKeepsNoBreak` | src/whitebox_hallucinations/evaluation/scorer.py:29 | stripping cannot create a terminal-then-whitespace pair |
| `Claims.StripKeepsLast` | src/whitebox_hallucinations/evaluation/scorer.py:29 | a string ending in non-whitespace keeps its last character |
| `Claims.FirstBreak` | src/whitebox_hallucinations/evaluation/scorer.py:23 | the result is the first position where the look-behind split pattern matches, or the end of the text |
| `Claims.SpanEnd` | src/whitebox_hallucinations/evaluation/scorer.py:23 | greedy `\s+`: the whole whitespace run is consumed, and it stops at non-whitespace or the end |
| `Claims.Fragments` | src/whitebox_hallucinations/evaluation/scorer.py:23 | the split always yields at least one fragment |
| `Claims.Separators` | src/whitebox_hallucinations/evaluation/scorer.py:23 | every removed separator is a non-empty whitespace run |
| `Claims.SplitRebuildsText` | src/whitebox_hallucinations/evaluation/scorer.py:23 | fragments interleaved with separators give back the text, with one fewer separator than fragments |
| `Claims.FragmentsShape` | src/whitebox_hallucinations/evaluation/scorer.py:23 | no fragment contains a break; every fragment but the last ends in a terminal; later fragments start with non-whitespace |
| `Claims.FragmentsKeepNonSpace` | src/whitebox_hallucinations/evaluation/scorer.py:23 | the split removes only whitespace: the non-whitespace characters are kept, in order |
| `Claims.NonBlankStripped` | src/whitebox_hallucinations/evaluation/scorer.py:29 | the comprehension yields at most one claim per fragment; each is non-empty with no surrounding whitespace |
| `Claims.NonBlankStrippedKeepsNonSpace` | src/whitebox_hallucinations/evaluation/scorer.py:29 | strip-and-filter keeps every non-whitespace character, in order |
| `Claims.NonBlankStrippedNoBreak` | src/whitebox_hallucinations/evaluation/scorer.py:29 | strip-and-filter keeps "no break inside" |
| `Claims.NonBlankStrippedTerminal` | src/whitebox_hallucinations/evaluation/scorer.py:29 | strip-and-filter keeps "every element but the last ends in a terminal" |
| `Claims.ExtractClaims` | src/whitebox_hallucinations/evaluation/scorer.py:26-30 | `None` or `""` gives no claims; every claim is non-empty with no leading or trailing whitespace |
| `Claims.ClaimsKeepNonSpace` | src/whitebox_hallucinations/evaluation/scorer.py:23-29 | the claims' non-whitespace characters are exactly the answer's, in order |
| `Claims.NoClaimsIffBlank` | src/whitebox_hallucinations/evaluation/scorer.py:26-30 | an answer yields no claims iff it is blank |
| `Claims.ClaimsHaveNoBreak` | src/whitebox_hallucinations/evaluation/scorer.py:23-29 | no claim contains `.`, `?` or `!` followed by whitespace |
| `Claims.ClaimsEndInTerminal` | src/whitebox_hallucinations/evaluation/scorer.py:23-29 | every claim except the last ends in `.`, `?` or `!` |
| `Claims.UnbrokenTextIsOneClaim` | src/whitebox_hallucinations/evaluation/scorer.py:23-29 | text without a break gives one claim, the stripped text, or none if it is blank |
| `Claims.FragmentsAfterSentence` | src/whitebox_hallucinations/evaluation/scorer.py:23 | a sentence, a whitespace run and text starting with non-whitespace split after the sentence |
| `Claims.TwoSentencesTwoClaims` | src/whitebox_hallucinations/evaluation/scorer.py:23-29 | two sentences separated by whitespace become exactly those two claims |
| `Scorer.MaxSimilarity` | src/whitebox_hallucinations/evaluation/scorer.py:41-44 | the result is at least every context's similarity and equals one of them (`np.max`) |
| `Scorer.BestSupportScore` | src/whitebox_hallucinations/evaluation/scorer.py:33-44 | no context gives 0.0 whatever the provider; otherwise it raises iff the model is unavailable, else returns the best similarity |
| `Scorer.BestSupportScoreInCosineRange` | src/whitebox_hallucinations/evaluation/scorer.py:41-44 | with cosine similarities, the score lies in [-1, 1] |
| `Scorer.IsClaimSupported` | src/whitebox_hallucinations/evaluation/scorer.py:47-51 | supported iff score >= threshold; with no context, supported iff threshold <= 0; raises exactly when scoring raises |
| `Scorer.ContextSet` | src/whitebox_hallucinations/evaluation/scorer.py:63 | the context list is empty iff the context is `None` or blank, and otherwise holds the unstripped context |
| `Scorer.CountUnsupported` | src/whitebox_hallucinations/evaluation/scorer.py:64-67 | the count never exceeds the number of claims; it fails iff there are claims, a context and no model |
| `Scorer.CountIsUnsupportedIndices` | src/whitebox_hallucinations/evaluation/scorer.py:64-67 | the count equals the number of claim indices whose support decision is false |
| `Scorer.CountMonotoneInThreshold` | src/whitebox_hallucinations/evaluation/scorer.py:64-67 | raising the threshold never lowers the count |
| `Scorer.NoContextRejectsAll` | src/whitebox_hallucinations/evaluation/scorer.py:63-67 | with no context and a positive threshold, every claim is counted |
| `Scorer.Ucr` | src/whitebox_hallucinations/evaluation/scorer.py:54-69 | no claims gives `(0.0, 0, 0)`; it raises iff there are claims, a context and no model; otherwise total = number of claims, unsupported <= total, rate = unsupported / total in [0, 1] |
| `Scorer.Ratio` | src/whitebox_hallucinations/evaluation/scorer.py:68 | the quotient lies in [0, 1] and times the denominator gives the numerator |
| `Scorer.ScoreAnswerUcr` | src/whitebox_hallucinations/evaluation/scorer.py:54-69 | the method returns exactly `Ucr`: the result, or the error raised when the model is needed and missing |
| `Scorer.TallyUnsupported` | src/whitebox_hallucinations/evaluation/scorer.py:64-67 | the loop's count, or the error raised at its first claim, is exactly `CountUnsupported` |
| `Scorer.UcrCountsRejected` | src/whitebox_hallucinations/evaluation/scorer.py:54-69 | on success, the reported unsupported count is the number of claims that `is_claim_supported` rejects |
| `Scorer.UcrOfBlankAnswer` | src/whitebox_hallucinations/evaluation/scorer.py:60-62 | a blank answer gives `(0.0, 0, 0)` |
| `Scorer.UcrWithoutContext` | src/whitebox_hallucinations/evaluation/scorer.py:63-69 | no usable context, threshold > 0 and a non-blank answer give `(1.0, n, n)` |
| `Scorer.UcrMonotoneInThreshold` | src/whitebox_hallucinations/evaluation/scorer.py:54-69 | raising the threshold never lowers the unsupported count or the rate, and does not change whether the call raises |
| `Scorer.SupportScores` | src/whitebox_hallucinations/evaluation/scorer.py:77 | one score per claim, each the claim's best support score; it fails iff there are claims, a context and no model |
| `Scorer.SumBetween` | src/whitebox_hallucinations/evaluation/scorer.py:78 | a sum of values in [lo, hi] lies in [n*lo, n*hi] |
| `Scorer.MeanBetween` | src/whitebox_hallucinations/evaluation/scorer.py:78 | the arithmetic mean of values in [lo, hi] lies in [lo, hi] |
| `Scorer.Faithfulness` | src/whitebox_hallucinations/evaluation/scorer.py:72-78 | no claims gives 1.0; it raises iff there are claims, a context and no model |
| `Scorer.FaithfulnessIsMean` | src/whitebox_hallucinations/evaluation/scorer.py:72-78 | on success for an answer with claims, faithfulness is the sum of the claims' best support scores divided by their number |
| `Scorer.FaithfulnessOfBlankAnswer` | src/whitebox_hallucinations/evaluation/scorer.py:73-75 | a blank answer has faithfulness 1.0 |
| `Scorer.FaithfulnessWithoutContext` | src/whitebox_hallucinations/evaluation/scorer.py:76-78 | with no usable context, a non-blank answer has faithfulness 0.0 |
| `Scorer.FaithfulnessInCosineRange` | src/whitebox_hallucinations/evaluation/scorer.py:72-78 | with cosine similarities, faithfulness lies in [-1, 1] |
| `Scorer.UcrOfTwoClaims` | src/whitebox_hallucinations/evaluation/scorer.py:63-69 | two claims against a usable context, the first reaching the threshold and the second not, give `(0.5, 1, 2)` |
| `Scorer.ParisExample` | src/whitebox_hallucinations/evaluation/scorer.py:54-69 | the two-sentence Paris answer gives two claims; with the first supported and the second not, the result is `(0.5, 1, 2)` |
| `Metrics.UnsupportedClaim` | src/whitebox_hallucinations/evaluation/metrics.py:1-9 | a `None` context never flags; an empty-string context flags exactly the non-empty answers |
| `Metrics.DependsOnlyOnLengths` | src/whitebox_hallucinations/evaluation/metrics.py:9 | the flag depends only on the two lengths and on whether the context is present |
| `Metrics.MonotoneInAnswer` | src/whitebox_hallucinations/evaluation/metrics.py:9 | lengthening the answer never clears the flag |
| `Metrics.AntitoneInContext` | src/whitebox_hallucinations/evaluation/metrics.py:9 | lengthening the context never sets the flag |
| `Metrics.Examples` | src/whitebox_hallucinations/evaluation/metrics.py:7-9 | 100 characters against 10 is flagged; "short" against a long context and any answer against `None` are not |

## Left out

- `_get_embed_model` and the module-global `_EMBED_MODEL` (scorer.py:7-20): importing the library and memoising the loaded model are I/O on global state. The model is a `Provider` argument instead. `Unavailable` stands for the failed import and raises lazily, only where a score needs the model.
- A failure to load the model itself (scorer.py:19, outside the `try`) raises the library's own exception in the program. The model does not tell it apart from a failed import: both are `ProviderUnavailable`.
- `model.encode`, `util.cos_sim` and `np.max` over float32 tensors (scorer.py:36-44): foreign numeric code. They are replaced by a `Similarity` oracle on reals and the maximum over contexts. The `sims.size == 0` branch (scorer.py:42-43) cannot be reached in the model, because a non-empty context list gives one similarity per context.
- Floating point: scores, sums and the rate are exact reals. Float rounding and NaN handling in `np.max` are not modelled.
- `Scorer.BestSupportScoreInCosineRange`, `Scorer.FaithfulnessInCosineRange`: the [-1, 1] bound is stated only for a provider whose similarity is in [-1, 1]. The model does not prove that embeddings give cosine values in that range.
- `Scorer.ParisExample`: the two support judgements are hypotheses of the lemma, because the similarity is an oracle and the model does not compute embeddings.
- `score_answer_ucr` and `faithfulness_score` take `model_answer: str`. The model takes a string for it. A `None` answer is covered only by `ExtractClaims(None)`, which gives no claims.
- pipeline/run_generation.py (file I/O, timestamps, directories, a call to the answer generator), utils/io.py (YAML/JSON read and write) and tests/test_smoke.py (a file-existence check) are not part of this model.
