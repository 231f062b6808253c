/**
  Support scoring and the two answer-level metrics (evaluation/scorer.py).

  The sentence-embedding model is an oracle: `Available(similarity)` gives the cosine similarity
  between the embeddings of two texts; `Unavailable` stands for the library that cannot be
  imported, which makes every call that needs the model raise.
*/
module Scorer {
  import opened Wrappers
  import opened Claims

  /** Cosine similarity of the embeddings of a claim and a context passage. */
  type Similarity = (string, string) -> real

  /** The lazily loaded embedding model. */
  datatype Provider = Unavailable | Available(similarity: Similarity)

  /** The `RuntimeError` raised when sentence-transformers cannot be imported. */
  datatype ScoreError = ProviderUnavailable

  /** `(ucr, unsupported_count, total_claims)`. */
  datatype UcrResult = UcrResult(rate: real, unsupported: nat, total: nat)

  /** The default `threshold` of `is_claim_supported` and `score_answer_ucr`. */
  const DefaultThreshold: real := 0.65

  /** A cosine similarity lies in [-1, 1]. */
  ghost predicate InCosineRange(sim: Similarity) {
    forall a, b :: -1.0 <= sim(a, b) <= 1.0
  }

  // ---------------------------------------------------------------- best_support_score

  /** `np.max` of the similarities between `claim` and each context. */
  function MaxSimilarity(claim: string, contexts: seq<string>, sim: Similarity): (m: real)
    requires contexts != []
    ensures forall i | 0 <= i < |contexts| :: sim(claim, contexts[i]) <= m
    ensures exists i | 0 <= i < |contexts| :: sim(claim, contexts[i]) == m
    decreases |contexts|
  {
    if |contexts| == 1 then sim(claim, contexts[0])
    else
      var rest := MaxSimilarity(claim, contexts[1..], sim);
      assert forall i | 1 <= i < |contexts| :: contexts[i] == contexts[1..][i - 1];
      if sim(claim, contexts[0]) >= rest then sim(claim, contexts[0]) else rest
  }

  /**
    `best_support_score(claim, contexts)`: 0.0 without consulting the model when there is no
    context, otherwise the best similarity to any context (raising if the model cannot load).
  */
  function BestSupportScore(claim: string, contexts: seq<string>, provider: Provider): (r: Result<real, ScoreError>)
    ensures contexts == [] ==> r == Success(0.0)
    ensures r.Failure? <==> contexts != [] && provider.Unavailable?
    ensures contexts != [] && provider.Available? ==>
      && r.Success?
      && (forall i | 0 <= i < |contexts| :: provider.similarity(claim, contexts[i]) <= r.value)
      && (exists i | 0 <= i < |contexts| :: provider.similarity(claim, contexts[i]) == r.value)
  {
    if contexts == [] then Success(0.0)
    else
      match provider
      case Unavailable => Failure(ProviderUnavailable)
      case Available(sim) => Success(MaxSimilarity(claim, contexts, sim))
  }

  /** The best support score is a cosine similarity, so it lies in [-1, 1]. */
  lemma BestSupportScoreInCosineRange(claim: string, contexts: seq<string>, provider: Provider)
    requires provider.Available? ==> InCosineRange(provider.similarity)
    ensures var r := BestSupportScore(claim, contexts, provider);
      r.Success? ==> -1.0 <= r.value <= 1.0
  {
  }

  // ---------------------------------------------------------------- is_claim_supported

  /** `is_claim_supported(claim, contexts, threshold)`: the best score reaches the threshold. */
  function IsClaimSupported(claim: string, contexts: seq<string>, threshold: real, provider: Provider): (r: Result<bool, ScoreError>)
    ensures r.Failure? <==> contexts != [] && provider.Unavailable?
    ensures contexts == [] ==> r == Success(0.0 >= threshold)
    ensures r.Success? ==> (r.value <==> BestSupportScore(claim, contexts, provider).value >= threshold)
  {
    match BestSupportScore(claim, contexts, provider)
    case Failure(e) => Failure(e)
    case Success(score) => Success(score >= threshold)
  }

  // ---------------------------------------------------------------- score_answer_ucr

  /** `[context] if context and context.strip() else []`. */
  function ContextSet(context: Option<string>): (contexts: seq<string>)
    ensures contexts == [] <==> context.None? || Blank(context.value)
    ensures contexts != [] ==> contexts == [context.value]
  {
    if context.Some? && context.value != [] && Strip(context.value) != [] then [context.value] else []
  }

  /**
    The number of claims that `is_claim_supported` rejects, counted in the order the loop of
    `score_answer_ucr` visits them; the first error stops the count.
  */
  function CountUnsupported(claims: seq<string>, contexts: seq<string>, threshold: real, provider: Provider): (r: Result<nat, ScoreError>)
    ensures r.Failure? <==> claims != [] && contexts != [] && provider.Unavailable?
    ensures r.Success? ==> r.value <= |claims|
    decreases |claims|
  {
    if claims == [] then Success(0)
    else
      match CountUnsupported(claims[..|claims| - 1], contexts, threshold, provider)
      case Failure(e) => Failure(e)
      case Success(n) =>
        match IsClaimSupported(claims[|claims| - 1], contexts, threshold, provider)
        case Failure(e) => Failure(e)
        case Success(supported) => Success(if supported then n else n + 1)
  }

  /** The indices of the claims that fall below the threshold. */
  ghost function UnsupportedIndices(claims: seq<string>, contexts: seq<string>, threshold: real, provider: Provider): set<nat> {
    set i: nat | i < |claims| && IsClaimSupported(claims[i], contexts, threshold, provider) == Success(false)
  }

  /** Appending a claim adds its index exactly when that claim is rejected. */
  lemma UnsupportedIndicesOfPrefix(claims: seq<string>, contexts: seq<string>, threshold: real, provider: Provider)
    requires claims != []
    ensures var n := |claims| - 1;
      var before := UnsupportedIndices(claims[..n], contexts, threshold, provider);
      UnsupportedIndices(claims, contexts, threshold, provider) ==
        if IsClaimSupported(claims[n], contexts, threshold, provider) == Success(false) then before + {n} else before
  {
    var n := |claims| - 1;
    forall i: nat | i < n ensures claims[i] == claims[..n][i] { }
  }

  /** The count is the number of claims whose support decision is "no". */
  lemma {:induction false} CountIsUnsupportedIndices(claims: seq<string>, contexts: seq<string>, threshold: real, provider: Provider)
    ensures var r := CountUnsupported(claims, contexts, threshold, provider);
      r.Success? ==> r.value == |UnsupportedIndices(claims, contexts, threshold, provider)|
    decreases |claims|
  {
    if claims != [] {
      var n := |claims| - 1;
      CountIsUnsupportedIndices(claims[..n], contexts, threshold, provider);
      UnsupportedIndicesOfPrefix(claims, contexts, threshold, provider);
      assert n !in UnsupportedIndices(claims[..n], contexts, threshold, provider);
    }
  }

  /** Raising the threshold never lowers the number of unsupported claims. */
  lemma {:induction false} CountMonotoneInThreshold(claims: seq<string>, contexts: seq<string>, low: real, high: real, provider: Provider)
    requires low <= high
    ensures var a := CountUnsupported(claims, contexts, low, provider);
      var b := CountUnsupported(claims, contexts, high, provider);
      a.Success? ==> b.Success? && a.value <= b.value
    decreases |claims|
  {
    if claims != [] {
      CountMonotoneInThreshold(claims[..|claims| - 1], contexts, low, high, provider);
    }
  }

  /** Without context every claim scores 0.0, so a positive threshold rejects them all. */
  lemma {:induction false} NoContextRejectsAll(claims: seq<string>, threshold: real, provider: Provider)
    requires threshold > 0.0
    ensures CountUnsupported(claims, [], threshold, provider) == Success(|claims|)
    decreases |claims|
  {
    if claims != [] {
      NoContextRejectsAll(claims[..|claims| - 1], threshold, provider);
    }
  }

  /** What `score_answer_ucr` returns or raises. */
  function Ucr(answer: string, context: Option<string>, threshold: real, provider: Provider): (r: Result<UcrResult, ScoreError>)
    ensures ExtractClaims(Some(answer)) == [] ==> r == Success(UcrResult(0.0, 0, 0))
    ensures r.Failure? <==> ExtractClaims(Some(answer)) != [] && ContextSet(context) != [] && provider.Unavailable?
    ensures r.Success? ==>
      && r.value.total == |ExtractClaims(Some(answer))|
      && r.value.unsupported <= r.value.total
      && 0.0 <= r.value.rate <= 1.0
    ensures r.Success? && r.value.total > 0 ==> r.value.rate == Ratio(r.value.unsupported, r.value.total)
  {
    var claims := ExtractClaims(Some(answer));
    if claims == [] then Success(UcrResult(0.0, 0, 0))
    else
      match CountUnsupported(claims, ContextSet(context), threshold, provider)
      case Failure(e) => Failure(e)
      case Success(n) => Success(UcrResult(Ratio(n, |claims|), n, |claims|))
  }

  /** `n / d` as a Python float division, for `0 <= n <= d` and `d > 0`. */
  function Ratio(n: nat, d: nat): (q: real)
    requires 0 < d && n <= d
    ensures 0.0 <= q <= 1.0 && q * d as real == n as real
  {
    n as real / d as real
  }

  /** `score_answer_ucr(model_answer, context, threshold)`. */
  method ScoreAnswerUcr(answer: string, context: Option<string>, threshold: real, provider: Provider)
    returns (r: Result<UcrResult, ScoreError>)
    ensures r == Ucr(answer, context, threshold, provider)
  {
    var claims := ExtractClaims(Some(answer));
    if claims == [] {
      return Success(UcrResult(0.0, 0, 0));
    }
    var contexts := ContextSet(context);
    var count := TallyUnsupported(claims, contexts, threshold, provider);
    match count
    case Failure(e) =>
      return Failure(e);
    case Success(unsupported) =>
      return Success(UcrResult(Ratio(unsupported, |claims|), unsupported, |claims|));
  }

  /**
    The loop of `score_answer_ucr`: asks `is_claim_supported` about each claim in turn and
    counts the rejections; an error raised for one claim ends the loop.
  */
  method TallyUnsupported(claims: seq<string>, contexts: seq<string>, threshold: real, provider: Provider)
    returns (r: Result<nat, ScoreError>)
    ensures r == CountUnsupported(claims, contexts, threshold, provider)
  {
    var unsupported: nat := 0;
    for i := 0 to |claims|
      invariant CountUnsupported(claims[..i], contexts, threshold, provider) == Success(unsupported)
    {
      var supported := IsClaimSupported(claims[i], contexts, threshold, provider);
      if supported.Failure? {
        ghost var expected := CountUnsupported(claims, contexts, threshold, provider);
        assert expected.Failure? && expected.error == ProviderUnavailable == supported.error;
        return Failure(supported.error);
      }
      if !supported.value {
        unsupported := unsupported + 1;
      }
      assert claims[..i + 1][..i] == claims[..i];
    }
    assert claims[..|claims|] == claims;
    return Success(unsupported);
  }

  /** The reported unsupported count is the number of claims that `is_claim_supported` rejects. */
  lemma UcrCountsRejected(answer: string, context: Option<string>, threshold: real, provider: Provider)
    ensures var r := Ucr(answer, context, threshold, provider);
      r.Success? ==>
        r.value.unsupported == |UnsupportedIndices(ExtractClaims(Some(answer)), ContextSet(context), threshold, provider)|
  {
    CountIsUnsupportedIndices(ExtractClaims(Some(answer)), ContextSet(context), threshold, provider);
  }

  /** A blank answer has no claims and is reported as `(0.0, 0, 0)`, not as unsupported. */
  lemma UcrOfBlankAnswer(answer: string, context: Option<string>, threshold: real, provider: Provider)
    requires Blank(answer)
    ensures Ucr(answer, context, threshold, provider) == Success(UcrResult(0.0, 0, 0))
  {
    NoClaimsIffBlank(answer);
  }

  /** With no usable context and a positive threshold, every claim of a non-blank answer is unsupported. */
  lemma UcrWithoutContext(answer: string, context: Option<string>, threshold: real, provider: Provider)
    requires ContextSet(context) == [] && threshold > 0.0 && !Blank(answer)
    ensures var n := |ExtractClaims(Some(answer))|;
      n > 0 && Ucr(answer, context, threshold, provider) == Success(UcrResult(1.0, n, n))
  {
    var claims := ExtractClaims(Some(answer));
    var n := |claims|;
    NoClaimsIffBlank(answer);
    NoContextRejectsAll(claims, threshold, provider);
    RatioOfWhole(n);
  }

  lemma RatioOfWhole(n: nat)
    requires n > 0
    ensures Ratio(n, n) == 1.0
  {
  }

  /** Raising the threshold never lowers the unsupported count nor the rate, and never changes whether the call raises. */
  lemma UcrMonotoneInThreshold(answer: string, context: Option<string>, low: real, high: real, provider: Provider)
    requires low <= high
    ensures var a := Ucr(answer, context, low, provider);
      var b := Ucr(answer, context, high, provider);
      && (a.Success? <==> b.Success?)
      && (a.Success? ==> a.value.unsupported <= b.value.unsupported && a.value.rate <= b.value.rate)
  {
    var claims := ExtractClaims(Some(answer));
    if claims != [] {
      CountMonotoneInThreshold(claims, ContextSet(context), low, high, provider);
      var a := Ucr(answer, context, low, provider);
      var b := Ucr(answer, context, high, provider);
      if a.Success? {
        RatioMonotone(a.value.unsupported, b.value.unsupported, |claims|);
      }
    }
  }

  lemma RatioMonotone(m: nat, n: nat, d: nat)
    requires 0 < d && m <= n <= d
    ensures Ratio(m, d) <= Ratio(n, d)
  {
    var x, y := Ratio(m, d), Ratio(n, d);
    assert y - x == (n - m) as real / d as real;
  }

  // ---------------------------------------------------------------- faithfulness_score

  /** `[best_support_score(c, contexts) for c in claims]`; the first error stops the list. */
  function SupportScores(claims: seq<string>, contexts: seq<string>, provider: Provider): (r: Result<seq<real>, ScoreError>)
    ensures r.Failure? <==> claims != [] && contexts != [] && provider.Unavailable?
    ensures r.Success? ==>
      && |r.value| == |claims|
      && forall i | 0 <= i < |claims| :: BestSupportScore(claims[i], contexts, provider) == Success(r.value[i])
    decreases |claims|
  {
    if claims == [] then Success([])
    else
      match BestSupportScore(claims[0], contexts, provider)
      case Failure(e) => Failure(e)
      case Success(score) =>
        match SupportScores(claims[1..], contexts, provider)
        case Failure(e) => Failure(e)
        case Success(scores) => Success([score] + scores)
  }

  /** Python's `sum`. */
  function Sum(xs: seq<real>): real
    decreases |xs|
  {
    if xs == [] then 0.0 else xs[0] + Sum(xs[1..])
  }

  /** A sum of values in [lo, hi] lies between `|xs| * lo` and `|xs| * hi`. */
  lemma {:induction false} SumBetween(xs: seq<real>, lo: real, hi: real)
    requires forall i | 0 <= i < |xs| :: lo <= xs[i] <= hi
    ensures |xs| as real * lo <= Sum(xs) <= |xs| as real * hi
    decreases |xs|
  {
    if xs != [] {
      SumBetween(xs[1..], lo, hi);
    }
  }

  /** The mean of values in [lo, hi] lies in [lo, hi]. */
  lemma MeanBetween(xs: seq<real>, lo: real, hi: real)
    requires xs != []
    requires forall i | 0 <= i < |xs| :: lo <= xs[i] <= hi
    ensures lo <= Sum(xs) / |xs| as real <= hi
  {
    SumBetween(xs, lo, hi);
    DivideBounds(Sum(xs), |xs| as real, lo, hi);
  }

  lemma DivideBounds(total: real, n: real, lo: real, hi: real)
    requires n > 0.0 && n * lo <= total <= n * hi
    ensures lo <= total / n <= hi
  {
    var m := total / n;
    assert (m - lo) * n == total - n * lo;
    assert (hi - m) * n == n * hi - total;
  }

  /** `faithfulness_score(model_answer, context)`: 1.0 for no claims, else the mean support score. */
  function Faithfulness(answer: string, context: Option<string>, provider: Provider): (r: Result<real, ScoreError>)
    ensures ExtractClaims(Some(answer)) == [] ==> r == Success(1.0)
    ensures r.Failure? <==> ExtractClaims(Some(answer)) != [] && ContextSet(context) != [] && provider.Unavailable?
  {
    var claims := ExtractClaims(Some(answer));
    if claims == [] then Success(1.0)
    else
      match SupportScores(claims, ContextSet(context), provider)
      case Failure(e) => Failure(e)
      case Success(scores) => Success(Sum(scores) / |scores| as real)
  }

  /** Faithfulness is the mean of the claims' best support scores. */
  lemma FaithfulnessIsMean(answer: string, context: Option<string>, provider: Provider)
    ensures var claims := ExtractClaims(Some(answer));
      var r := Faithfulness(answer, context, provider);
      claims != [] && r.Success? ==>
        exists xs: seq<real> {:trigger Sum(xs)} ::
          && |xs| == |claims|
          && (forall i | 0 <= i < |claims| :: BestSupportScore(claims[i], ContextSet(context), provider) == Success(xs[i]))
          && r.value == Sum(xs) / |claims| as real
  {
    var claims := ExtractClaims(Some(answer));
    var scores := SupportScores(claims, ContextSet(context), provider);
    if claims != [] && scores.Success? {
      assert Sum(scores.value) / |claims| as real == Faithfulness(answer, context, provider).value;
    }
  }

  /** A blank answer is fully faithful: nothing asserted, nothing contradicted. */
  lemma FaithfulnessOfBlankAnswer(answer: string, context: Option<string>, provider: Provider)
    requires Blank(answer)
    ensures Faithfulness(answer, context, provider) == Success(1.0)
  {
    NoClaimsIffBlank(answer);
  }

  /** With no usable context every claim scores 0.0, so a non-blank answer has faithfulness 0.0. */
  lemma FaithfulnessWithoutContext(answer: string, context: Option<string>, provider: Provider)
    requires ContextSet(context) == [] && !Blank(answer)
    ensures Faithfulness(answer, context, provider) == Success(0.0)
  {
    NoClaimsIffBlank(answer);
    var claims := ExtractClaims(Some(answer));
    var scores := SupportScores(claims, [], provider).value;
    MeanBetween(scores, 0.0, 0.0);
  }

  /** Faithfulness is a mean of cosine similarities (or the 1.0 convention), so it lies in [-1, 1]. */
  lemma FaithfulnessInCosineRange(answer: string, context: Option<string>, provider: Provider)
    requires provider.Available? ==> InCosineRange(provider.similarity)
    ensures var r := Faithfulness(answer, context, provider);
      r.Success? ==> -1.0 <= r.value <= 1.0
  {
    var claims := ExtractClaims(Some(answer));
    var contexts := ContextSet(context);
    var r := SupportScores(claims, contexts, provider);
    if claims != [] && r.Success? {
      forall i | 0 <= i < |r.value| ensures -1.0 <= r.value[i] <= 1.0 {
        BestSupportScoreInCosineRange(claims[i], contexts, provider);
      }
      MeanBetween(r.value, -1.0, 1.0);
    }
  }

  // ---------------------------------------------------------------- a worked example

  /*
    The facts about the two example sentences are two lemmas rather than one over either string:
    a single lemma has to consider both literals at once and costs the solver several times more.
  */
  lemma FirstSentenceFacts(a: string)
    requires a == "Paris is the capital of France."
    ensures EndsInTerminal(a) && !HasBreak(a) && !IsSpace(a[0])
  {
    assert forall i | 0 <= i < |a| - 1 :: !IsTerminal(a[i]);
    OnlyLastTerminal(a);
    IsSpaceIsMembership('P');
  }

  lemma SecondSentenceFacts(b: string)
    requires b == "It has 50 million residents."
    ensures EndsInTerminal(b) && !HasBreak(b) && !IsSpace(b[0])
  {
    assert forall i | 0 <= i < |b| - 1 :: !IsTerminal(b[i]);
    OnlyLastTerminal(b);
    IsSpaceIsMembership('I');
  }

  lemma ExampleContextFacts(context: string)
    requires context == "Paris is the capital " + "and most populous " + "city of France."
    ensures !Blank(context)
  {
    assert context[0] == 'P';
    IsSpaceIsMembership('P');
  }

  lemma SingleSpaceIsBlank(gap: string)
    requires gap == " "
    ensures Blank(gap)
  {
    assert gap[0] == ' ';
    IsSpaceIsMembership(' ');
  }

  /**
    The two-sentence answer about Paris against a one-sentence context: when the model finds the
    first claim supported and the second not, the result is `(0.5, 1, 2)`.
  */
  lemma ParisExample(answer: string, a: string, b: string, context: string, sim: Similarity)
    requires a == "Paris is the capital of France."
    requires b == "It has 50 million residents."
    requires answer == a + " " + b
    requires context == "Paris is the capital " + "and most populous " + "city of France."
    requires sim(a, context) >= DefaultThreshold && sim(b, context) < DefaultThreshold
    ensures ExtractClaims(Some(answer)) == [a, b]
    ensures Ucr(answer, Some(context), DefaultThreshold, Available(sim)) == Success(UcrResult(0.5, 1, 2))
  {
    FirstSentenceFacts(a);
    SecondSentenceFacts(b);
    ExampleContextFacts(context);
    SingleSpaceIsBlank(" ");
    TwoSentencesTwoClaims(a, " ", b);
    UcrOfTwoClaims(answer, a, b, context, DefaultThreshold, sim);
  }

  /** Two claims against one usable context, the first supported and the second not. */
  lemma UcrOfTwoClaims(answer: string, a: string, b: string, context: string, threshold: real, sim: Similarity)
    requires ExtractClaims(Some(answer)) == [a, b] && !Blank(context)
    requires sim(a, context) >= threshold && sim(b, context) < threshold
    ensures Ucr(answer, Some(context), threshold, Available(sim)) == Success(UcrResult(0.5, 1, 2))
  {
    var contexts := ContextSet(Some(context));
    assert contexts == [context];
    CountOfTwoClaims(a, b, context, threshold, sim);
    assert Ratio(1, 2) == 0.5;
  }

  lemma CountOfTwoClaims(a: string, b: string, context: string, threshold: real, sim: Similarity)
    requires sim(a, context) >= threshold && sim(b, context) < threshold
    ensures CountUnsupported([a, b], [context], threshold, Available(sim)) == Success(1)
  {
    var claims, contexts, p := [a, b], [context], Available(sim);
    assert MaxSimilarity(a, contexts, sim) == sim(a, context);
    assert MaxSimilarity(b, contexts, sim) == sim(b, context);
    assert IsClaimSupported(a, contexts, threshold, p) == Success(true);
    assert IsClaimSupported(b, contexts, threshold, p) == Success(false);
    assert claims[..1] == [a] && [a][..0] == [];
    assert CountUnsupported([a], contexts, threshold, p) == Success(0);
  }
}
