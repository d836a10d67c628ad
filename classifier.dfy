/**
 * The parse-and-gate tail of `classify_with_confidence`: the fields of a
 * completion are read by their numbered markers, the confidence label is
 * turned into a score by a fixed table, and the category is reported only
 * when the score reaches the threshold.
 */
module Classifier {
  import opened Wrappers
  import opened Text
  import opened Sections

  const CategoryMarker: string := "1. CATEGORY: "
  const ConfidenceMarker: string := "2. CONFIDENCE: "
  const ReasoningMarker: string := "3. REASONING: "
  /** The category and the confidence label each end at the next line break. */
  const LineEnd: string := "\n"

  /** The threshold used when the caller gives none. */
  const DefaultThreshold: real := 0.8

  /** The category and the reasoning reported when the score is below the threshold. */
  const UncertainCategory: string := "uncertain"
  const BelowThresholdReasoning: string := "Confidence below threshold"

  /** The score of each recognised (lower-case) confidence label. */
  const ConfidenceMapping: map<string, real> := map["high" := 1.0, "medium" := 0.5, "low" := 0.2]

  /**
   * The score of a confidence label: the label is lower-cased and looked up
   * in the table; a label the table does not hold scores 0.
   */
  function ConfidenceScore(confidenceLabel: string): (score: real)
    ensures score == 1.0 <==> ToLower(confidenceLabel) == "high"
    ensures score == 0.5 <==> ToLower(confidenceLabel) == "medium"
    ensures score == 0.2 <==> ToLower(confidenceLabel) == "low"
    ensures score == 0.0 <==> ToLower(confidenceLabel) !in ConfidenceMapping
  {
    var key := ToLower(confidenceLabel);
    if key in ConfidenceMapping then ConfidenceMapping[key] else 0.0
  }

  /** What `classify_with_confidence` returns: its `category`, `confidence` and `reasoning` entries. */
  datatype Classification = Classification(category: Option<string>, confidence: real, reasoning: Option<string>)

  /** The completion has no confidence label, so lower-casing it raises. */
  datatype ClassifyError = MissingConfidenceLabel

  /** The classification of a completion at a given confidence threshold. */
  function ClassifyCompletion(completion: string, threshold: real): (r: Result<Classification, ClassifyError>)
    ensures r.Err? <==> !Contains(completion, ConfidenceMarker)
    ensures r.Ok? ==> r.value.confidence in {0.0, 0.2, 0.5, 1.0}
  {
    var category := ExtractSection(completion, CategoryMarker, Some(LineEnd));
    var confidenceLabel := ExtractSection(completion, ConfidenceMarker, Some(LineEnd));
    if confidenceLabel.None? then Err(MissingConfidenceLabel)
    else
      var confidenceScore := ConfidenceScore(confidenceLabel.value);
      if confidenceScore >= threshold then
        Ok(Classification(category, confidenceScore, ExtractSection(completion, ReasoningMarker, None)))
      else
        Ok(Classification(Some(UncertainCategory), confidenceScore, Some(BelowThresholdReasoning)))
  }

  /**
   * The gate: a classification carries the score of the extracted label, and
   * it carries the extracted category and reasoning exactly when that score
   * reaches the threshold, the fixed "uncertain" answer otherwise.
   */
  lemma ClassifyGate(completion: string, threshold: real)
    requires Contains(completion, ConfidenceMarker)
    ensures ExtractSection(completion, ConfidenceMarker, Some(LineEnd)).Some?
    ensures var score := ConfidenceScore(ExtractSection(completion, ConfidenceMarker, Some(LineEnd)).value);
      var r := ClassifyCompletion(completion, threshold);
      r.Ok? && r.value.confidence == score &&
      (score >= threshold ==>
        r.value.category == ExtractSection(completion, CategoryMarker, Some(LineEnd)) &&
        r.value.reasoning == ExtractSection(completion, ReasoningMarker, None)) &&
      (score < threshold ==>
        r.value == Classification(Some(UncertainCategory), score, Some(BelowThresholdReasoning)))
  {
  }

  /** At the default threshold only a label that lower-cases to "high" passes the gate. */
  lemma DefaultThresholdOnlyHigh(confidenceLabel: string)
    ensures ConfidenceScore(confidenceLabel) >= DefaultThreshold <==> ToLower(confidenceLabel) == "high"
  {
  }

  /** Labels that differ only in the case of their letters score the same. */
  lemma ScoreIgnoresCase(a: string, b: string)
    requires EqualIgnoringCase(a, b)
    ensures ConfidenceScore(a) == ConfidenceScore(b)
  {
    ToLowerIgnoresCase(a, b);
  }

  /** A label scores what its lower-cased form scores. */
  lemma ScoreOfLowered(confidenceLabel: string)
    ensures ConfidenceScore(ToLower(confidenceLabel)) == ConfidenceScore(confidenceLabel)
  {
    ToLowerIdempotent(confidenceLabel);
  }

  /** A lower threshold lets through every classification a higher one lets through. */
  lemma GateMonotonic(completion: string, low: real, high: real)
    requires low <= high
    requires ClassifyCompletion(completion, high).Ok?
    requires ClassifyCompletion(completion, high).value.confidence >= high
    ensures ClassifyCompletion(completion, low) == ClassifyCompletion(completion, high)
  {
  }

  /**
   * A completion in the response format the prompt asks for: the three
   * numbered fields, the first two each ended by a line break.
   */
  function FormatResponse(category: string, confidenceLabel: string, reasoning: string): string {
    CategoryMarker + category + LineEnd + ConfidenceMarker + confidenceLabel + LineEnd + ReasoningMarker + reasoning
  }

  /**
   * The fields of a formatted response that are read back as they were
   * written: the category and the label hold no line break, which would end
   * them early; the category holds no confidence marker, which would be found
   * in place of the label's; and neither holds a reasoning marker, which would
   * be found in place of the reasoning's. The reasoning is unconstrained.
   */
  ghost predicate WellFormedFields(category: string, confidenceLabel: string) {
    '\n' !in category && '\n' !in confidenceLabel &&
    !Contains(category, ConfidenceMarker) &&
    !Contains(category, ReasoningMarker) && !Contains(confidenceLabel, ReasoningMarker)
  }

  /** The category of a formatted response is the stripped category. */
  lemma CategoryOfFormatted(category: string, confidenceLabel: string, reasoning: string)
    requires '\n' !in category
    ensures ExtractSection(FormatResponse(category, confidenceLabel, reasoning), CategoryMarker, Some(LineEnd)) == Some(Strip(category))
  {
    var after := ConfidenceMarker + confidenceLabel + LineEnd + ReasoningMarker + reasoning;
    assert FormatResponse(category, confidenceLabel, reasoning) == [] + CategoryMarker + category + LineEnd + after by {
      FormatParts(category, confidenceLabel, reasoning);
    }
    ExtractFromLayout(FormatResponse(category, confidenceLabel, reasoning), [], CategoryMarker, category, LineEnd, after);
  }

  /** The confidence label of a formatted response is the stripped label. */
  lemma LabelOfFormatted(category: string, confidenceLabel: string, reasoning: string)
    requires '\n' !in category && '\n' !in confidenceLabel && !Contains(category, ConfidenceMarker)
    ensures ExtractSection(FormatResponse(category, confidenceLabel, reasoning), ConfidenceMarker, Some(LineEnd)) == Some(Strip(confidenceLabel))
  {
    var completion := FormatResponse(category, confidenceLabel, reasoning);
    var rest := ConfidenceMarker + confidenceLabel + LineEnd + (ReasoningMarker + reasoning);
    assert completion == CategoryMarker + category + ['\n'] + rest by {
      FormatNested(category, confidenceLabel, reasoning);
    }
    var before := CategoryMarker + category + LineEnd;
    assert Find(completion, ConfidenceMarker) == |before| by {
      assert Find(rest, ConfidenceMarker) == 0 by {
        OccursAtSeam([], ConfidenceMarker, confidenceLabel + LineEnd + (ReasoningMarker + reasoning));
        FindFromFirst(rest, ConfidenceMarker, 0, 0);
      }
      MarkerChars();
      FindPastField(CategoryMarker, category, '\n', rest, ConfidenceMarker);
    }
    assert completion == before + ConfidenceMarker + confidenceLabel + LineEnd + (ReasoningMarker + reasoning) by {
      FormatPartsMiddle(category, confidenceLabel, reasoning);
    }
    ExtractAfterFound(completion, before, ConfidenceMarker, confidenceLabel, LineEnd, ReasoningMarker + reasoning);
  }

  /** The reasoning of a formatted response is the stripped reasoning. */
  lemma ReasoningOfFormatted(category: string, confidenceLabel: string, reasoning: string)
    requires WellFormedFields(category, confidenceLabel)
    ensures ExtractSection(FormatResponse(category, confidenceLabel, reasoning), ReasoningMarker, None) == Some(Strip(reasoning))
  {
    var completion := FormatResponse(category, confidenceLabel, reasoning);
    var last := ReasoningMarker + reasoning;
    var rest := ConfidenceMarker + confidenceLabel + ['\n'] + last;
    assert completion == CategoryMarker + category + ['\n'] + rest by {
      FormatNested(category, confidenceLabel, reasoning);
    }
    var i := |CategoryMarker| + |category| + 1 + |ConfidenceMarker| + |confidenceLabel| + 1;
    assert Find(completion, ReasoningMarker) == i by {
      assert Find(last, ReasoningMarker) == 0 by {
        OccursAtSeam([], ReasoningMarker, reasoning);
        FindFromFirst(last, ReasoningMarker, 0, 0);
      }
      MarkerChars();
      FindPastField(ConfidenceMarker, confidenceLabel, '\n', last, ReasoningMarker);
      FindPastField(CategoryMarker, category, '\n', rest, ReasoningMarker);
    }
    assert completion[i + |ReasoningMarker|..] == reasoning;
    ExtractRestAt(completion, ReasoningMarker, i, reasoning);
  }

  /**
   * The markers start with a character found in no earlier marker, and hold
   * no line break.
   */
  lemma MarkerChars()
    ensures |ConfidenceMarker| > 0 && ConfidenceMarker[0] !in CategoryMarker && '\n' !in ConfidenceMarker
    ensures |ReasoningMarker| > 0 && ReasoningMarker[0] !in CategoryMarker && ReasoningMarker[0] !in ConfidenceMarker
    ensures '\n' !in ReasoningMarker
  {
  }

  /** A formatted response, grouped as its category line and the rest. */
  lemma FormatParts(category: string, confidenceLabel: string, reasoning: string)
    ensures FormatResponse(category, confidenceLabel, reasoning) ==
      [] + CategoryMarker + category + LineEnd + (ConfidenceMarker + confidenceLabel + LineEnd + ReasoningMarker + reasoning)
  {
  }

  /** A formatted response, grouped as its category line, its confidence line and the reasoning. */
  lemma FormatPartsMiddle(category: string, confidenceLabel: string, reasoning: string)
    ensures FormatResponse(category, confidenceLabel, reasoning) ==
      (CategoryMarker + category + LineEnd) + ConfidenceMarker + confidenceLabel + LineEnd + (ReasoningMarker + reasoning)
  {
  }

  /** A formatted response, grouped field by field from the right. */
  lemma FormatNested(category: string, confidenceLabel: string, reasoning: string)
    ensures FormatResponse(category, confidenceLabel, reasoning) ==
      CategoryMarker + category + ['\n'] + (ConfidenceMarker + confidenceLabel + ['\n'] + (ReasoningMarker + reasoning))
  {
  }

  /**
   * Classifying a response in the requested format gives back its stripped
   * fields: the category and reasoning when the label's score reaches the
   * threshold, the "uncertain" answer otherwise.
   */
  lemma ClassifyFormatted(category: string, confidenceLabel: string, reasoning: string, threshold: real)
    requires WellFormedFields(category, confidenceLabel)
    ensures var score := ConfidenceScore(Strip(confidenceLabel));
      ClassifyCompletion(FormatResponse(category, confidenceLabel, reasoning), threshold) ==
        if score >= threshold then Ok(Classification(Some(Strip(category)), score, Some(Strip(reasoning))))
        else Ok(Classification(Some(UncertainCategory), score, Some(BelowThresholdReasoning)))
  {
    CategoryOfFormatted(category, confidenceLabel, reasoning);
    LabelOfFormatted(category, confidenceLabel, reasoning);
    ReasoningOfFormatted(category, confidenceLabel, reasoning);
  }

  /** Scores of labels as a model might write them. */
  lemma ConfidenceScoreExamples()
    ensures ConfidenceScore("High") == 1.0 && ConfidenceScore("MEDIUM") == 0.5
    ensures ConfidenceScore("low") == 0.2 && ConfidenceScore("very high") == 0.0
  {
    assert ToLower("High") == "high";
    assert ToLower("MEDIUM") == "medium";
    assert ToLower("low") == "low";
    assert ToLower("very high") == "very high";
  }
}
