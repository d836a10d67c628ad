# taming_llm.py, modelled in Dafny

`taming_llm.py` is a small set of helpers around a hosted chat-completion
API. This project models the part of it that is logic rather than I/O, and
proves what that logic does:

- **Section extraction** (`extract_section`). This is a labelled field of a
  completion: the text after the first occurrence of a start marker, up to the
  first end marker found after it (or to the end of the text), stripped of
  surrounding white space. The result is `None` when the start marker is absent.
  Python's `str.find`, `in`, `str.strip()` and `str.lower()` are modelled in
  `Text`, with `strip` removing exactly the characters `str.isspace()` accepts.
- **Streaming accumulation** (`stream_until_marker`). Text fragments of a
  streamed completion are appended in order. The loop stops at the first
  fragment after which the accumulated text contains the stop marker. The loop
  is a method, `Streaming.StreamUntilMarker`, proved against the function
  `Streaming.Streamed`. The lemmas about `Streamed` show three things:
  - the result is a prefix of all of the streamed text;
  - the result holds the marker when the full text does, and is the whole text
    when it does not;
  - for a non-empty marker, no shorter fragment boundary holds it.
- **Confidence gating** (the tail of `classify_with_confidence`). The category,
  the confidence label and the reasoning are read with the literal numbered
  markers. The label is lower-cased and looked up (high 1.0, medium 0.5, low
  0.2, anything else 0). The extracted category is reported only when the score
  reaches the threshold (0.8 by default). Otherwise the answer is the fixed
  "uncertain" / "Confidence below threshold" pair, with the score kept.
  `Classifier.ClassifyFormatted` is the round trip: a response in the format
  the prompt asks for gives back its own stripped fields. This holds when the
  category and the label hold no line break, the category holds neither the
  confidence nor the reasoning marker, and the label holds no reasoning marker.
- **Strategy comparison** (the loops of `compare_prompt_strategies`). Each of
  the three strategies is run over every text, and the results are collected
  in a table keyed by strategy name. The classifier and the prompt templates are
  parameters. A classifier that raises is one that returns `Err`, and the first
  such error ends the comparison, as the exception does in the source.

There is one file per module: `wrappers.dfy` (`Option`, `Result`), `text.dfy`,
`sections.dfy`, `streaming.dfy`, `classifier.dfy` and `comparison.dfy`.

A reimplementation might score a missing confidence label 0. This model
follows the code, which calls `.lower()` on the label at taming_llm.py:126 and
so raises on `None`: `Classifier.ClassifyCompletion` returns
`Err(MissingConfidenceLabel)` exactly when the confidence marker does not occur.

## Model

| member | source | states |
|---|---|---|
| Text.FindFrom | taming_llm.py:51 | `s.find(sub, start)` is the first index at or after `start` where `sub` occurs, and it is -1 exactly when `sub` occurs nowhere from `start` on |
| Text.Find | taming_llm.py:43 | `s.find(sub)` is the first index where `sub` occurs, and it is -1 exactly when `sub` does not occur |
| Text.Contains | taming_llm.py:79 | `sub in s` holds exactly when `sub` occurs in `s` at some index |
| Text.ContainsPrefix | taming_llm.py:79 | a marker contained in a text is contained in every text that starts with it |
| Text.Strip | taming_llm.py:49 | `s.strip()` is no longer than `s` and neither starts nor ends with a white-space character |
| Text.StripSpan | taming_llm.py:49 | `s.strip()` is a slice of `s` with only white space before and after it |
| Text.StripUnique | taming_llm.py:49 | any slice of `s` with only white space outside it and none at its ends is `s.strip()` |
| Text.StripIdempotent | taming_llm.py:49 | stripping a stripped text changes nothing |
| Text.ToLower | taming_llm.py:126 | `s.lower()` has the length of `s` and lowers each letter A to Z, leaving every other character as it is |
| Text.ToLowerIgnoresCase | taming_llm.py:126 | two texts lower-case to the same text exactly when, character by character, they are equal or the same letter A to Z in upper and lower case |
| Text.LowerCharIgnoresCase | taming_llm.py:126 | two characters lower-case to the same character exactly when they are equal or the same letter A to Z in upper and lower case |
| Text.ToLowerIdempotent | taming_llm.py:126 | lower-casing a lower-cased text changes nothing |
| Text.OccursShift | taming_llm.py:43 | an occurrence in `b` at `k` is an occurrence in `a + b` at `|a| + k`, and conversely |
| Text.FindPastField | taming_llm.py:43 | searching `p + field + sep + rest` for a marker that holds no `sep`, does not start with a character of `p` and does not occur in `field` finds what searching `rest` finds, shifted past `sep` |
| Sections.ExtractSection | taming_llm.py:41-55 | the result is `None` exactly when the start marker does not occur in the completion |
| Sections.SectionStop | taming_llm.py:48-54 | a section ends inside the text, at or after its start: at the first end marker found from the start, or at the end of the text |
| Sections.ExtractWithoutEnd | taming_llm.py:46-49 | without an end marker, the section is the stripped text after the first start marker |
| Sections.ExtractEndMissing | taming_llm.py:51-53 | when the end marker does not occur after the start marker, the result is the one without an end marker, even if the end marker occurs earlier |
| Sections.ExtractEndFound | taming_llm.py:51-55 | when the first end marker after the start marker is at `j`, the section is the stripped text between the two markers |
| Sections.EndMarkerNotBetween | taming_llm.py:51-55 | the unstripped text between the start marker and the first end marker after it holds no occurrence of a non-empty end marker |
| Sections.ExtractBetween | taming_llm.py:43-55 | with the markers at `i` and `j`, and nothing before either that starts it, the searches stop at `i` and `j` and the section is the stripped text between them |
| Sections.ExtractFromLayout | taming_llm.py:43-55 | in a completion `before + start + body + end + after`, where `before` holds no first character of `start` and `body` none of `end`, the section is the stripped `body` |
| Sections.ExtractSectionFound | taming_llm.py:43-55 | once the start marker is found at `i`, the section is the stripped text from the end of the marker to where the section stops |
| Sections.ExtractAfterFound | taming_llm.py:43-55 | in a completion `before + start + body + end + after` whose first start marker follows `before`, where `body` holds no first character of `end`, the section is the stripped `body` |
| Sections.ExtractLastFromLayout | taming_llm.py:43-49 | in a completion `before + start + body` with no first character of `start` in `before`, the section without an end marker is the stripped `body` |
| Streaming.StopPointFrom | taming_llm.py:72-81 | the loop consumes either every chunk without stopping, or the chunks up to and including the first one that is a fragment after which the accumulated text holds the marker |
| Streaming.StopPoint | taming_llm.py:72-81 | the same, from the first chunk |
| Streaming.StreamUntilMarker | taming_llm.py:61-86 | the loop returns the concatenation of the non-empty fragments it consumed, stopping as soon as the accumulated text contains the marker |
| Streaming.AccumulatedPrefix | taming_llm.py:76 | the text of fewer chunks is a prefix of the text of more chunks |
| Streaming.Streamed | taming_llm.py:72-86 | what the loop returns is a prefix of the concatenation of all non-empty fragments |
| Streaming.StreamedHoldsMarker | taming_llm.py:79-81 | when the marker occurs in the full text, the returned text contains it |
| Streaming.StreamedWithoutMarker | taming_llm.py:72-86 | when the marker never occurs, the loop returns the concatenation of all non-empty fragments |
| Streaming.StreamedIsShortest | taming_llm.py:76-81 | for a non-empty marker, the text at no earlier chunk boundary contains it |
| Streaming.StreamedSplitMarker | taming_llm.py:76-81 | a marker split across two fragments is detected once the second fragment is appended, and that fragment is kept whole |
| Streaming.StopPointTruncated | taming_llm.py:72-84 | a stream cut after `k` chunks stops where the whole stream stops, or at the cut |
| Streaming.StreamedTruncated | taming_llm.py:83-86 | a stream that fails after `k` chunks returns a prefix of what the uninterrupted stream returns |
| Classifier.ConfidenceScore | taming_llm.py:121-126 | the score is 1.0, 0.5 or 0.2 exactly when the lower-cased label is "high", "medium" or "low", and 0 exactly when it is none of them |
| Classifier.ScoreIgnoresCase | taming_llm.py:126 | labels that differ only in the case of letters A to Z score the same |
| Classifier.ScoreOfLowered | taming_llm.py:126 | a label scores what its lower-cased form scores |
| Classifier.ConfidenceScoreExamples | taming_llm.py:121-126 | "High" scores 1.0, "MEDIUM" 0.5, "low" 0.2 and "very high" 0 |
| Classifier.ClassifyCompletion | taming_llm.py:116-140 | classification fails exactly when the confidence marker is absent, and otherwise reports a score from the table |
| Classifier.ClassifyGate | taming_llm.py:126-140 | the reported confidence is the score of the extracted label. At or above the threshold the result carries the extracted category and reasoning; below it, "uncertain" and "Confidence below threshold" |
| Classifier.DefaultThresholdOnlyHigh | taming_llm.py:88-129 | at the default threshold 0.8, a label passes the gate exactly when it lower-cases to "high" |
| Classifier.GateMonotonic | taming_llm.py:129-140 | a result that passes the gate at one threshold is the same result at every lower threshold |
| Classifier.CategoryOfFormatted | taming_llm.py:117 | the category read from a formatted response whose category holds no line break is its stripped category |
| Classifier.LabelOfFormatted | taming_llm.py:118 | the confidence label read from a formatted response is its stripped label, when neither the category nor the label holds a line break and the category holds no confidence marker |
| Classifier.ReasoningOfFormatted | taming_llm.py:133 | the reasoning read from a formatted response is its stripped reasoning, up to the end of the text, when the category and the label hold no line break and no reasoning marker and the category holds no confidence marker |
| Classifier.ClassifyFormatted | taming_llm.py:116-140 | a response formatted from fields with no line break in the category and the label, no confidence marker in the category and no reasoning marker in either classifies to its own stripped fields when its label passes the threshold, and to the "uncertain" answer with the label's score otherwise |
| Comparison.ClassifyEach | taming_llm.py:173-176 | on success, the results are the classifications of the inputs, in order and one per input; on failure, the error is that of the first input whose classification fails |
| Comparison.CompareOver | taming_llm.py:169-179 | a comparison that succeeds has exactly the strategy names as keys, and a comparison of no strategies is the empty table |
| Comparison.ComparePromptStrategies | taming_llm.py:169-179 | the comparison as written: every strategy's entry is built from the classifications of the texts, and the first classifier error ends it |
| Comparison.CompareOverOk | taming_llm.py:169-179 | a comparison that succeeds has an entry for each strategy and no other, and each entry holds the classifications of that strategy's inputs |
| Comparison.CompareOverErr | taming_llm.py:169-179 | a comparison that fails reports the error of the first strategy whose classifications fail |
| Comparison.StrategiesAgree | taming_llm.py:174-175 | as written, the comparison fails exactly when classifying the texts fails, and otherwise all three strategies have the same entry: the classifications of the bare texts |
| Comparison.ComparePromptStrategiesWithPrompts | taming_llm.py:171-177 | the intended comparison, which classifies each strategy's prompt |
| Comparison.PromptsAreClassified | taming_llm.py:171-177 | the intended comparison, when it succeeds, reports for each strategy and text the classification of the prompt that strategy builds for that text |
| Comparison.PromptErrorReported | taming_llm.py:171-177 | the intended comparison fails only with the error of classifying one of the prompts |

## Findings

| source | as written | input that shows it | evidently intended | confidence | as-written member | corrected member |
|---|---|---|---|---|---|---|
| taming_llm.py:174-175 | each strategy builds `prompt`, but the classifier is called with the bare `text`, so the prompt is never used | any texts and any classifier. `Comparison.StrategiesAgree` proves that "basic", "structured" and "few_shot" all get the same entry, the classifications of the texts themselves | each strategy's prompt is what gets classified, so the strategies can differ | high that the prompt is unused; not executed | Comparison.ComparePromptStrategies | Comparison.ComparePromptStrategiesWithPrompts |

## Left out

- `LLMClient` (taming_llm.py:5-24) is not modelled. It reads an environment file and a variable, and calls the network through a third-party library.
- The API requests (taming_llm.py:64-70, 107-113) are not modelled. The model takes their results as inputs: the sequence of streamed chunks, and the completion string.
- A completion whose content is `None` is not modelled, because the model's completion is always a string.
- The shape of a streamed chunk (taming_llm.py:73-74) is flattened to `Option<string>`. `None` stands for a chunk with no choice, no delta, no `content` attribute, or a `None` content.
- The exception handler of `stream_until_marker` (taming_llm.py:83-84) is modelled only as a shorter chunk sequence. A failure before the first chunk is the empty sequence. The message it prints is not modelled.
- The prompt texts, which are f-string templating, are not modelled: the prompt of `classify_with_confidence` (taming_llm.py:94-104), `create_structured_prompt` (taming_llm.py:26-39) and the three strategy lambdas (taming_llm.py:147-166). The lambdas become the `promptFor` parameter.
- All `print` calls and the commented-out harnesses (taming_llm.py:182-229) are not modelled.
- Comparison.ComparePromptStrategies: its classifier is a deterministic function of the input and the categories. The source instead runs one API request per call, and those requests may answer differently.
- Classifier.ConfidenceScore: scores and thresholds are exact reals, not binary floats. The integer 0 returned for an unknown label is the real 0. This matters nowhere, because 0.2, 0.5, 0.8 and 1.0 compare the same way in both.
- Text.ToLower: it lowers only the letters A to Z, not all of Unicode. The score lookup cannot tell the difference. The only non-ASCII characters that lower-case into ASCII letters are U+212A, which lower-cases to "k", and U+0130, which lower-cases to "i" followed by a combining dot. No table key contains a "k", and the combining dot is never in a key.
- The `max_tokens`, `temperature` and `stream` request parameters are not modelled, because they only shape the API requests.

