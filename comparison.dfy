/**
 * The loop structure of `compare_prompt_strategies`: each of the three prompt
 * strategies is run over every text, and the classifications are collected
 * per strategy. The classifier and the prompt templates are parameters; a
 * classifier that raises is one that returns `Err`, and its first error ends
 * the comparison.
 */
module Comparison {
  import opened Wrappers

  /** The strategies, in the order the comparison runs them. */
  const StrategyNames: seq<string> := ["basic", "structured", "few_shot"]

  /** The classifications of `inputs` in order, or the error of the first one that fails. */
  function ClassifyEach<R, E>(inputs: seq<string>, categories: seq<string>, classify: (string, seq<string>) -> Result<R, E>): (r: Result<seq<R>, E>)
    ensures r.Ok? ==>
      |r.value| == |inputs| && forall j :: 0 <= j < |inputs| ==> classify(inputs[j], categories) == Ok(r.value[j])
    ensures r.Err? ==>
      exists j :: 0 <= j < |inputs| && classify(inputs[j], categories) == Err(r.error) &&
        forall k :: 0 <= k < j ==> classify(inputs[k], categories).Ok?
  {
    if inputs == [] then Ok([])
    else
      var last := |inputs| - 1;
      match ClassifyEach(inputs[..last], categories, classify)
      case Err(e) => Err(e)
      case Ok(done) =>
        match classify(inputs[last], categories)
        case Err(e) => Err(e)
        case Ok(x) => Ok(done + [x])
  }

  /**
   * The table of a comparison whose strategy `names[s]` is run over
   * `inputs[s]`, or the error of the first classification that fails.
   */
  function CompareOver<R, E>(names: seq<string>, inputs: seq<seq<string>>, categories: seq<string>,
                            classify: (string, seq<string>) -> Result<R, E>): (r: Result<map<string, seq<R>>, E>)
    requires |names| == |inputs|
    ensures r.Ok? ==> r.value.Keys == set name | name in names
    ensures names == [] ==> r == Ok(map[])
  {
    if names == [] then Ok(map[])
    else
      var last := |names| - 1;
      match CompareOver(names[..last], inputs[..last], categories, classify)
      case Err(e) => Err(e)
      case Ok(table) =>
        match ClassifyEach(inputs[last], categories, classify)
        case Err(e) => Err(e)
        case Ok(results) => Ok(table[names[last] := results])
  }

  /** No name occurs twice. */
  predicate Distinct(names: seq<string>) {
    forall s, t :: 0 <= s < t < |names| ==> names[s] != names[t]
  }

  /** The texts themselves, once for each strategy. */
  function SameTexts(texts: seq<string>): (inputs: seq<seq<string>>)
    ensures |inputs| == |StrategyNames| && forall s :: 0 <= s < |inputs| ==> inputs[s] == texts
  {
    seq(|StrategyNames|, s => texts)
  }

  /** The prompt each strategy builds for each text. */
  function StrategyPrompts(texts: seq<string>, promptFor: (string, string) -> string): (inputs: seq<seq<string>>)
    ensures |inputs| == |StrategyNames|
    ensures forall s :: 0 <= s < |inputs| ==>
      |inputs[s]| == |texts| && forall j :: 0 <= j < |texts| ==> inputs[s][j] == promptFor(StrategyNames[s], texts[j])
  {
    seq(|StrategyNames|, s requires 0 <= s < |StrategyNames| =>
      seq(|texts|, j requires 0 <= j < |texts| => promptFor(StrategyNames[s], texts[j])))
  }

  /**
   * `compare_prompt_strategies` as written: the prompt of each strategy is
   * built but the classifier is given the text, so every strategy classifies
   * the same inputs.
   */
  method ComparePromptStrategies<R, E>(texts: seq<string>, categories: seq<string>,
                                      promptFor: (string, string) -> string,
                                      classify: (string, seq<string>) -> Result<R, E>)
    returns (results: Result<map<string, seq<R>>, E>)
    ensures results == CompareOver(StrategyNames, SameTexts(texts), categories, classify)
  {
    var inputs := SameTexts(texts);
    var table: map<string, seq<R>> := map[];
    for s := 0 to |StrategyNames|
      invariant CompareOver(StrategyNames[..s], inputs[..s], categories, classify) == Ok(table)
    {
      var strategyName := StrategyNames[s];
      var strategyResults: seq<R> := [];
      for j := 0 to |texts|
        invariant ClassifyEach(texts[..j], categories, classify) == Ok(strategyResults)
      {
        var text := texts[j];
        var prompt := promptFor(strategyName, text);
        var result := classify(text, categories);
        ClassifyEachStep(texts, categories, classify, j);
        if result.Err? {
          ClassifyEachFails(texts, categories, classify, j + 1);
          CompareOverFails(StrategyNames, inputs, categories, classify, s);
          return Err(result.error);
        }
        strategyResults := strategyResults + [result.value];
      }
      assert texts[..|texts|] == texts;
      CompareOverStep(StrategyNames, inputs, categories, classify, s);
      table := table[strategyName := strategyResults];
    }
    assert StrategyNames[..|StrategyNames|] == StrategyNames && inputs[..|StrategyNames|] == inputs;
    results := Ok(table);
  }

  /**
   * The evidently intended comparison: each strategy's prompt, not the bare
   * text, is what the classifier is given.
   */
  method ComparePromptStrategiesWithPrompts<R, E>(texts: seq<string>, categories: seq<string>,
                                                 promptFor: (string, string) -> string,
                                                 classify: (string, seq<string>) -> Result<R, E>)
    returns (results: Result<map<string, seq<R>>, E>)
    ensures results == CompareOver(StrategyNames, StrategyPrompts(texts, promptFor), categories, classify)
  {
    var inputs := StrategyPrompts(texts, promptFor);
    var table: map<string, seq<R>> := map[];
    for s := 0 to |StrategyNames|
      invariant CompareOver(StrategyNames[..s], inputs[..s], categories, classify) == Ok(table)
    {
      var strategyName := StrategyNames[s];
      var strategyResults: seq<R> := [];
      for j := 0 to |texts|
        invariant ClassifyEach(inputs[s][..j], categories, classify) == Ok(strategyResults)
      {
        var prompt := promptFor(strategyName, texts[j]);
        assert prompt == inputs[s][j];
        var result := classify(prompt, categories);
        ClassifyEachStep(inputs[s], categories, classify, j);
        if result.Err? {
          ClassifyEachFails(inputs[s], categories, classify, j + 1);
          CompareOverFails(StrategyNames, inputs, categories, classify, s);
          return Err(result.error);
        }
        strategyResults := strategyResults + [result.value];
      }
      assert inputs[s][..|texts|] == inputs[s];
      CompareOverStep(StrategyNames, inputs, categories, classify, s);
      table := table[strategyName := strategyResults];
    }
    assert StrategyNames[..|StrategyNames|] == StrategyNames && inputs[..|StrategyNames|] == inputs;
    results := Ok(table);
  }

  /** Classifying one more input extends the classifications, or fails with its error. */
  lemma ClassifyEachStep<R, E>(inputs: seq<string>, categories: seq<string>, classify: (string, seq<string>) -> Result<R, E>, j: nat)
    requires j < |inputs| && ClassifyEach(inputs[..j], categories, classify).Ok?
    ensures ClassifyEach(inputs[..j + 1], categories, classify) ==
      match classify(inputs[j], categories)
      case Err(e) => Err(e)
      case Ok(x) => Ok(ClassifyEach(inputs[..j], categories, classify).value + [x])
  {
    assert inputs[..j + 1][..j] == inputs[..j];
  }

  /** Once a prefix of the inputs fails, classifying all of them fails with the same error. */
  lemma {:induction false} ClassifyEachFails<R, E>(inputs: seq<string>, categories: seq<string>, classify: (string, seq<string>) -> Result<R, E>, j: nat)
    requires j <= |inputs| && ClassifyEach(inputs[..j], categories, classify).Err?
    ensures ClassifyEach(inputs, categories, classify) == ClassifyEach(inputs[..j], categories, classify)
    decreases |inputs| - j
  {
    if j < |inputs| {
      assert inputs[..j + 1][..j] == inputs[..j];
      ClassifyEachFails(inputs, categories, classify, j + 1);
    } else {
      assert inputs[..j] == inputs;
    }
  }

  /** Running strategy `s` after the first `s` extends the table, or fails with its error. */
  lemma CompareOverStep<R, E>(names: seq<string>, inputs: seq<seq<string>>, categories: seq<string>,
                              classify: (string, seq<string>) -> Result<R, E>, s: nat)
    requires |names| == |inputs| && s < |names|
    requires CompareOver(names[..s], inputs[..s], categories, classify).Ok?
    ensures CompareOver(names[..s + 1], inputs[..s + 1], categories, classify) ==
      match ClassifyEach(inputs[s], categories, classify)
      case Err(e) => Err(e)
      case Ok(results) => Ok(CompareOver(names[..s], inputs[..s], categories, classify).value[names[s] := results])
  {
    assert names[..s + 1][..s] == names[..s];
    assert inputs[..s + 1][..s] == inputs[..s];
  }

  /** When strategy `s` fails after the first `s` succeeded, the whole comparison fails with its error. */
  lemma CompareOverFails<R, E>(names: seq<string>, inputs: seq<seq<string>>, categories: seq<string>,
                               classify: (string, seq<string>) -> Result<R, E>, s: nat)
    requires |names| == |inputs| && s < |names|
    requires CompareOver(names[..s], inputs[..s], categories, classify).Ok?
    requires ClassifyEach(inputs[s], categories, classify).Err?
    ensures CompareOver(names, inputs, categories, classify) == Err(ClassifyEach(inputs[s], categories, classify).error)
  {
    CompareOverStep(names, inputs, categories, classify, s);
    CompareOverFailsFrom(names, inputs, categories, classify, s + 1);
  }

  /** Once the first `s` strategies fail, the whole comparison fails with the same error. */
  lemma {:induction false} CompareOverFailsFrom<R, E>(names: seq<string>, inputs: seq<seq<string>>, categories: seq<string>,
                                                      classify: (string, seq<string>) -> Result<R, E>, s: nat)
    requires |names| == |inputs| && s <= |names|
    requires CompareOver(names[..s], inputs[..s], categories, classify).Err?
    ensures CompareOver(names, inputs, categories, classify) == CompareOver(names[..s], inputs[..s], categories, classify)
    decreases |names| - s
  {
    if s < |names| {
      assert names[..s + 1][..s] == names[..s];
      assert inputs[..s + 1][..s] == inputs[..s];
      CompareOverFailsFrom(names, inputs, categories, classify, s + 1);
    } else {
      assert names[..s] == names && inputs[..s] == inputs;
    }
  }

  /**
   * A comparison that succeeds has an entry for each strategy and no other,
   * and the entry of a strategy holds the classifications of its inputs.
   */
  lemma {:induction false} CompareOverOk<R, E>(names: seq<string>, inputs: seq<seq<string>>, categories: seq<string>,
                                               classify: (string, seq<string>) -> Result<R, E>)
    requires |names| == |inputs| && Distinct(names) && CompareOver(names, inputs, categories, classify).Ok?
    ensures var table := CompareOver(names, inputs, categories, classify).value;
      (forall name :: name in table <==> name in names) &&
      forall s :: 0 <= s < |names| ==> ClassifyEach(inputs[s], categories, classify) == Ok(table[names[s]])
    decreases |names|
  {
    if names != [] {
      var last := |names| - 1;
      assert names == names[..last] + [names[last]];
      CompareOverOk(names[..last], inputs[..last], categories, classify);
      forall s | 0 <= s < last
        ensures names[..last][s] == names[s] && inputs[..last][s] == inputs[s] && names[s] != names[last]
      {
      }
    }
  }

  /**
   * A comparison that fails fails with the error of the first strategy whose
   * classifications fail.
   */
  lemma {:induction false} CompareOverErr<R, E>(names: seq<string>, inputs: seq<seq<string>>, categories: seq<string>,
                                                classify: (string, seq<string>) -> Result<R, E>) returns (s: nat)
    requires |names| == |inputs| && Distinct(names) && CompareOver(names, inputs, categories, classify).Err?
    ensures s < |names| && ClassifyEach(inputs[s], categories, classify) == Err(CompareOver(names, inputs, categories, classify).error)
    ensures forall t :: 0 <= t < s ==> ClassifyEach(inputs[t], categories, classify).Ok?
    decreases |names|
  {
    var last := |names| - 1;
    var prefix := CompareOver(names[..last], inputs[..last], categories, classify);
    forall t | 0 <= t < last
      ensures inputs[..last][t] == inputs[t]
    {
    }
    if prefix.Err? {
      s := CompareOverErr(names[..last], inputs[..last], categories, classify);
    } else {
      CompareOverOk(names[..last], inputs[..last], categories, classify);
      s := last;
    }
  }

  /**
   * What the comparison as written reports does not depend on the strategy:
   * it fails exactly when classifying the texts fails, and otherwise every
   * strategy has the same classifications, those of the texts themselves.
   */
  lemma StrategiesAgree<R, E>(texts: seq<string>, categories: seq<string>, classify: (string, seq<string>) -> Result<R, E>)
    ensures var r := CompareOver(StrategyNames, SameTexts(texts), categories, classify);
      (r.Err? <==> ClassifyEach(texts, categories, classify).Err?) &&
      (r.Ok? ==> forall name :: name in r.value <==> name in StrategyNames) &&
      (r.Ok? ==> forall name :: name in r.value ==> Ok(r.value[name]) == ClassifyEach(texts, categories, classify))
  {
    var r := CompareOver(StrategyNames, SameTexts(texts), categories, classify);
    assert Distinct(StrategyNames);
    if r.Ok? {
      CompareOverOk(StrategyNames, SameTexts(texts), categories, classify);
      forall name | name in r.value
        ensures Ok(r.value[name]) == ClassifyEach(texts, categories, classify)
      {
        var s :| 0 <= s < |StrategyNames| && StrategyNames[s] == name;
      }
    } else {
      var s := CompareOverErr(StrategyNames, SameTexts(texts), categories, classify);
    }
  }

  /**
   * The intended comparison, when it succeeds, reports for each strategy the
   * classifications of the prompts that strategy builds.
   */
  lemma PromptsAreClassified<R, E>(texts: seq<string>, categories: seq<string>,
                                   promptFor: (string, string) -> string, classify: (string, seq<string>) -> Result<R, E>)
    requires CompareOver(StrategyNames, StrategyPrompts(texts, promptFor), categories, classify).Ok?
    ensures var table := CompareOver(StrategyNames, StrategyPrompts(texts, promptFor), categories, classify).value;
      (forall name :: name in table <==> name in StrategyNames) &&
      forall s, j :: 0 <= s < |StrategyNames| && 0 <= j < |texts| ==>
        |table[StrategyNames[s]]| == |texts| &&
        classify(promptFor(StrategyNames[s], texts[j]), categories) == Ok(table[StrategyNames[s]][j])
  {
    assert Distinct(StrategyNames);
    CompareOverOk(StrategyNames, StrategyPrompts(texts, promptFor), categories, classify);
  }

  /** The intended comparison fails only with the error of classifying one of the prompts. */
  lemma PromptErrorReported<R, E>(texts: seq<string>, categories: seq<string>,
                                  promptFor: (string, string) -> string, classify: (string, seq<string>) -> Result<R, E>)
    requires CompareOver(StrategyNames, StrategyPrompts(texts, promptFor), categories, classify).Err?
    ensures var r := CompareOver(StrategyNames, StrategyPrompts(texts, promptFor), categories, classify);
      exists s, j :: 0 <= s < |StrategyNames| && 0 <= j < |texts| &&
        classify(promptFor(StrategyNames[s], texts[j]), categories) == Err(r.error)
  {
    var inputs := StrategyPrompts(texts, promptFor);
    assert Distinct(StrategyNames);
    var s := CompareOverErr(StrategyNames, inputs, categories, classify);
    var e := ClassifyEach(inputs[s], categories, classify);
    var j :| 0 <= j < |inputs[s]| && classify(inputs[s][j], categories) == Err(e.error);
    assert classify(promptFor(StrategyNames[s], texts[j]), categories) == Err(e.error);
  }
}
