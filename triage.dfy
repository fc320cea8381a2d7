/**
 * The symptom triage evaluator: a fixed, declarative table of rules, each
 * keyed by a combination of required symptom labels, and a single reduction
 * that picks the matching rule of the highest severity tier (the first
 * declared one among rules of that tier). When nothing matches, a default
 * low-severity result is returned. The evaluator is total and pure.
 */
module Triage {

  datatype Option<T> = None | Some(value: T)

  /** Severity tiers, totally ordered by urgency: Low < Medium < High. */
  datatype Severity = Low | Medium | High

  function Rank(s: Severity): nat
  {
    match s
    case Low => 0
    case Medium => 1
    case High => 2
  }

  /** The input record: symptom labels, in any order, possibly repeated or unknown. */
  datatype SymptomInput = SymptomInput(symptoms: seq<string>)

  datatype TriageResult = TriageResult(severity: Severity, message: string, recommendedAction: string)

  /** A rule fires when every one of its required labels is among the reported symptoms. */
  datatype Rule = Rule(required: seq<string>, outcome: TriageResult)

  /** `part` occurs as a contiguous piece of `text` (JavaScript's `includes` on strings). */
  predicate Contains(text: string, part: string)
  {
    exists k | 0 <= k <= |text| - |part| :: OccursAt(text, part, k)
  }

  predicate OccursAt(text: string, part: string, k: int)
    requires 0 <= k <= |text| - |part|
  {
    text[k..k + |part|] == part
  }

  /** Exact, case-sensitive membership test; order and duplicates play no part. */
  predicate Matches(rule: Rule, symptoms: seq<string>)
  {
    forall k | 0 <= k < |rule.required| :: rule.required[k] in symptoms
  }

  const DefaultResult: TriageResult :=
    TriageResult(Low, "No serious symptoms detected.",
                 "Monitor" + " your symptoms and consult a doctor if they worsen.")

  // The rules. Each text is written as the pieces around the phrase that
  // readers of the result look for, so that proofs can find the phrase again.

  const CardiacRule: Rule :=
    Rule(["chest pain", "shortness of breath"],
         TriageResult(High, "Chest pain with shortness of breath may indicate a heart problem.",
                      "Call " + "emergency" + " services immediately."))

  const ChestPainRule: Rule :=
    Rule(["chest pain"],
         TriageResult(High, "Chest pain can be a sign of a " + "serious medical condition" + ".",
                      "Seek " + "emergency" + " medical care right away."))

  const BreathingRule: Rule :=
    Rule(["shortness of breath"],
         TriageResult(High, "Breathing difficulty" + " needs urgent attention.",
                      "Seek " + "emergency" + " medical care right away."))

  const FeverFatigueRule: Rule :=
    Rule(["persistent fever", "fatigue"],
         TriageResult(Medium, "A persistent fever with fatigue may point to an infection.",
                      "Consult a " + "healthcare professional" + " within 24 hours."))

  const FatigueRule: Rule :=
    Rule(["fatigue"],
         TriageResult(Medium, "Ongoing fatigue can have many causes.",
                      "Consult a " + "healthcare professional" + " if it persists."))

  const FluRule: Rule :=
    Rule(["fever", "cough", "sore throat"],
         TriageResult(Low, "These look like " + "flu-like" + " symptoms.",
                      "Monitor" + " your symptoms, rest and drink plenty of fluids."))

  /** The rule table. Its order is the priority among rules of one tier. */
  const RuleTable: seq<Rule> :=
    [CardiacRule, ChestPainRule, BreathingRule, FeverFatigueRule, FatigueRule, FluRule]

  /**
   * The max-severity reduction over `rules`, scanned in declaration order:
   * a later matching rule replaces the current choice only when its tier is
   * strictly higher. The result is the index of a matching rule whose tier is
   * the maximum over all matching rules, and no earlier matching rule has that
   * tier; None exactly when no rule matches.
   */
  function Select(rules: seq<Rule>, symptoms: seq<string>): (r: Option<nat>)
    ensures r.None? <==> forall j | 0 <= j < |rules| :: !Matches(rules[j], symptoms)
    ensures r.Some? ==>
      && r.value < |rules|
      && Matches(rules[r.value], symptoms)
      && (forall j | 0 <= j < |rules| && Matches(rules[j], symptoms) ::
            Rank(rules[j].outcome.severity) <= Rank(rules[r.value].outcome.severity))
      && (forall j | 0 <= j < r.value && Matches(rules[j], symptoms) ::
            Rank(rules[j].outcome.severity) < Rank(rules[r.value].outcome.severity))
    decreases |rules|
  {
    if rules == [] then None
    else
      var last := |rules| - 1;
      var prev := Select(rules[..last], symptoms);
      if Matches(rules[last], symptoms)
         && (prev.None? || Rank(rules[prev.value].outcome.severity) < Rank(rules[last].outcome.severity))
      then Some(last)
      else prev
  }

  /**
   * evaluateSymptoms: the outcome of the selected rule, or the default result.
   * The severity of the result is the highest tier among the matching rules.
   */
  function EvaluateSymptoms(input: SymptomInput): (r: TriageResult)
    ensures (forall j | 0 <= j < |RuleTable| :: !Matches(RuleTable[j], input.symptoms)) ==> r == DefaultResult
    ensures (exists j | 0 <= j < |RuleTable| :: Matches(RuleTable[j], input.symptoms)) ==>
      exists i | 0 <= i < |RuleTable| ::
        && Matches(RuleTable[i], input.symptoms)
        && r == RuleTable[i].outcome
        && (forall j | 0 <= j < |RuleTable| && Matches(RuleTable[j], input.symptoms) ::
              Rank(RuleTable[j].outcome.severity) <= Rank(r.severity))
        && (forall j | 0 <= j < i && Matches(RuleTable[j], input.symptoms) ::
              Rank(RuleTable[j].outcome.severity) < Rank(r.severity))
  {
    match Select(RuleTable, input.symptoms)
    case None => DefaultResult
    case Some(i) => RuleTable[i].outcome
  }

  /** The wording every recommended action of a tier carries. */
  function TierPhrase(s: Severity): string
  {
    match s
    case High => "emergency"
    case Medium => "healthcare professional"
    case Low => "Monitor"
  }

  predicate ActionFitsTier(r: TriageResult)
  {
    Contains(r.recommendedAction, TierPhrase(r.severity))
  }

  /** A piece placed between two others occurs in the whole. */
  lemma {:induction false} ContainsInfix(before: string, part: string, after: string)
    ensures Contains(before + part + after, part)
  {
    assert OccursAt(before + part + after, part, |before|);
  }

  /** A leading piece occurs in the whole. */
  lemma ContainsPrefix(part: string, after: string)
    ensures Contains(part + after, part)
  {
    assert OccursAt(part + after, part, 0);
  }

  lemma DefaultFitsTier()
    ensures ActionFitsTier(DefaultResult)
  {
    ContainsPrefix("Monitor", " your symptoms and consult a doctor if they worsen.");
  }

  lemma HighRulesFitTier()
    ensures ActionFitsTier(CardiacRule.outcome)
    ensures ActionFitsTier(ChestPainRule.outcome) && ActionFitsTier(BreathingRule.outcome)
  {
    ContainsInfix("Call ", "emergency", " services immediately.");
    ContainsInfix("Seek ", "emergency", " medical care right away.");
  }

  lemma MediumRulesFitTier()
    ensures ActionFitsTier(FeverFatigueRule.outcome) && ActionFitsTier(FatigueRule.outcome)
  {
    ContainsInfix("Consult a ", "healthcare professional", " within 24 hours.");
    ContainsInfix("Consult a ", "healthcare professional", " if it persists.");
  }

  lemma LowRulesFitTier()
    ensures ActionFitsTier(FluRule.outcome)
  {
    ContainsPrefix("Monitor", " your symptoms, rest and drink plenty of fluids.");
  }

  /** Every outcome the evaluator can return points to care fitting its tier. */
  lemma OutcomesFitTier()
    ensures ActionFitsTier(DefaultResult)
    ensures forall i | 0 <= i < |RuleTable| :: ActionFitsTier(RuleTable[i].outcome)
  {
    DefaultFitsTier();
    HighRulesFitTier();
    MediumRulesFitTier();
    LowRulesFitTier();
  }

  /** Whatever the symptoms, the recommended action fits the tier of the result. */
  lemma EvaluateFitsTier(input: SymptomInput)
    ensures ActionFitsTier(EvaluateSymptoms(input))
  {
    OutcomesFitTier();
  }

  /** The two inputs report the same labels, whatever their order or repetitions. */
  ghost predicate SameLabels(a: seq<string>, b: seq<string>)
  {
    forall x :: x in a <==> x in b
  }

  /** The reduction only looks at which rules fire. */
  lemma {:induction false} SelectDependsOnlyOnMatches(rules: seq<Rule>, a: seq<string>, b: seq<string>)
    requires forall j | 0 <= j < |rules| :: Matches(rules[j], a) == Matches(rules[j], b)
    ensures Select(rules, a) == Select(rules, b)
    decreases |rules|
  {
    if rules != [] {
      SelectDependsOnlyOnMatches(rules[..|rules| - 1], a, b);
    }
  }

  /** Order and duplicates of the reported symptoms have no effect on the result. */
  lemma EvaluateIgnoresOrderAndDuplicates(a: SymptomInput, b: SymptomInput)
    requires SameLabels(a.symptoms, b.symptoms)
    ensures EvaluateSymptoms(a) == EvaluateSymptoms(b)
  {
    forall j | 0 <= j < |RuleTable|
      ensures Matches(RuleTable[j], a.symptoms) == Matches(RuleTable[j], b.symptoms)
    {
    }
    SelectDependsOnlyOnMatches(RuleTable, a.symptoms, b.symptoms);
  }

  /** Reporting more symptoms never lowers the severity tier. */
  lemma MoreSymptomsNeverLowerSeverity(a: SymptomInput, b: SymptomInput)
    requires forall x | x in a.symptoms :: x in b.symptoms
    ensures Rank(EvaluateSymptoms(a).severity) <= Rank(EvaluateSymptoms(b).severity)
  {
  }

  /** A rule whose k-th required label is missing does not fire. */
  lemma MissingLabel(rule: Rule, symptoms: seq<string>, k: nat)
    requires k < |rule.required| && rule.required[k] !in symptoms
    ensures !Matches(rule, symptoms)
  {
  }

  /** A label some rule of the table requires; every other label is unknown to the evaluator. */
  predicate Known(x: string)
  {
    exists i, k | 0 <= i < |RuleTable| && 0 <= k < |RuleTable[i].required| :: RuleTable[i].required[k] == x
  }

  /** Symptoms none of which any rule knows give exactly the default result. */
  lemma NoKnownLabelGivesDefault(input: SymptomInput)
    requires forall x | x in input.symptoms :: !Known(x)
    ensures EvaluateSymptoms(input) == DefaultResult
  {
    forall j | 0 <= j < |RuleTable| ensures !Matches(RuleTable[j], input.symptoms) {
      assert Known(RuleTable[j].required[0]);
      MissingLabel(RuleTable[j], input.symptoms, 0);
    }
  }

  /** Adding labels no rule knows to any input leaves the result unchanged. */
  lemma UnknownLabelsChangeNothing(input: SymptomInput, extra: seq<string>)
    requires forall x | x in extra :: !Known(x)
    ensures EvaluateSymptoms(SymptomInput(input.symptoms + extra)) == EvaluateSymptoms(input)
  {
    var more := input.symptoms + extra;
    forall j | 0 <= j < |RuleTable|
      ensures Matches(RuleTable[j], more) == Matches(RuleTable[j], input.symptoms)
    {
      forall k | 0 <= k < |RuleTable[j].required|
        ensures RuleTable[j].required[k] in more <==> RuleTable[j].required[k] in input.symptoms
      {
        assert Known(RuleTable[j].required[k]);
      }
    }
    SelectDependsOnlyOnMatches(RuleTable, more, input.symptoms);
  }

  /**
   * The contract of EvaluateSymptoms singles out one rule: a firing rule of
   * the highest firing tier, with no earlier firing rule of that tier, is the
   * one whose outcome is returned.
   */
  lemma EvaluateSelects(input: SymptomInput, i: nat)
    requires i < |RuleTable| && Matches(RuleTable[i], input.symptoms)
    requires forall j | 0 <= j < |RuleTable| && Matches(RuleTable[j], input.symptoms) ::
      Rank(RuleTable[j].outcome.severity) <= Rank(RuleTable[i].outcome.severity)
    requires forall j | 0 <= j < i && Matches(RuleTable[j], input.symptoms) ::
      Rank(RuleTable[j].outcome.severity) < Rank(RuleTable[i].outcome.severity)
    ensures EvaluateSymptoms(input) == RuleTable[i].outcome
  {
  }

  // The behaviour fixed by the evaluator's test suite, one lemma per case.

  lemma ChestPainWithShortnessOfBreathIsEmergency()
    ensures var r := EvaluateSymptoms(SymptomInput(["chest pain", "shortness of breath"]));
      r.severity == High && Contains(r.recommendedAction, "emergency")
  {
    var input := SymptomInput(["chest pain", "shortness of breath"]);
    EvaluateSelects(input, 0);
    HighRulesFitTier();
  }

  lemma ChestPainAloneIsHigh()
    ensures var r := EvaluateSymptoms(SymptomInput(["chest pain"]));
      r.severity == High && Contains(r.message, "serious medical condition")
  {
    var input := SymptomInput(["chest pain"]);
    MissingLabel(CardiacRule, input.symptoms, 1);
    EvaluateSelects(input, 1);
    ContainsInfix("Chest pain can be a sign of a ", "serious medical condition", ".");
  }

  lemma ShortnessOfBreathAloneIsHigh()
    ensures var r := EvaluateSymptoms(SymptomInput(["shortness of breath"]));
      r.severity == High && Contains(r.message, "Breathing difficulty")
  {
    var input := SymptomInput(["shortness of breath"]);
    MissingLabel(CardiacRule, input.symptoms, 0);
    MissingLabel(ChestPainRule, input.symptoms, 0);
    EvaluateSelects(input, 2);
    ContainsPrefix("Breathing difficulty", " needs urgent attention.");
  }

  lemma FatigueIsMedium()
    ensures var r := EvaluateSymptoms(SymptomInput(["fatigue"]));
      r.severity == Medium && Contains(r.recommendedAction, "healthcare professional")
  {
    var input := SymptomInput(["fatigue"]);
    MissingLabel(CardiacRule, input.symptoms, 0);
    MissingLabel(ChestPainRule, input.symptoms, 0);
    MissingLabel(BreathingRule, input.symptoms, 0);
    MissingLabel(FeverFatigueRule, input.symptoms, 0);
    MissingLabel(FluRule, input.symptoms, 0);
    EvaluateSelects(input, 4);
    MediumRulesFitTier();
  }

  lemma PersistentFeverWithFatigueIsMedium()
    ensures EvaluateSymptoms(SymptomInput(["persistent fever", "fatigue"])).severity == Medium
  {
    var input := SymptomInput(["persistent fever", "fatigue"]);
    MissingLabel(CardiacRule, input.symptoms, 0);
    MissingLabel(ChestPainRule, input.symptoms, 0);
    MissingLabel(BreathingRule, input.symptoms, 0);
    MissingLabel(FluRule, input.symptoms, 0);
    EvaluateSelects(input, 3);
  }

  lemma MildFluSymptomsAreLow()
    ensures var r := EvaluateSymptoms(SymptomInput(["fever", "cough", "sore throat"]));
      r.severity == Low && Contains(r.message, "flu-like")
  {
    var input := SymptomInput(["fever", "cough", "sore throat"]);
    MissingLabel(CardiacRule, input.symptoms, 0);
    MissingLabel(ChestPainRule, input.symptoms, 0);
    MissingLabel(BreathingRule, input.symptoms, 0);
    MissingLabel(FeverFatigueRule, input.symptoms, 0);
    MissingLabel(FatigueRule, input.symptoms, 0);
    EvaluateSelects(input, 5);
    ContainsInfix("These look like ", "flu-like", " symptoms.");
  }

  lemma UnknownSymptomsGiveDefault()
    ensures var r := EvaluateSymptoms(SymptomInput(["headache", "runny nose"]));
      r.severity == Low && r.message == "No serious symptoms detected."
  {
    var input := SymptomInput(["headache", "runny nose"]);
    MissingLabel(CardiacRule, input.symptoms, 0);
    MissingLabel(ChestPainRule, input.symptoms, 0);
    MissingLabel(BreathingRule, input.symptoms, 0);
    MissingLabel(FeverFatigueRule, input.symptoms, 0);
    MissingLabel(FatigueRule, input.symptoms, 0);
    MissingLabel(FluRule, input.symptoms, 0);
  }

  lemma NoSymptomsGiveDefault()
    ensures var r := EvaluateSymptoms(SymptomInput([]));
      r.severity == Low && Contains(r.recommendedAction, "Monitor")
  {
    var input := SymptomInput([]);
    forall j | 0 <= j < |RuleTable| ensures !Matches(RuleTable[j], input.symptoms) {
      MissingLabel(RuleTable[j], input.symptoms, 0);
    }
    DefaultFitsTier();
  }

  lemma HighRuleDominatesLowRules()
    ensures EvaluateSymptoms(SymptomInput(["chest pain", "fever", "cough", "sore throat"])).severity == High
  {
    var input := SymptomInput(["chest pain", "fever", "cough", "sore throat"]);
    assert Matches(ChestPainRule, input.symptoms);
    assert Matches(RuleTable[1], input.symptoms);
  }
}
