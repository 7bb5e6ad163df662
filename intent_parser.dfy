/** What the intent parser does with an AI reply once it has been parsed
    as JSON: chain names become chain ids, the reply's steps become
    execution steps with indexed ids, and the plan gets a total time and a
    risk score. The reply itself is an input here. */
module IntentParser {
  import opened Wrappers
  import opened DecimalText

  // ----- Chain names -----

  function LowerChar(c: char): char {
    if 'A' <= c <= 'Z' then (c as int + 32) as char else c
  }

  /** `toLowerCase()` on ASCII letters; other characters are kept. */
  function ToLower(s: string): (r: string)
    ensures |r| == |s|
    ensures forall i :: 0 <= i < |s| ==> r[i] == LowerChar(s[i])
  {
    seq(|s|, i requires 0 <= i < |s| => LowerChar(s[i]))
  }

  /** The alias table of `parseChainId`. */
  const ChainAliases: map<string, nat> := map[
    "ethereum" := 1, "eth" := 1,
    "sei" := 1329, "sei-testnet" := 1328,
    "bsc" := 56, "binance" := 56,
    "polygon" := 137, "matic" := 137]

  /** `parseChainId(chainName)`: `None` for a missing or empty name,
      otherwise the alias table's entry for the lower-cased name, if any. */
  function ParseChainId(chainName: Option<string>): (id: Option<nat>)
    ensures chainName.None? || chainName.value == "" ==> id.None?
    ensures id.Some? <==> chainName.Some? && ToLower(chainName.value) in ChainAliases
    ensures id.Some? ==> id.value == ChainAliases[ToLower(chainName.value)]
    ensures id.Some? ==> id.value in {1, 56, 137, 1328, 1329}
  {
    if chainName.None? || chainName.value == "" then None
    else
      var key := ToLower(chainName.value);
      if key in ChainAliases then Some(ChainAliases[key]) else None
  }

  /** Names that differ only in letter case give the same id. */
  lemma ParseChainIdCaseInsensitive(name: string)
    ensures ParseChainId(Some(name)) == ParseChainId(Some(ToLower(name)))
  {
    assert ToLower(ToLower(name)) == ToLower(name);
  }

  /** Each id is reached exactly through its aliases, in any letter case;
      "poly", although the prompt advertises it, is not an alias. */
  lemma ParseChainIdAliases(name: string)
    ensures ParseChainId(Some(name)) == Some(1) <==> ToLower(name) in {"ethereum", "eth"}
    ensures ParseChainId(Some(name)) == Some(1329) <==> ToLower(name) == "sei"
    ensures ParseChainId(Some(name)) == Some(1328) <==> ToLower(name) == "sei-testnet"
    ensures ParseChainId(Some(name)) == Some(56) <==> ToLower(name) in {"bsc", "binance"}
    ensures ParseChainId(Some(name)) == Some(137) <==> ToLower(name) in {"polygon", "matic"}
    ensures ParseChainId(Some("ETH")) == Some(1) && ParseChainId(Some("Polygon")) == Some(137)
    ensures ParseChainId(Some("poly")) == None && ParseChainId(Some("sei-devnet")) == None
  {
    assert ToLower("ETH") == "eth";
    assert ToLower("Polygon") == "polygon";
    assert ToLower("poly") == "poly";
    assert ToLower("sei-devnet") == "sei-devnet";
  }

  // ----- Risk score -----

  /** The per-type risks of `calculateRiskScore`; any other type gets 20. */
  const TypeRisks: map<string, nat> := map["transfer" := 10, "bridge" := 30, "swap" := 25, "stake" := 15]
  const DefaultTypeRisk: nat := 20

  function TypeRisk(kind: Option<string>): (risk: nat)
    ensures risk in {10, 15, 20, 25, 30}
  {
    if kind.Some? && kind.value in TypeRisks then TypeRisks[kind.value] else DefaultTypeRisk
  }

  function Min(a: int, b: int): int {
    if a < b then a else b
  }

  /** The risk score as a formula: 20, plus the type's risk, plus 10 for
      every step beyond the first, capped at 100. */
  function RiskScore(kind: Option<string>, stepCount: nat): (score: int)
    ensures 20 <= score <= 100
  {
    Min(100, 20 + TypeRisk(kind) + 10 * (stepCount - 1))
  }

  /** `calculateRiskScore(type, stepCount)`, accumulating into `baseRisk`. */
  method CalculateRiskScore(kind: Option<string>, stepCount: nat) returns (score: int)
    ensures score == RiskScore(kind, stepCount)
    ensures 20 <= score <= 100
  {
    var baseRisk := 20;
    baseRisk := baseRisk + TypeRisk(kind);
    baseRisk := baseRisk + (stepCount - 1) * 10;
    score := if baseRisk < 100 then baseRisk else 100;
  }

  /** More steps never lower the score, eight or more steps always give
      100, and with the step count fixed the types rank transfer <= stake <=
      any unlisted or missing type <= swap <= bridge (the cap can make
      them equal). */
  lemma RiskScoreMonotone(kind: Option<string>, m: nat, n: nat)
    requires m <= n
    ensures RiskScore(kind, m) <= RiskScore(kind, n)
    ensures n >= 8 ==> RiskScore(kind, n) == 100
    ensures RiskScore(Some("transfer"), n) <= RiskScore(Some("stake"), n) <= RiskScore(None, n)
    ensures RiskScore(None, n) <= RiskScore(Some("swap"), n) <= RiskScore(Some("bridge"), n)
    ensures kind.None? || kind.value !in TypeRisks ==>
              RiskScore(Some("stake"), n) <= RiskScore(kind, n) <= RiskScore(Some("swap"), n)
  {
  }

  /** Single-step plans score 20 plus the type's risk. */
  lemma RiskScoreSingleStep(kind: Option<string>)
    ensures RiskScore(kind, 1) == 20 + TypeRisk(kind)
    ensures RiskScore(Some("bridge"), 1) == 50 && RiskScore(Some("transfer"), 1) == 30
  {
  }

  // ----- Steps, plan and intent -----

  /** One element of the reply's `steps` array. */
  datatype ParsedStep = ParsedStep(kind: string, description: string, estimatedCost: string, estimatedTime: int)

  /** The reply's fields the parser reads; `None` stands for a missing or
      null field. */
  datatype ParsedResponse = ParsedResponse(
    kind: Option<string>,
    fromChain: Option<string>,
    toChain: Option<string>,
    amount: Option<string>,
    targetAddress: Option<string>,
    confidence: Option<real>,
    reasoning: Option<string>,
    steps: Option<seq<ParsedStep>>)

  datatype StepStatus = Pending | Executing | Completed | Failed

  datatype ExecutionStep = ExecutionStep(
    id: string,
    kind: string,
    description: string,
    cost: string,
    timeEstimate: int,
    status: StepStatus)

  datatype ExecutionPlan = ExecutionPlan(steps: seq<ExecutionStep>, estimatedTime: int, riskScore: int)

  datatype IntentStatus = Parsing | Ready | Executing | Completed | Failed

  datatype Intent = Intent(
    userInput: string,
    kind: Option<string>,
    fromChain: Option<nat>,
    toChain: Option<nat>,
    amount: Option<string>,
    targetAddress: Option<string>,
    status: IntentStatus)

  datatype ParsedIntentResult = ParsedIntentResult(
    intent: Intent,
    confidence: Option<real>,
    executionPlan: ExecutionPlan,
    reasoning: Option<string>)

  /** The id of the step at `index`: "step-" and the index in decimal. */
  function StepId(index: nat): string {
    "step-" + ToDecimal(index)
  }

  /** `step` is the execution step made from `parsed` at position `index`. */
  predicate StepFrom(step: ExecutionStep, parsed: ParsedStep, index: nat) {
    && step.id == StepId(index)
    && step.kind == parsed.kind
    && step.description == parsed.description
    && step.cost == parsed.estimatedCost
    && step.timeEstimate == parsed.estimatedTime
    && step.status == StepStatus.Pending
  }

  /** The `map` over the reply's steps, numbering them from `first`. */
  function BuildSteps(parsed: seq<ParsedStep>, first: nat): (steps: seq<ExecutionStep>)
    ensures |steps| == |parsed|
    ensures forall i :: 0 <= i < |parsed| ==> StepFrom(steps[i], parsed[i], first + i)
    decreases |parsed|
  {
    if parsed == [] then []
    else
      var p := parsed[0];
      [ExecutionStep(StepId(first), p.kind, p.description, p.estimatedCost, p.estimatedTime, StepStatus.Pending)]
        + BuildSteps(parsed[1..], first + 1)
  }

  /** The `reduce` adding up the steps' time estimates from 0. */
  function TotalTime(steps: seq<ExecutionStep>): (total: int)
    ensures (forall i :: 0 <= i < |steps| ==> steps[i].timeEstimate >= 0) ==> total >= 0
  {
    if steps == [] then 0 else TotalTime(steps[..|steps| - 1]) + steps[|steps| - 1].timeEstimate
  }

  /** The sum of the reply's own time estimates. */
  function ParsedTime(parsed: seq<ParsedStep>): int {
    if parsed == [] then 0 else parsed[0].estimatedTime + ParsedTime(parsed[1..])
  }

  /** The parser's error when the reply has no `steps` array: its `map`
      call throws a TypeError. */
  const ParseFailure: string := "Failed to parse AI response: TypeError"

  /** `parseAIResponse` after `JSON.parse`, without the random ids. */
  function ParseAIResponse(parsed: ParsedResponse, originalInput: string)
    : (r: Result<ParsedIntentResult, string>)
    ensures r.Err? <==> parsed.steps.None?
    ensures r.Err? ==> r.error == ParseFailure
    ensures r.Ok? ==>
              var intent := r.value.intent;
              && intent.status == Ready
              && intent.userInput == originalInput
              && intent.kind == parsed.kind
              && intent.fromChain == ParseChainId(parsed.fromChain)
              && intent.toChain == ParseChainId(parsed.toChain)
              && intent.amount == parsed.amount
              && intent.targetAddress == parsed.targetAddress
              && r.value.confidence == parsed.confidence
              && r.value.reasoning == parsed.reasoning
    ensures r.Ok? ==>
              var plan, ps := r.value.executionPlan, parsed.steps.value;
              && |plan.steps| == |ps|
              && (forall i :: 0 <= i < |ps| ==> StepFrom(plan.steps[i], ps[i], i))
              && plan.estimatedTime == ParsedTime(ps)
              && plan.riskScore == RiskScore(parsed.kind, |ps|)
              && 20 <= plan.riskScore <= 100
  {
    if parsed.steps.None? then
      Err(ParseFailure)
    else
      var intent := Intent(
        originalInput, parsed.kind,
        ParseChainId(parsed.fromChain), ParseChainId(parsed.toChain),
        parsed.amount, parsed.targetAddress, Ready);
      var steps := BuildSteps(parsed.steps.value, 0);
      StepTimesAdd(parsed.steps.value, 0);
      var plan := ExecutionPlan(steps, TotalTime(steps), RiskScore(parsed.kind, |steps|));
      Ok(ParsedIntentResult(intent, parsed.confidence, plan, parsed.reasoning))
  }

  // ----- Properties of the plan -----

  lemma {:induction false} ParsedTimeAppend(a: seq<ParsedStep>, b: seq<ParsedStep>)
    ensures ParsedTime(a + b) == ParsedTime(a) + ParsedTime(b)
  {
    if a != [] {
      assert (a + b)[1..] == a[1..] + b;
      ParsedTimeAppend(a[1..], b);
    } else {
      assert a + b == b;
    }
  }

  /** Building the steps of a prefix gives the prefix of the built steps. */
  lemma BuildStepsPrefix(parsed: seq<ParsedStep>, first: nat, n: nat)
    requires n <= |parsed|
    ensures BuildSteps(parsed, first)[..n] == BuildSteps(parsed[..n], first)
  {
    var steps, front := BuildSteps(parsed, first), BuildSteps(parsed[..n], first);
    forall i | 0 <= i < n
      ensures steps[i] == front[i]
    {
      assert StepFrom(steps[i], parsed[i], first + i);
      assert StepFrom(front[i], parsed[..n][i], first + i);
    }
  }

  /** The plan's total time is the sum of the reply's time estimates. */
  lemma {:induction false} StepTimesAdd(parsed: seq<ParsedStep>, first: nat)
    ensures TotalTime(BuildSteps(parsed, first)) == ParsedTime(parsed)
  {
    if parsed != [] {
      var n := |parsed| - 1;
      var front, last := parsed[..n], parsed[n];
      LastStepTime(parsed, first);
      StepTimesAdd(front, first);
      ParsedTimeAppend(front, [last]);
      assert front + [last] == parsed;
      assert ParsedTime([last]) == last.estimatedTime by {
        assert [last][1..] == [];
      }
    }
  }

  /** The fold over the built steps adds the last reply step's estimate to
      the fold over the steps built from the ones before it. */
  lemma LastStepTime(parsed: seq<ParsedStep>, first: nat)
    requires parsed != []
    ensures TotalTime(BuildSteps(parsed, first))
         == TotalTime(BuildSteps(parsed[..|parsed| - 1], first)) + parsed[|parsed| - 1].estimatedTime
  {
    var n := |parsed| - 1;
    var steps := BuildSteps(parsed, first);
    assert StepFrom(steps[n], parsed[n], first + n);
    BuildStepsPrefix(parsed, first, n);
  }

  /** Distinct positions get distinct step ids. */
  lemma StepIdsDistinct(i: nat, j: nat)
    requires i != j
    ensures StepId(i) != StepId(j)
  {
    assert StepId(i)[5..] == ToDecimal(i);
    assert StepId(j)[5..] == ToDecimal(j);
    ToDecimalInjective(i, j);
  }

  /** The plan's steps have pairwise distinct ids, and its total time is
      not negative when no step's estimate is. */
  lemma PlanWellFormed(parsed: ParsedResponse, originalInput: string)
    requires parsed.steps.Some?
    ensures var plan := ParseAIResponse(parsed, originalInput).value.executionPlan;
            && (forall i, j :: 0 <= i < j < |plan.steps| ==> plan.steps[i].id != plan.steps[j].id)
            && ((forall k :: 0 <= k < |parsed.steps.value| ==> parsed.steps.value[k].estimatedTime >= 0)
                ==> plan.estimatedTime >= 0)
  {
    var plan := ParseAIResponse(parsed, originalInput).value.executionPlan;
    forall i, j | 0 <= i < j < |plan.steps|
      ensures plan.steps[i].id != plan.steps[j].id
    {
      StepIdsDistinct(i, j);
    }
    ParsedTimeNonNegative(parsed.steps.value);
  }

  lemma {:induction false} ParsedTimeNonNegative(parsed: seq<ParsedStep>)
    ensures (forall k :: 0 <= k < |parsed| ==> parsed[k].estimatedTime >= 0) ==> ParsedTime(parsed) >= 0
  {
    if parsed != [] {
      ParsedTimeNonNegative(parsed[1..]);
      assert forall k :: 0 <= k < |parsed| - 1 ==> parsed[1..][k] == parsed[k + 1];
    }
  }
}
