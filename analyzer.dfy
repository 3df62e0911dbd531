/**
 * The policy analyzer plugin (cmd/pulumi-analyzer-policy-opa/analyzer.go).
 *
 * An analyzer holds a loaded pack and the evaluator built with the pack's
 * compiler; neither changes after construction. `Analyze` evaluates the pack
 * against one resource and translates every result into a diagnostic;
 * `GetAnalyzerInfo` describes the pack's policies; the other entry points
 * are constant.
 */
module PolicyAnalyzer {
  import opened Wrappers
  import opened PolicyTypes
  import opened Evaluation

  /** The version reported in every diagnostic. */
  const VersionString: string := "0.0.1"

  /** The two `apitype.EnforcementLevel` values the analyzer produces. */
  datatype ApiLevel = Advisory | Mandatory

  /** Advisory stays Advisory; every other level is reported as Mandatory. */
  function ApiLevelOf(level: EnforcementLevel): (r: ApiLevel)
    ensures r == Advisory <==> level == AdvisoryRule
    ensures r == Mandatory <==> level != AdvisoryRule
  {
    if level == AdvisoryRule then Advisory else Mandatory
  }

  /** The pack-level meaning of an API level, inverse to `ApiLevelOf`. */
  function LevelOfApi(a: ApiLevel): (r: EnforcementLevel)
    ensures r in {AdvisoryRule, MandatoryRule}
    ensures ApiLevelOf(r) == a
  {
    match a
    case Advisory => AdvisoryRule
    case Mandatory => MandatoryRule
  }

  /** `plugin.AnalyzeDiagnostic`, restricted to the fields the analyzer sets. */
  datatype Diagnostic = Diagnostic(
    policyName: string,
    policyPackName: string,
    policyPackVersion: string,
    message: string,
    urn: string,
    level: ApiLevel)

  /** A resource to analyze: its URN and its properties, already in the form
      handed to the query engine as input. */
  datatype AnalyzerResource = AnalyzerResource(urn: string, properties: Value)

  datatype AnalyzeResponse = AnalyzeResponse(diagnostics: seq<Diagnostic>)

  /** A suggested change to a resource's properties. */
  datatype Remediation = Remediation(policyName: string, urn: string, properties: Value)

  datatype RemediateResponse = RemediateResponse(remediations: seq<Remediation>)

  /** `plugin.AnalyzerPolicyInfo` */
  datatype AnalyzerPolicyInfo = AnalyzerPolicyInfo(
    name: string,
    displayName: string,
    description: string,
    message: string,
    level: ApiLevel)

  /** `plugin.AnalyzerInfo` */
  datatype AnalyzerInfo = AnalyzerInfo(name: string, displayName: string, policies: seq<AnalyzerPolicyInfo>)

  /** Per-policy configuration; the analyzer accepts and ignores it. */
  datatype PolicyConfig = PolicyConfig(level: ApiLevel, properties: Value)

  /** The evaluator with its compiler fixed: the query engine for one input. */
  type Engine = Value -> Oracle

  // ----- Specifications -----

  /** The diagnostic for one evaluation result on the resource `urn`. */
  function DiagnosticOf(res: EvalResult, urn: string): Diagnostic {
    Diagnostic(res.rule, res.pack, VersionString, res.msg, urn, ApiLevelOf(res.level))
  }

  /** The diagnostics for the results, one each, in order. */
  function DiagnosticsOf(results: seq<EvalResult>, urn: string): (r: seq<Diagnostic>)
    ensures |r| == |results|
    ensures forall k :: 0 <= k < |r| ==>
      && r[k].policyName == results[k].rule
      && r[k].policyPackName == results[k].pack
      && r[k].policyPackVersion == VersionString
      && r[k].message == results[k].msg
      && r[k].urn == urn
      && (r[k].level == Advisory <==> results[k].level == AdvisoryRule)
    decreases |results|
  {
    if results == [] then []
    else DiagnosticsOf(results[..|results| - 1], urn) + [DiagnosticOf(results[|results| - 1], urn)]
  }

  /** What `Analyze` answers for the pack, the engine and the resource. */
  function AnalyzeSpec(pack: PolicyPack, engine: Engine, res: AnalyzerResource): Result<AnalyzeResponse, EvalError>
    requires NoPanic(pack, engine(res.properties))
  {
    match EvalSpec(pack, engine(res.properties))
    case Err(e) => Err(e)
    case Ok(results) => Ok(AnalyzeResponse(DiagnosticsOf(results, res.urn)))
  }

  function PolicyInfoOf(p: PolicyRule): AnalyzerPolicyInfo {
    AnalyzerPolicyInfo(p.name, p.displayName, p.description, p.message, ApiLevelOf(p.level))
  }

  /** The policy entries of the info, one per pack policy, in order. */
  function PolicyInfos(policies: seq<PolicyRule>): (r: seq<AnalyzerPolicyInfo>)
    ensures |r| == |policies|
    ensures forall k :: 0 <= k < |r| ==>
      && r[k].name == policies[k].name
      && r[k].displayName == policies[k].displayName
      && r[k].description == policies[k].description
      && r[k].message == policies[k].message
      && (r[k].level == Advisory <==> policies[k].level == AdvisoryRule)
    decreases |policies|
  {
    if policies == [] then []
    else PolicyInfos(policies[..|policies| - 1]) + [PolicyInfoOf(policies[|policies| - 1])]
  }

  function InfoOf(pack: PolicyPack): AnalyzerInfo {
    AnalyzerInfo(pack.name, pack.displayName, PolicyInfos(pack.policies))
  }

  // ----- The inverse of the info translation -----

  function RuleOfInfo(info: AnalyzerPolicyInfo): PolicyRule {
    PolicyRule(info.name, info.displayName, info.description, info.message, LevelOfApi(info.level))
  }

  function RulesOfInfos(infos: seq<AnalyzerPolicyInfo>): (r: seq<PolicyRule>)
    ensures |r| == |infos|
    ensures forall k :: 0 <= k < |r| ==> r[k] == RuleOfInfo(infos[k])
  {
    seq(|infos|, k requires 0 <= k < |infos| => RuleOfInfo(infos[k]))
  }

  function PackOfInfo(info: AnalyzerInfo): PolicyPack {
    PolicyPack(info.name, info.displayName, RulesOfInfos(info.policies))
  }

  /** The levels a loaded pack can hold. */
  predicate KnownLevels(pack: PolicyPack) {
    forall k :: 0 <= k < |pack.policies| ==> pack.policies[k].level in {AdvisoryRule, MandatoryRule}
  }

  /** The info describes the pack completely: from it the pack is recovered
      exactly, as long as every level is one of the two defined ones. */
  lemma InfoRoundTrip(pack: PolicyPack)
    ensures KnownLevels(pack) <==> PackOfInfo(InfoOf(pack)) == pack
  {
    var back := PackOfInfo(InfoOf(pack)).policies;
    if KnownLevels(pack) {
      forall k | 0 <= k < |pack.policies|
        ensures back[k] == pack.policies[k]
      {
        assert LevelOfApi(ApiLevelOf(pack.policies[k].level)) == pack.policies[k].level;
      }
    }
    if PackOfInfo(InfoOf(pack)) == pack {
      forall k | 0 <= k < |pack.policies|
        ensures pack.policies[k].level in {AdvisoryRule, MandatoryRule}
      {
        assert back[k] == pack.policies[k];
      }
    }
  }

  // ----- The analyzer -----

  /** `analyzer`: a loaded pack and the evaluator for it, fixed at construction. */
  class Analyzer {
    const pack: PolicyPack
    const engine: Engine

    /** `NewAnalyzer` */
    constructor(pack: PolicyPack, engine: Engine)
      ensures this.pack == pack && this.engine == engine
    {
      this.pack := pack;
      this.engine := engine;
    }

    /** The plugin's name is the pack's. */
    function Name(): (r: string)
      ensures r == pack.name
    {
      pack.name
    }

    /** Evaluates the pack against the resource and reports one diagnostic
        per result; an evaluation error is passed through. */
    method Analyze(res: AnalyzerResource) returns (r: Result<AnalyzeResponse, EvalError>)
      requires NoPanic(pack, engine(res.properties))
      ensures r == AnalyzeSpec(pack, engine, res)
    {
      var obj := res.properties;
      var results, queried := EvalPolicyPack(pack, engine(obj));
      if results.Err? {
        return Err(results.error);
      }
      var diagnostics: seq<Diagnostic> := [];
      for k := 0 to |results.value|
        invariant diagnostics == DiagnosticsOf(results.value[..k], res.urn)
      {
        assert results.value[..k + 1][..k] == results.value[..k];
        var result := results.value[k];
        var level;
        if result.level == AdvisoryRule {
          level := Advisory;
        } else {
          level := Mandatory;
        }
        diagnostics := diagnostics + [Diagnostic(result.rule, result.pack, VersionString, result.msg, res.urn, level)];
      }
      assert results.value[..|results.value|] == results.value;
      r := Ok(AnalyzeResponse(diagnostics));
    }

    /** Whole-stack analysis reports nothing, whatever the resources. */
    method AnalyzeStack(resources: seq<AnalyzerResource>) returns (r: Result<AnalyzeResponse, EvalError>)
      ensures r.Ok? && r.value.diagnostics == []
    {
      r := Ok(AnalyzeResponse([]));
    }

    /** Remediation is not supported: never any remediation. */
    method Remediate(res: AnalyzerResource) returns (r: Result<RemediateResponse, EvalError>)
      ensures r.Ok? && r.value.remediations == []
    {
      r := Ok(RemediateResponse([]));
    }

    /** Describes the pack and each of its policies, in order. */
    method GetAnalyzerInfo() returns (r: Result<AnalyzerInfo, EvalError>)
      ensures r == Ok(InfoOf(pack))
    {
      var policies: seq<AnalyzerPolicyInfo> := [];
      for k := 0 to |pack.policies|
        invariant policies == PolicyInfos(pack.policies[..k])
      {
        assert pack.policies[..k + 1][..k] == pack.policies[..k];
        var pol := pack.policies[k];
        var enforcementLevel;
        if pol.level == AdvisoryRule {
          enforcementLevel := Advisory;
        } else {
          enforcementLevel := Mandatory;
        }
        policies := policies + [AnalyzerPolicyInfo(pol.name, pol.displayName, pol.description, pol.message, enforcementLevel)];
      }
      assert pack.policies[..|pack.policies|] == pack.policies;
      r := Ok(AnalyzerInfo(pack.name, pack.displayName, policies));
    }

    /** Configuration is accepted and ignored. */
    method Configure(policyConfig: map<string, PolicyConfig>) returns (r: Outcome<string>)
      ensures r == Pass
    {
      r := Pass;
    }

    /** Nothing to cancel. */
    method Cancel() returns (r: Outcome<string>)
      ensures r == Pass
    {
      r := Pass;
    }

    /** Nothing to release. */
    method Close() returns (r: Outcome<string>)
      ensures r == Pass
    {
      r := Pass;
    }
  }
}
