/**
 * Properties of the analyzer as a whole: a pack loaded from compiled
 * modules, evaluated by the query engine and translated into diagnostics
 * and info.
 */
module AnalyzerProperties {
  import opened PolicyTypes
  import opened RuleNames
  import opened PackLoader
  import opened PackProperties
  import opened Evaluation
  import opened PolicyAnalyzer

  /** `Analyze` fails exactly when one of the pack's queries fails. */
  lemma AnalyzeFailsIff(pack: PolicyPack, engine: Engine, res: AnalyzerResource)
    requires NoPanic(pack, engine(res.properties))
    ensures AnalyzeSpec(pack, engine, res).Err? <==>
      exists i :: 0 <= i < |pack.policies| && AnswerAt(pack, engine(res.properties), i).Err?
  {
    AllOkIff(pack, engine(res.properties), |pack.policies|);
  }

  /** A failed analysis reports the first failing policy and its query's error. */
  lemma AnalyzeError(pack: PolicyPack, engine: Engine, res: AnalyzerResource)
    requires NoPanic(pack, engine(res.properties))
    requires AnalyzeSpec(pack, engine, res).Err?
    ensures exists i ::
      && 0 <= i < |pack.policies|
      && (forall j :: 0 <= j < i ==> AnswerAt(pack, engine(res.properties), j).Ok?)
      && AnswerAt(pack, engine(res.properties), i).Err?
      && AnalyzeSpec(pack, engine, res).error
         == EvalError(pack.name, pack.policies[i].name, AnswerAt(pack, engine(res.properties), i).error)
  {
    var oracle := engine(res.properties);
    EvalErrorIsFirstFailure(pack, oracle, |pack.policies|);
    var i :| 0 <= i < |pack.policies| && AllOk(pack, oracle, i) && AnswerAt(pack, oracle, i).Err?
      && EvalSpec(pack, oracle).error == EvalError(pack.name, pack.policies[i].name, AnswerAt(pack, oracle, i).error);
    AllOkIff(pack, oracle, i);
  }

  /** One diagnostic per element of every array in every answer. */
  lemma AnalyzeCount(pack: PolicyPack, engine: Engine, res: AnalyzerResource)
    requires NoPanic(pack, engine(res.properties))
    requires AnalyzeSpec(pack, engine, res).Ok?
    ensures |AnalyzeSpec(pack, engine, res).value.diagnostics|
      == TotalCount(pack, engine(res.properties), |pack.policies|)
  {
    EvalCount(pack, engine(res.properties), |pack.policies|);
  }

  /** Every diagnostic names the pack, its version and the resource, and
      comes from one of the pack's policies, whose level it reports. */
  lemma AnalyzeDiagnosticOrigin(pack: PolicyPack, engine: Engine, res: AnalyzerResource)
    requires NoPanic(pack, engine(res.properties))
    requires AnalyzeSpec(pack, engine, res).Ok?
    ensures forall k :: 0 <= k < |AnalyzeSpec(pack, engine, res).value.diagnostics| ==>
      var d := AnalyzeSpec(pack, engine, res).value.diagnostics[k];
      && d.policyPackName == pack.name
      && d.policyPackVersion == VersionString
      && d.urn == res.urn
      && exists i ::
        && 0 <= i < |pack.policies|
        && d.policyName == pack.policies[i].name
        && (d.level == Advisory <==> pack.policies[i].level == AdvisoryRule)
  {
    var oracle := engine(res.properties);
    EvalResultOrigin(pack, oracle, |pack.policies|);
    var results := EvalSpec(pack, oracle).value;
    var ds := AnalyzeSpec(pack, engine, res).value.diagnostics;
    forall k | 0 <= k < |ds|
      ensures exists i ::
        && 0 <= i < |pack.policies|
        && ds[k].policyName == pack.policies[i].name
        && (ds[k].level == Advisory <==> pack.policies[i].level == AdvisoryRule)
    {
      var i :| 0 <= i < |pack.policies| && results[k].rule == pack.policies[i].name && results[k].level == pack.policies[i].level;
    }
  }

  /** For a pack loaded from compiled modules, a diagnostic is Advisory
      exactly when its policy's name follows the `warn` convention, and
      Mandatory exactly when it follows the `deny`/`violation` one. */
  lemma LoadedDiagnosticLevels(ms: seq<CompiledModule>, engine: Engine, res: AnalyzerResource)
    requires PackOf(ms).Ok?
    requires NoPanic(PackOf(ms).value, engine(res.properties))
    requires AnalyzeSpec(PackOf(ms).value, engine, res).Ok?
    ensures forall k :: 0 <= k < |AnalyzeSpec(PackOf(ms).value, engine, res).value.diagnostics| ==>
      var d := AnalyzeSpec(PackOf(ms).value, engine, res).value.diagnostics[k];
      && (d.level == Advisory <==> IsAdvisoryName(d.policyName))
      && (d.level == Mandatory <==> IsMandatoryName(d.policyName))
  {
    var pack := PackOf(ms).value;
    AnalyzeDiagnosticOrigin(pack, engine, res);
    var ds := AnalyzeSpec(pack, engine, res).value.diagnostics;
    forall k | 0 <= k < |ds|
      ensures ds[k].level == Advisory <==> IsAdvisoryName(ds[k].policyName)
      ensures ds[k].level == Mandatory <==> IsMandatoryName(ds[k].policyName)
    {
      var i :| 0 <= i < |pack.policies| && ds[k].policyName == pack.policies[i].name
           && (ds[k].level == Advisory <==> pack.policies[i].level == AdvisoryRule);
      LoadedPolicyFields(ms, i);
    }
  }

  /** The info of a loaded pack describes it completely. */
  lemma LoadedInfoRoundTrip(ms: seq<CompiledModule>)
    requires PackOf(ms).Ok?
    ensures PackOfInfo(InfoOf(PackOf(ms).value)) == PackOf(ms).value
  {
    LoadedLevels(ms);
    InfoRoundTrip(PackOf(ms).value);
  }
}
