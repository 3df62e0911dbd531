# pulumi-policy-opa: a Dafny model of the OPA policy analyzer

The analyzer lets Pulumi check resources against Open Policy Agent (OPA)
rules written in Rego. It works in three steps:

- **Loading.** It collects the `.rego` files of a rules directory into modules
  and has OPA compile them. Every module must declare the same Rego package,
  and that package names the policy pack. Each rule whose name follows the
  naming convention becomes a policy:
  - `deny…` or `violation…` rules are Mandatory.
  - `warn…` rules are Advisory.
  - Any other rule is a library routine.
- **Evaluation.** It queries every policy at `data.<pack>.<rule>` against one
  resource's properties. Each string in a non-empty array answer becomes a
  result.
- **Reporting.** The plugin entry points translate results into diagnostics
  and describe the pack's policies.

What is modelled, by file:

- `wrappers.dfy` defines `Option`, `Result` and `Outcome`, the Go error returns.
- `policy_types.dfy` defines the pack, the rules and the enforcement levels (0 = Advisory, 1 = Mandatory).
- `rule_names.dfy` defines the two anchored patterns:
  - `^(deny|violation)(_[a-zA-Z]+)*$` and `^warn(_[a-zA-Z]+)*$`.
  - They are decided by a two-state matcher.
  - The matcher is proved equal to the language the expression denotes.
- `pack_loader.dfy` models `loadPolicyPack`:
  - the module-key derivation;
  - the directory walk as a loop over the entries it visits;
  - the module loop, with its package check and per-module de-duplication;
  - the fold functions that specify the loops.
- `pack_properties.dfy` holds the lemmas about loading:
  - module keys;
  - the module map;
  - de-duplication and order;
  - the pack name;
  - exactly when loading fails.
- `evaluation.dfy` models `evalPolicyPack`:
  - Its four nested loops are split into one method per loop.
  - The specification functions give per-result fields and counts.
  - Lemmas state the first failure, the total count, where each result comes from, and the prefix order.
- `analyzer.dfy` models the `analyzer` plugin as a class whose fields never change. It covers `Analyze`, `GetAnalyzerInfo` and the constant entry points. The info translation is proved to be a round trip.
- `analyzer_properties.dfy` connects the three parts. For a loaded pack:
  - A diagnostic is Advisory exactly when its policy's name follows the `warn` pattern.
  - A diagnostic is Mandatory exactly when the name follows the `deny`/`violation` pattern.
  - The analyzer info recovers the pack.

External services are parameters:

- The Rego compiler is a function from the module map to the compiled modules or an error message. A compiled module is its key, its package string and its rule head names.
- The query engine is a function from an input value to an oracle. The oracle maps a query address to a result set or an error.
- The compiled modules come in a caller-given order. The source iterates a Go map, whose order is unspecified, and no lemma depends on an order.

The two evaluator files are the same algorithm:

- The files are cmd/pulumi-analyzer-policy-opa/eval.go and eval.go.
- Their bodies differ only in spelling `interface{}` as `any`.
- One model, `Evaluation.EvalPolicyPack`, stands for both, so the two agree on every oracle.

The code is followed where it departs from the documented intent:

- Rule-name uniqueness holds only within one module, because the seen-set is created inside the module loop (cmd/pulumi-analyzer-policy-opa/policy.go:92).
- So the same rule name in two modules of the pack gives two policies (`PackProperties.DuplicatesAcrossModules`), and evaluation then queries that address twice.
- An empty stripped package name does not fix the pack name, so a later module may still set it (policy.go:85-86). `PackProperties.LoadedPackName` states the general form. `PackProperties.PackIdentity` states the usual one: the pack name is the first module's package, and all modules share it.

## Model

| member | source | states |
|---|---|---|
| RuleNames.Classify | cmd/pulumi-analyzer-policy-opa/policy.go:98-105 | a name is Mandatory iff the deny/violation pattern matches, Advisory iff the warn pattern matches, and skipped iff neither matches |
| RuleNames.PatternsDisjoint | cmd/pulumi-analyzer-policy-opa/policy.go:30-31 | no name matches both patterns, so the order of the two tests does not matter |
| RuleNames.MatchGroupsIff | cmd/pulumi-analyzer-policy-opa/policy.go:30-31 | the matcher accepts exactly the concatenations of groups `_` plus one or more ASCII letters |
| RuleNames.MandatoryIff | cmd/pulumi-analyzer-policy-opa/policy.go:30 | Mandatory exactly for `deny` or `violation` followed by a word of `(_[a-zA-Z]+)*` |
| RuleNames.AdvisoryIff | cmd/pulumi-analyzer-policy-opa/policy.go:31 | Advisory exactly for `warn` followed by a word of `(_[a-zA-Z]+)*` |
| RuleNames.LettersWitness | cmd/pulumi-analyzer-policy-opa/policy.go:30-31 | a word accepted inside a group splits into letters followed by whole groups |
| RuleNames.GroupsWitness | cmd/pulumi-analyzer-policy-opa/policy.go:30-31 | a word accepted between groups is a concatenation of groups |
| RuleNames.ConcatMatches | cmd/pulumi-analyzer-policy-opa/policy.go:30-31 | every concatenation of groups is accepted |
| RuleNames.BarePrefixExamples | cmd/pulumi-analyzer-policy-opa/policy.go:30-31 | bare `deny` and `violation` are Mandatory and bare `warn` is Advisory |
| RuleNames.DenySuffixExample | cmd/pulumi-analyzer-policy-opa/policy.go:30 | `deny_encryption` is Mandatory |
| RuleNames.ViolationSuffixExample | cmd/pulumi-analyzer-policy-opa/policy.go:30 | `violation_tags` is Mandatory |
| RuleNames.WarnSuffixExample | cmd/pulumi-analyzer-policy-opa/policy.go:31 | `warn_untagged` is Advisory |
| RuleNames.NearMissExamples | cmd/pulumi-analyzer-policy-opa/policy.go:30-31 | `deny_1`, `deny_`, `denyAll`, `deny_x2`, `deny__x` and `helper` are not policies |
| PackLoader.ExtShape | cmd/pulumi-analyzer-policy-opa/policy.go:49 | the extension is empty or a suffix of the path that starts with its last `.`, with no `.` or `/` after it |
| PackLoader.LastIndexOf | cmd/pulumi-analyzer-policy-opa/policy.go:61 | the last position holding the character, or -1 when there is none |
| PackProperties.RegoExtIff | cmd/pulumi-analyzer-policy-opa/policy.go:49 | a path has extension `.rego` exactly when it ends in `.rego` |
| PackProperties.ExtDotWord | cmd/pulumi-analyzer-policy-opa/policy.go:49 | after a last `.` followed only by characters other than `.` and `/`, the extension is that `.` and those characters |
| PackProperties.RegoSuffixExt | cmd/pulumi-analyzer-policy-opa/policy.go:49 | a path ending in `.rego` has extension `.rego` |
| PackProperties.ModuleKeyRoundTrip | cmd/pulumi-analyzer-policy-opa/policy.go:61-62 | the module key plus `.rego` gives back the relative path |
| PackProperties.ModuleKeyInjective | cmd/pulumi-analyzer-policy-opa/policy.go:61-62 | two `.rego` files have the same module key exactly when they have the same path |
| PackLoader.GatherModules | cmd/pulumi-analyzer-policy-opa/policy.go:41-67 | the walk loop builds the module map of the visited entries |
| PackProperties.ModuleSourcesKeys | cmd/pulumi-analyzer-policy-opa/policy.go:47-63 | the map's keys are exactly the module keys of the visited regular `.rego` files |
| PackProperties.ModuleSourcesValues | cmd/pulumi-analyzer-policy-opa/policy.go:62 | a key maps to the source of the last file visited under that path |
| PackLoader.KeptPolicies | cmd/pulumi-analyzer-policy-opa/policy.go:107-115 | every kept policy names one of the module's rules, has its classified level and the module key as display name, and has an empty description and message |
| PackLoader.AppendModuleRules | cmd/pulumi-analyzer-policy-opa/policy.go:91-116 | the rule loop appends exactly the module's de-duplicated classified policies to the list |
| PackLoader.ErrorPersists | cmd/pulumi-analyzer-policy-opa/policy.go:81-89 | once the module loop fails, the load fails with that same error |
| PackLoader.BuildPolicyPack | cmd/pulumi-analyzer-policy-opa/policy.go:75-124 | the module loop returns the fold's pack or its first error |
| PackLoader.LoadPolicyPack | cmd/pulumi-analyzer-policy-opa/policy.go:35-130 | a compile error is reported as such; otherwise the result is the pack built from the compiled modules |
| PackProperties.KeptDistinct | cmd/pulumi-analyzer-policy-opa/policy.go:107-108 | within one module the policy names are pairwise distinct |
| PackProperties.KeptNames | cmd/pulumi-analyzer-policy-opa/policy.go:99-115 | a module's policy names are exactly its classified rule names |
| PackProperties.DistinctNamesCard | cmd/pulumi-analyzer-policy-opa/policy.go:107-108 | distinct names: the name set has as many elements as the list |
| PackProperties.KeptCount | cmd/pulumi-analyzer-policy-opa/policy.go:92-116 | a module contributes one policy per distinct classified rule name |
| PackProperties.FirstIndex | cmd/pulumi-analyzer-policy-opa/policy.go:93 | the position of a name's first occurrence among the module's rules |
| PackProperties.KeptFirstOccurrenceOrder | cmd/pulumi-analyzer-policy-opa/policy.go:93-115 | policies follow the first occurrences of their names in declaration order |
| PackProperties.PackPolicies | cmd/pulumi-analyzer-policy-opa/policy.go:119-124 | the pack's policies are the modules' contributions in module order, and its display name is empty |
| PackProperties.LoadedLevels | cmd/pulumi-analyzer-policy-opa/policy.go:98-105 | every loaded policy is Advisory (0) or Mandatory (1) |
| PackProperties.LoadedPolicyFields | cmd/pulumi-analyzer-policy-opa/policy.go:109-114 | every loaded policy is classified at its level, has empty description and message, and comes from a module whose key is its display name and which declares its rule |
| PackProperties.ModuleOfPolicy | cmd/pulumi-analyzer-policy-opa/policy.go:107-114 | the same, for the concatenated contributions of the modules |
| PackProperties.LoadedPackName | cmd/pulumi-analyzer-policy-opa/policy.go:80-89 | after a successful loop every package is well formed and names the pack or is empty, and a non-empty pack name is some module's package |
| PackProperties.BadPrefix | cmd/pulumi-analyzer-policy-opa/policy.go:81-89 | a malformed package or a conflict among the first modules is one among all modules |
| PackProperties.LastStepFails | cmd/pulumi-analyzer-policy-opa/policy.go:81-89 | a failing last iteration meets a malformed package or a package conflict |
| PackProperties.StepOk | cmd/pulumi-analyzer-policy-opa/policy.go:81-89 | a successful iteration has a well-formed package that agrees with the current pack name |
| PackProperties.LastStepSucceeds | cmd/pulumi-analyzer-policy-opa/policy.go:81-89 | a successful last iteration adds no malformed package and no conflict |
| PackProperties.LoadFailsIff | cmd/pulumi-analyzer-policy-opa/policy.go:78-89 | loading fails exactly when some package lacks the `package ` prefix, or when a module's package differs from an earlier non-empty one |
| PackProperties.LoadErrorIsFirst | cmd/pulumi-analyzer-policy-opa/policy.go:78-89 | a failed load reports the first module the loop rejects: its unstripped package when the `package ` prefix is missing, otherwise its package name and the pack name set by the earlier modules |
| PackProperties.MismatchNamesBoth | cmd/pulumi-analyzer-policy-opa/policy.go:85-88 | a mismatch error names two different packages: the rejected module's and the non-empty one of an earlier module |
| PackProperties.PackIdentity | cmd/pulumi-analyzer-policy-opa/policy.go:85-89 | when the first module names a package, the pack has that name and every module declares it |
| PackProperties.RepeatedRuleOnce | cmd/pulumi-analyzer-policy-opa/policy.go:92-115 | a module declaring `deny` twice beside a non-policy rule yields exactly one `deny` policy |
| PackProperties.DuplicatesAcrossModules | cmd/pulumi-analyzer-policy-opa/policy.go:92-115 | a rule repeated in one module yields one policy, while the same rule in a second module yields a second policy |
| Evaluation.ElementResultsFacts | cmd/pulumi-analyzer-policy-opa/eval.go:53-60 | one result per array element, carrying the pack name, the rule's name and level, and the element as message |
| Evaluation.ValueResultsFacts | cmd/pulumi-analyzer-policy-opa/eval.go:52 | a value yields as many results as its array length, and only a non-empty array yields any |
| Evaluation.EntryResultsFacts | cmd/pulumi-analyzer-policy-opa/eval.go:51-62 | an entry yields the sum of its array lengths in results, all tagged with the pack, the rule and its level |
| Evaluation.SetResultsFacts | cmd/pulumi-analyzer-policy-opa/eval.go:50-63 | a result set yields the sum of its entries' counts, all tagged with the pack, the rule and its level |
| Evaluation.AllOkIff | cmd/pulumi-analyzer-policy-opa/eval.go:45-48 | the recursive "all earlier queries succeeded" is the same as every one of them succeeding |
| Evaluation.EvalUpTo | cmd/pulumi-analyzer-policy-opa/eval.go:37-64 | the evaluation of the first n policies succeeds exactly when their n queries succeed |
| Evaluation.EvalStepOk | cmd/pulumi-analyzer-policy-opa/eval.go:37-63 | a policy whose query succeeds appends its result set's results to those of the earlier policies |
| Evaluation.EvalStepErr | cmd/pulumi-analyzer-policy-opa/eval.go:44-47 | a policy whose query fails ends the evaluation with an error naming the pack, that policy and the query's error |
| Evaluation.Addresses | cmd/pulumi-analyzer-policy-opa/eval.go:36-39 | the query address of each of the first n policies is `data.<pack>.<rule>`, in policy order |
| Evaluation.AppendElements | cmd/pulumi-analyzer-policy-opa/eval.go:53-60 | the element loop appends the array's results |
| Evaluation.AppendEntry | cmd/pulumi-analyzer-policy-opa/eval.go:51-62 | the expression loop appends the entry's results |
| Evaluation.AppendResultSet | cmd/pulumi-analyzer-policy-opa/eval.go:50-63 | the result-set loop appends the set's results |
| Evaluation.EvalPolicyPack | cmd/pulumi-analyzer-policy-opa/eval.go:30-67 | the result is the specified evaluation; policies are queried in order at `data.<pack>.<rule>`, all of them on success, and on failure exactly up to the first failing query (the legacy eval.go, lines 16-49, has the same body) |
| Evaluation.EvalErrorPersists | cmd/pulumi-analyzer-policy-opa/eval.go:45-48 | a failure aborts the whole call with that error and no results |
| Evaluation.EvalErrorIsFirstFailure | cmd/pulumi-analyzer-policy-opa/eval.go:45-48 | the error names the first policy whose query failed and carries that query's error |
| Evaluation.EvalCount | cmd/pulumi-analyzer-policy-opa/eval.go:37-63 | the number of results is the sum of the array lengths in all answers |
| Evaluation.EvalResultOrigin | cmd/pulumi-analyzer-policy-opa/eval.go:53-60 | every result carries the pack name and the name and level of one of the pack's policies |
| Evaluation.EvalPrefix | cmd/pulumi-analyzer-policy-opa/eval.go:37-64 | results come in policy order: more policies only append to earlier results |
| Evaluation.SilentPolicy | cmd/pulumi-analyzer-policy-opa/eval.go:52 | a policy whose answer holds no non-empty array contributes nothing |
| Evaluation.NoContributionNoResults | cmd/pulumi-analyzer-policy-opa/eval.go:50-63 | a result set without non-empty arrays yields no results |
| Evaluation.NoContributionEntry | cmd/pulumi-analyzer-policy-opa/eval.go:51-62 | an entry without non-empty arrays yields no results |
| Evaluation.EvalExample | cmd/pulumi-analyzer-policy-opa/eval.go:50-63 | booleans, empty arrays and other values yield nothing, while a two-string array yields two results |
| Evaluation.EvalFailureExample | cmd/pulumi-analyzer-policy-opa/eval.go:45-48 | a failing second query discards the first query's results |
| PolicyAnalyzer.ApiLevelOf | cmd/pulumi-analyzer-policy-opa/analyzer.go:47-52 | advisory maps to Advisory, and every other level maps to Mandatory |
| PolicyAnalyzer.LevelOfApi | cmd/pulumi-analyzer-policy-opa/analyzer.go:80-85 | not in the source: the inverse of the level mapping at these lines, onto the two defined levels, used only to state `InfoRoundTrip` |
| PolicyAnalyzer.DiagnosticsOf | cmd/pulumi-analyzer-policy-opa/analyzer.go:46-61 | one diagnostic per result, in order, with rule, pack and message copied, version "0.0.1", the resource's URN and the mapped level |
| PolicyAnalyzer.PolicyInfos | cmd/pulumi-analyzer-policy-opa/analyzer.go:79-93 | one entry per policy, in order, with name, display name, description and message copied and the level mapped |
| PolicyAnalyzer.RulesOfInfos | cmd/pulumi-analyzer-policy-opa/analyzer.go:86-92 | not in the source: reads the policies back from the entries built at these lines, one each, used only to state `InfoRoundTrip` |
| PolicyAnalyzer.InfoRoundTrip | cmd/pulumi-analyzer-policy-opa/analyzer.go:77-98 | the info gives back the pack exactly when every level is 0 or 1 |
| PolicyAnalyzer.Analyzer.constructor | cmd/pulumi-analyzer-policy-opa/analyzer.go:21-26 | the analyzer holds the given pack and evaluator |
| PolicyAnalyzer.Analyzer.Name | cmd/pulumi-analyzer-policy-opa/analyzer.go:28-30 | the plugin's name is the pack's name |
| PolicyAnalyzer.Analyzer.Analyze | cmd/pulumi-analyzer-policy-opa/analyzer.go:32-64 | the evaluation error is passed through, or the response holds the diagnostics of the results |
| PolicyAnalyzer.Analyzer.AnalyzeStack | cmd/pulumi-analyzer-policy-opa/analyzer.go:66-70 | always succeeds with no diagnostics, whatever the resources |
| PolicyAnalyzer.Analyzer.Remediate | cmd/pulumi-analyzer-policy-opa/analyzer.go:72-75 | always succeeds with no remediations |
| PolicyAnalyzer.Analyzer.GetAnalyzerInfo | cmd/pulumi-analyzer-policy-opa/analyzer.go:77-98 | the info has the pack's name and display name and one entry per policy |
| PolicyAnalyzer.Analyzer.Configure | cmd/pulumi-analyzer-policy-opa/analyzer.go:111-114 | always succeeds |
| PolicyAnalyzer.Analyzer.Cancel | cmd/pulumi-analyzer-policy-opa/analyzer.go:116-119 | always succeeds |
| PolicyAnalyzer.Analyzer.Close | cmd/pulumi-analyzer-policy-opa/analyzer.go:121-124 | always succeeds |
| AnalyzerProperties.AnalyzeFailsIff | cmd/pulumi-analyzer-policy-opa/analyzer.go:40-43 | analysis fails exactly when one of the pack's queries fails |
| AnalyzerProperties.AnalyzeError | cmd/pulumi-analyzer-policy-opa/analyzer.go:40-43 | a failed analysis reports the first failing policy and its query's error |
| AnalyzerProperties.AnalyzeCount | cmd/pulumi-analyzer-policy-opa/analyzer.go:46-61 | one diagnostic per element of every array in every answer |
| AnalyzerProperties.AnalyzeDiagnosticOrigin | cmd/pulumi-analyzer-policy-opa/analyzer.go:46-61 | every diagnostic names the pack, version "0.0.1" and the resource, and comes from one of the pack's policies, whose level it reports |
| AnalyzerProperties.LoadedDiagnosticLevels | cmd/pulumi-analyzer-policy-opa/analyzer.go:47-52 | for a loaded pack, a diagnostic is Advisory exactly when its policy name follows the warn pattern, and Mandatory exactly when it follows the deny/violation pattern |
| AnalyzerProperties.LoadedInfoRoundTrip | cmd/pulumi-analyzer-policy-opa/analyzer.go:77-98 | the info of a loaded pack gives back the pack |

## Left out

- Filesystem I/O in `loadPolicyPack` is not modelled. This covers the walk's own errors, read errors and `filepath.Rel` errors (cmd/pulumi-analyzer-policy-opa/policy.go:47-60). The walk is given as the entries it visits, already relative to the rules directory. Walk errors are I/O and are not part of this model.
- The extension test (cmd/pulumi-analyzer-policy-opa/policy.go:49) is modelled on the relative path, while the source applies it to the full path. For every entry below the rules directory the two share their last element, so they have the same extension.
- A rules path that is itself a `.rego` file is not modelled. The walk then visits only the root, whose full path ends in `.rego` but whose relative path is `.`. The source stores that file under the empty module key (policy.go:49, 57-62). The model tests `Ext(".")`, which is `.`, so it drops the entry.
- The OPA compiler, the query engine and the Rego language are parameters (`ast.CompileModules`, `rego.New(...).Eval`):
  - how `module.Package.String()` and rule head names are printed;
  - rule merging across modules;
  - OPA's JSON conversion of values.
- Go map iteration order over the compiled modules is not modelled. The modules are any caller-given sequence.
- `r.Properties.Mappable()` is not modelled. A resource's properties are taken to be the input value already.
- `GetPluginInfo` is not modelled, because it only parses the version string with the semver library.
- `context.Context`, cancellation and concurrency are not modelled.
- serve.go, main.go and cmd/pulumi-analyzer-policy-opa/main.go are not part of this model. They cover gRPC serving, flags, logging and process exit.
- tests/test_runner_test.go and the integration programs are not part of this model.
- Evaluation.EvalPolicyPack: a non-string element of a non-empty array makes the source panic. This is a precondition (`NoPanic`), required only of the answers the loop actually inspects, not a modelled crash.
- The other fields of `plugin.AnalyzeDiagnostic`, `plugin.AnalyzerPolicyInfo` and `plugin.RemediateResponse`, which the analyzer never sets, are left out of the datatypes.
