/**
 * Evaluating a pack against one input (`evaler.evalPolicyPack`, in
 * cmd/pulumi-analyzer-policy-opa/eval.go and, textually the same, in eval.go).
 *
 * Each policy is queried once, at `data.<pack>.<rule>`. The query engine is
 * an oracle: with the compiler and the input fixed, it maps an address to a
 * result set (a sequence of entries, each the sequence of its expression
 * values) or to an error. Every non-empty array value yields one result per
 * element; the first failing query aborts the evaluation.
 */
module Evaluation {
  import opened Wrappers
  import opened PolicyTypes

  /** A Rego value as the evaluator inspects it. `VArray` stands for the Go
      `[]any` the query engine delivers for arrays and sets; objects, numbers
      and null all fall under `VOther`. */
  datatype Value = VString(s: string) | VArray(elems: seq<Value>) | VBool(b: bool) | VOther

  /** A result set: one sequence of expression values per result. */
  type ResultSet = seq<seq<Value>>

  type Answer = Result<ResultSet, string>

  /** `rego.New(rego.Query(addr), rego.Compiler(c), rego.Input(input)).Eval`,
      with the compiler and the input fixed. */
  type Oracle = string -> Answer

  /** `evalPolicyResult` */
  datatype EvalResult = EvalResult(pack: string, rule: string, msg: string, level: EnforcementLevel)

  /** The wrapped error `evaluating rule <pack>.<rule>: <cause>`. */
  datatype EvalError = EvalError(packName: string, ruleName: string, cause: string)

  /** The query `data.<pack>.<rule>`. */
  function Address(packName: string, ruleName: string): string {
    "data." + packName + "." + ruleName
  }

  /** The answer to the query for the `i`-th policy. */
  function AnswerAt(pack: PolicyPack, query: Oracle, i: nat): Answer
    requires i < |pack.policies|
  {
    query(Address(pack.name, pack.policies[i].name))
  }

  /** Only non-empty arrays produce results. */
  predicate Contributes(v: Value) {
    v.VArray? && |v.elems| > 0
  }

  /** The source asserts `v.(string)` on each element of a contributing array. */
  predicate WellTypedValue(v: Value) {
    Contributes(v) ==> forall k :: 0 <= k < |v.elems| ==> v.elems[k].VString?
  }

  predicate WellTypedEntry(exprs: seq<Value>) {
    forall e :: 0 <= e < |exprs| ==> WellTypedValue(exprs[e])
  }

  predicate WellTypedSet(rs: ResultSet) {
    forall j :: 0 <= j < |rs| ==> WellTypedEntry(rs[j])
  }

  /** The queries of the first `n` policies all succeed. */
  predicate AllOk(pack: PolicyPack, query: Oracle, n: nat)
    requires n <= |pack.policies|
  {
    n == 0 || (AllOk(pack, query, n - 1) && AnswerAt(pack, query, n - 1).Ok?)
  }

  lemma {:induction false} AllOkIff(pack: PolicyPack, query: Oracle, n: nat)
    requires n <= |pack.policies|
    ensures AllOk(pack, query, n) <==> forall j :: 0 <= j < n ==> AnswerAt(pack, query, j).Ok?
  {
    if n > 0 {
      AllOkIff(pack, query, n - 1);
    }
  }

  /** Every answer the evaluator gets to inspect (all earlier queries
      succeeded) holds strings in its non-empty arrays; otherwise the source
      panics. */
  predicate NoPanic(pack: PolicyPack, query: Oracle) {
    forall i :: 0 <= i < |pack.policies| && AllOk(pack, query, i) && AnswerAt(pack, query, i).Ok? ==>
      WellTypedSet(AnswerAt(pack, query, i).value)
  }

  // ----- Counting, independently of how results are produced -----

  function ArrayLength(v: Value): nat {
    if v.VArray? then |v.elems| else 0
  }

  function EntryCount(exprs: seq<Value>): nat
    decreases |exprs|
  {
    if exprs == [] then 0 else EntryCount(exprs[..|exprs| - 1]) + ArrayLength(exprs[|exprs| - 1])
  }

  function SetCount(rs: ResultSet): nat
    decreases |rs|
  {
    if rs == [] then 0 else SetCount(rs[..|rs| - 1]) + EntryCount(rs[|rs| - 1])
  }

  /** The summed array lengths of the answers to the first `n` queries. */
  function TotalCount(pack: PolicyPack, query: Oracle, n: nat): nat
    requires n <= |pack.policies|
  {
    if n == 0 then 0
    else
      var answer := AnswerAt(pack, query, n - 1);
      TotalCount(pack, query, n - 1) + (if answer.Ok? then SetCount(answer.value) else 0)
  }

  // ----- The results of one policy -----

  /** One result per array element. */
  function ElementResults(packName: string, rule: PolicyRule, elems: seq<Value>): seq<EvalResult>
    requires forall k :: 0 <= k < |elems| ==> elems[k].VString?
    decreases |elems|
  {
    if elems == [] then []
    else
      var last := elems[|elems| - 1];
      ElementResults(packName, rule, elems[..|elems| - 1]) + [EvalResult(packName, rule.name, last.s, rule.level)]
  }

  function ValueResults(packName: string, rule: PolicyRule, v: Value): seq<EvalResult>
    requires WellTypedValue(v)
  {
    if Contributes(v) then ElementResults(packName, rule, v.elems) else []
  }

  /** Results of one entry of a result set, expression by expression. */
  function EntryResults(packName: string, rule: PolicyRule, exprs: seq<Value>): seq<EvalResult>
    requires WellTypedEntry(exprs)
    decreases |exprs|
  {
    if exprs == [] then []
    else EntryResults(packName, rule, exprs[..|exprs| - 1]) + ValueResults(packName, rule, exprs[|exprs| - 1])
  }

  /** Results of a whole result set, entry by entry. */
  function SetResults(packName: string, rule: PolicyRule, rs: ResultSet): seq<EvalResult>
    requires WellTypedSet(rs)
    decreases |rs|
  {
    if rs == [] then []
    else SetResults(packName, rule, rs[..|rs| - 1]) + EntryResults(packName, rule, rs[|rs| - 1])
  }

  /** A policy result, tagged with its pack, rule and level. */
  predicate Tagged(r: seq<EvalResult>, packName: string, rule: PolicyRule) {
    forall k :: 0 <= k < |r| ==> r[k].pack == packName && r[k].rule == rule.name && r[k].level == rule.level
  }

  lemma TaggedAppend(a: seq<EvalResult>, b: seq<EvalResult>, packName: string, rule: PolicyRule)
    requires Tagged(a, packName, rule) && Tagged(b, packName, rule)
    ensures Tagged(a + b, packName, rule)
  {
    forall k | 0 <= k < |a + b|
      ensures (a + b)[k].pack == packName && (a + b)[k].rule == rule.name && (a + b)[k].level == rule.level
    {
      if k < |a| {
        assert (a + b)[k] == a[k];
      } else {
        assert (a + b)[k] == b[k - |a|];
      }
    }
  }

  /** One result per element, carrying the element's message, in order. */
  lemma {:induction false} ElementResultsFacts(packName: string, rule: PolicyRule, elems: seq<Value>)
    requires forall k :: 0 <= k < |elems| ==> elems[k].VString?
    ensures |ElementResults(packName, rule, elems)| == |elems|
    ensures forall k :: 0 <= k < |elems| ==>
      ElementResults(packName, rule, elems)[k] == EvalResult(packName, rule.name, elems[k].s, rule.level)
    decreases |elems|
  {
    if elems != [] {
      ElementResultsFacts(packName, rule, elems[..|elems| - 1]);
    }
  }

  /** A value yields as many results as its array length, and only a
      contributing value yields any. */
  lemma ValueResultsFacts(packName: string, rule: PolicyRule, v: Value)
    requires WellTypedValue(v)
    ensures |ValueResults(packName, rule, v)| == ArrayLength(v)
    ensures ValueResults(packName, rule, v) != [] ==> Contributes(v)
    ensures Tagged(ValueResults(packName, rule, v), packName, rule)
  {
    if Contributes(v) {
      ElementResultsFacts(packName, rule, v.elems);
    }
  }

  /** An entry yields its summed array lengths in results, all tagged with the rule. */
  lemma {:induction false} EntryResultsFacts(packName: string, rule: PolicyRule, exprs: seq<Value>)
    requires WellTypedEntry(exprs)
    ensures |EntryResults(packName, rule, exprs)| == EntryCount(exprs)
    ensures Tagged(EntryResults(packName, rule, exprs), packName, rule)
    decreases |exprs|
  {
    if exprs != [] {
      var prev := exprs[..|exprs| - 1];
      EntryResultsFacts(packName, rule, prev);
      ValueResultsFacts(packName, rule, exprs[|exprs| - 1]);
      TaggedAppend(EntryResults(packName, rule, prev), ValueResults(packName, rule, exprs[|exprs| - 1]), packName, rule);
    }
  }

  /** A result set yields its summed array lengths in results, all tagged with the rule. */
  lemma {:induction false} SetResultsFacts(packName: string, rule: PolicyRule, rs: ResultSet)
    requires WellTypedSet(rs)
    ensures |SetResults(packName, rule, rs)| == SetCount(rs)
    ensures Tagged(SetResults(packName, rule, rs), packName, rule)
    decreases |rs|
  {
    if rs != [] {
      var prev := rs[..|rs| - 1];
      SetResultsFacts(packName, rule, prev);
      EntryResultsFacts(packName, rule, rs[|rs| - 1]);
      TaggedAppend(SetResults(packName, rule, prev), EntryResults(packName, rule, rs[|rs| - 1]), packName, rule);
    }
  }

  /** The evaluation over the first `n` policies. It succeeds exactly when
      all their queries succeed. */
  function EvalUpTo(pack: PolicyPack, query: Oracle, n: nat): (r: Result<seq<EvalResult>, EvalError>)
    requires n <= |pack.policies| && NoPanic(pack, query)
    ensures r.Ok? <==> AllOk(pack, query, n)
    decreases n
  {
    if n == 0 then Ok([])
    else
      var rule := pack.policies[n - 1];
      match EvalUpTo(pack, query, n - 1)
      case Err(e) => Err(e)
      case Ok(results) =>
        match AnswerAt(pack, query, n - 1)
        case Err(cause) => Err(EvalError(pack.name, rule.name, cause))
        case Ok(rs) => Ok(results + SetResults(pack.name, rule, rs))
  }

  function EvalSpec(pack: PolicyPack, query: Oracle): Result<seq<EvalResult>, EvalError>
    requires NoPanic(pack, query)
  {
    EvalUpTo(pack, query, |pack.policies|)
  }

  /** The innermost loop of `evalPolicyPack` (eval.go, lines 53-60): one
      result per element of a non-empty array. */
  method AppendElements(packName: string, rule: PolicyRule, elems: seq<Value>, results: seq<EvalResult>)
    returns (r: seq<EvalResult>)
    requires forall k :: 0 <= k < |elems| ==> elems[k].VString?
    ensures r == results + ElementResults(packName, rule, elems)
  {
    r := results;
    for k := 0 to |elems|
      invariant r == results + ElementResults(packName, rule, elems[..k])
    {
      assert elems[..k + 1][..k] == elems[..k];
      r := r + [EvalResult(packName, rule.name, elems[k].s, rule.level)];
    }
    assert elems[..|elems|] == elems;
  }

  /** The loop over the expressions of one result (eval.go, lines 51-62):
      only non-empty arrays contribute. */
  method AppendEntry(packName: string, rule: PolicyRule, exprs: seq<Value>, results: seq<EvalResult>)
    returns (r: seq<EvalResult>)
    requires WellTypedEntry(exprs)
    ensures r == results + EntryResults(packName, rule, exprs)
  {
    r := results;
    for e := 0 to |exprs|
      invariant r == results + EntryResults(packName, rule, exprs[..e])
    {
      var v := exprs[e];
      if v.VArray? && |v.elems| > 0 {
        assert forall k :: 0 <= k < |v.elems| ==> v.elems[k].VString? by {
          assert WellTypedValue(exprs[e]);
        }
        r := AppendElements(packName, rule, v.elems, r);
        assert r == results + EntryResults(packName, rule, exprs[..e + 1]) by {
          EntryResultsStep(packName, rule, exprs, e);
          assert ValueResults(packName, rule, v) == ElementResults(packName, rule, v.elems);
        }
      } else {
        assert r == results + EntryResults(packName, rule, exprs[..e + 1]) by {
          EntryResultsStep(packName, rule, exprs, e);
          assert ValueResults(packName, rule, v) == [];
        }
      }
    }
    assert exprs[..|exprs|] == exprs;
  }

  /** The loop over one result set (eval.go, lines 50-63), result by result. */
  method AppendResultSet(packName: string, rule: PolicyRule, resultSet: ResultSet, results: seq<EvalResult>)
    returns (r: seq<EvalResult>)
    requires WellTypedSet(resultSet)
    ensures r == results + SetResults(packName, rule, resultSet)
  {
    r := results;
    for j := 0 to |resultSet|
      invariant r == results + SetResults(packName, rule, resultSet[..j])
    {
      ghost var before := r;
      r := AppendEntry(packName, rule, resultSet[j], r);
      SetResultsAppend(packName, rule, resultSet, j, results, before, r);
    }
    assert resultSet[..|resultSet|] == resultSet;
  }

  /** The addresses of the first `n` policies, in order. */
  function Addresses(pack: PolicyPack, n: nat): (r: seq<string>)
    requires n <= |pack.policies|
    ensures |r| == n
    ensures forall t :: 0 <= t < n ==> r[t] == Address(pack.name, pack.policies[t].name)
  {
    if n == 0 then [] else Addresses(pack, n - 1) + [Address(pack.name, pack.policies[n - 1].name)]
  }

  /** One more expression of an entry appends that expression's results. */
  lemma EntryResultsStep(packName: string, rule: PolicyRule, exprs: seq<Value>, e: nat)
    requires WellTypedEntry(exprs) && e < |exprs|
    ensures WellTypedEntry(exprs[..e]) && WellTypedEntry(exprs[..e + 1])
    ensures EntryResults(packName, rule, exprs[..e + 1])
      == EntryResults(packName, rule, exprs[..e]) + ValueResults(packName, rule, exprs[e])
  {
    assert exprs[..e + 1][..e] == exprs[..e];
  }

  /** The loop step of `AppendResultSet`: appending the results of entry `j`
      to the results of the entries before it. */
  lemma SetResultsAppend(packName: string, rule: PolicyRule, rs: ResultSet, j: nat,
                         results: seq<EvalResult>, before: seq<EvalResult>, after: seq<EvalResult>)
    requires WellTypedSet(rs) && j < |rs|
    requires WellTypedSet(rs[..j]) && before == results + SetResults(packName, rule, rs[..j])
    requires after == before + EntryResults(packName, rule, rs[j])
    ensures WellTypedSet(rs[..j + 1]) && after == results + SetResults(packName, rule, rs[..j + 1])
  {
    SetResultsStep(packName, rule, rs, j);
  }

  /** One more entry of a result set appends that entry's results. */
  lemma SetResultsStep(packName: string, rule: PolicyRule, rs: ResultSet, j: nat)
    requires WellTypedSet(rs) && j < |rs|
    ensures WellTypedSet(rs[..j]) && WellTypedSet(rs[..j + 1])
    ensures SetResults(packName, rule, rs[..j + 1])
      == SetResults(packName, rule, rs[..j]) + EntryResults(packName, rule, rs[j])
  {
    assert rs[..j + 1][..j] == rs[..j];
  }

  /** `evalPolicyPack`. The ghost `queried` records the addresses queried, in order. */
  method EvalPolicyPack(pack: PolicyPack, query: Oracle)
    returns (r: Result<seq<EvalResult>, EvalError>, ghost queried: seq<string>)
    requires NoPanic(pack, query)
    ensures r == EvalSpec(pack, query)
    ensures |queried| <= |pack.policies| && queried == Addresses(pack, |queried|)
    ensures r.Ok? ==> |queried| == |pack.policies|
    ensures r.Err? ==>
      && 0 < |queried|
      && AllOk(pack, query, |queried| - 1)
      && AnswerAt(pack, query, |queried| - 1).Err?
  {
    var results: seq<EvalResult> := [];
    queried := [];
    for i := 0 to |pack.policies|
      invariant EvalUpTo(pack, query, i) == Ok(results)
      invariant queried == Addresses(pack, i)
    {
      var rule := pack.policies[i];
      var addr := Address(pack.name, rule.name);
      var answer := query(addr);
      assert answer == AnswerAt(pack, query, i);
      queried := queried + [addr];
      if answer.Err? {
        EvalStepErr(pack, query, i);
        EvalErrorPersists(pack, query, i + 1, |pack.policies|);
        return Err(EvalError(pack.name, rule.name, answer.error)), queried;
      }
      EvalStepOk(pack, query, i);
      results := AppendResultSet(pack.name, rule, answer.value, results);
    }
    r := Ok(results);
  }

  /** One more policy whose query succeeds appends that policy's results. */
  lemma EvalStepOk(pack: PolicyPack, query: Oracle, i: nat)
    requires i < |pack.policies| && NoPanic(pack, query)
    requires EvalUpTo(pack, query, i).Ok? && AnswerAt(pack, query, i).Ok?
    ensures WellTypedSet(AnswerAt(pack, query, i).value)
    ensures EvalUpTo(pack, query, i + 1)
      == Ok(EvalUpTo(pack, query, i).value + SetResults(pack.name, pack.policies[i], AnswerAt(pack, query, i).value))
  {
  }

  /** One more policy whose query fails ends the evaluation with its error. */
  lemma EvalStepErr(pack: PolicyPack, query: Oracle, i: nat)
    requires i < |pack.policies| && NoPanic(pack, query)
    requires EvalUpTo(pack, query, i).Ok? && AnswerAt(pack, query, i).Err?
    ensures EvalUpTo(pack, query, i + 1)
      == Err(EvalError(pack.name, pack.policies[i].name, AnswerAt(pack, query, i).error))
  {
  }

  /** Once the evaluation has failed on the first `m` policies, it fails with
      the same error on the first `n`. */
  lemma {:induction false} EvalErrorPersists(pack: PolicyPack, query: Oracle, m: nat, n: nat)
    requires m <= n <= |pack.policies| && NoPanic(pack, query)
    requires EvalUpTo(pack, query, m).Err?
    ensures EvalUpTo(pack, query, n) == EvalUpTo(pack, query, m)
    decreases n - m
  {
    if m < n {
      EvalErrorPersists(pack, query, m, n - 1);
    }
  }

  // ----- Properties of the evaluation -----

  /** A failed evaluation reports the first policy whose query failed, with
      that query's error as its cause. */
  lemma {:induction false} EvalErrorIsFirstFailure(pack: PolicyPack, query: Oracle, n: nat)
    requires n <= |pack.policies| && NoPanic(pack, query)
    requires EvalUpTo(pack, query, n).Err?
    ensures exists i ::
      && 0 <= i < n
      && AllOk(pack, query, i)
      && AnswerAt(pack, query, i).Err?
      && EvalUpTo(pack, query, n).error == EvalError(pack.name, pack.policies[i].name, AnswerAt(pack, query, i).error)
    decreases n
  {
    if EvalUpTo(pack, query, n - 1).Err? {
      EvalErrorIsFirstFailure(pack, query, n - 1);
    } else {
      assert AnswerAt(pack, query, n - 1).Err?;
      EvalStepErr(pack, query, n - 1);
    }
  }

  /** A successful evaluation yields one result per element of every array
      value in every answer. */
  lemma {:induction false} EvalCount(pack: PolicyPack, query: Oracle, n: nat)
    requires n <= |pack.policies| && NoPanic(pack, query)
    requires EvalUpTo(pack, query, n).Ok?
    ensures |EvalUpTo(pack, query, n).value| == TotalCount(pack, query, n)
    decreases n
  {
    if n > 0 {
      EvalCount(pack, query, n - 1);
      EvalStepOk(pack, query, n - 1);
      SetResultsFacts(pack.name, pack.policies[n - 1], AnswerAt(pack, query, n - 1).value);
    }
  }

  /** Every result carries the pack's name and the name and level of one of
      the evaluated policies. */
  lemma {:induction false} EvalResultOrigin(pack: PolicyPack, query: Oracle, n: nat)
    requires n <= |pack.policies| && NoPanic(pack, query)
    requires EvalUpTo(pack, query, n).Ok?
    ensures forall k :: 0 <= k < |EvalUpTo(pack, query, n).value| ==>
      var res := EvalUpTo(pack, query, n).value[k];
      res.pack == pack.name
      && exists i :: 0 <= i < n && res.rule == pack.policies[i].name && res.level == pack.policies[i].level
    decreases n
  {
    if n > 0 {
      EvalResultOrigin(pack, query, n - 1);
      EvalStepOk(pack, query, n - 1);
      var prev := EvalUpTo(pack, query, n - 1).value;
      var rs := AnswerAt(pack, query, n - 1).value;
      var added := SetResults(pack.name, pack.policies[n - 1], rs);
      var all := EvalUpTo(pack, query, n).value;
      assert all == prev + added;
      SetResultsFacts(pack.name, pack.policies[n - 1], rs);
      forall k | 0 <= k < |all|
        ensures all[k].pack == pack.name
        ensures exists i :: 0 <= i < n && all[k].rule == pack.policies[i].name && all[k].level == pack.policies[i].level
      {
        if k < |prev| {
          assert all[k] == prev[k];
          var i :| 0 <= i < n - 1 && prev[k].rule == pack.policies[i].name && prev[k].level == pack.policies[i].level;
        } else {
          assert all[k] == added[k - |prev|];
        }
      }
    }
  }

  /** Results accumulate in policy order: evaluating more policies only
      appends to the results of the earlier ones. */
  lemma {:induction false} EvalPrefix(pack: PolicyPack, query: Oracle, m: nat, n: nat)
    requires m <= n <= |pack.policies| && NoPanic(pack, query)
    requires EvalUpTo(pack, query, n).Ok?
    ensures EvalUpTo(pack, query, m).Ok?
    ensures EvalUpTo(pack, query, m).value <= EvalUpTo(pack, query, n).value
    decreases n - m
  {
    if m < n {
      EvalPrefix(pack, query, m, n - 1);
      EvalStepOk(pack, query, n - 1);
    }
  }

  /** No value of the result set is a non-empty array. */
  predicate Silent(rs: ResultSet) {
    forall j :: 0 <= j < |rs| ==> forall e :: 0 <= e < |rs[j]| ==> !Contributes(rs[j][e])
  }

  /** A policy whose answer has no non-empty array contributes nothing. */
  lemma {:induction false} SilentPolicy(pack: PolicyPack, query: Oracle, n: nat)
    requires 0 < n <= |pack.policies| && NoPanic(pack, query)
    requires EvalUpTo(pack, query, n).Ok?
    requires Silent(AnswerAt(pack, query, n - 1).value)
    ensures EvalUpTo(pack, query, n).value == EvalUpTo(pack, query, n - 1).value
  {
    var rs := AnswerAt(pack, query, n - 1).value;
    NoContributionNoResults(pack.name, pack.policies[n - 1], rs);
  }

  lemma {:induction false} NoContributionNoResults(packName: string, rule: PolicyRule, rs: ResultSet)
    requires WellTypedSet(rs)
    requires Silent(rs)
    ensures SetResults(packName, rule, rs) == []
    decreases |rs|
  {
    if rs != [] {
      var last := rs[|rs| - 1];
      assert forall e :: 0 <= e < |last| ==> !Contributes(last[e]);
      NoContributionEntry(packName, rule, last);
      NoContributionNoResults(packName, rule, rs[..|rs| - 1]);
    }
  }

  lemma {:induction false} NoContributionEntry(packName: string, rule: PolicyRule, exprs: seq<Value>)
    requires WellTypedEntry(exprs)
    requires forall e :: 0 <= e < |exprs| ==> !Contributes(exprs[e])
    ensures EntryResults(packName, rule, exprs) == []
    decreases |exprs|
  {
    if exprs != [] {
      NoContributionEntry(packName, rule, exprs[..|exprs| - 1]);
    }
  }

  /** A pack of two policies, `deny` and `warn`. */
  function ExamplePack(): PolicyPack {
    PolicyPack("p", "", [PolicyRule("deny", "a", "", "", MandatoryRule), PolicyRule("warn", "a", "", "", AdvisoryRule)])
  }

  /** The `deny` answer holds an array of two messages beside a boolean; the
      `warn` answer only an empty array and a non-array value. */
  function ExampleQuery(addr: string): Answer {
    if addr == "data.p.deny" then Ok([[VArray([VString("x"), VString("y")]), VBool(true)]])
    else Ok([[VArray([])], [VOther]])
  }

  /** As `ExampleQuery`, but the `warn` query fails. */
  function FailingQuery(addr: string): Answer {
    if addr == "data.p.deny" then Ok([[VArray([VString("x")])]]) else Err("undefined function")
  }

  lemma ExampleAddresses()
    ensures Address("p", "deny") == "data.p.deny"
    ensures Address("p", "warn") != "data.p.deny"
  {
    assert Address("p", "warn")[7] == 'w';
  }

  lemma ExampleAnswers()
    ensures AnswerAt(ExamplePack(), ExampleQuery, 0) == Ok([[VArray([VString("x"), VString("y")]), VBool(true)]])
    ensures AnswerAt(ExamplePack(), ExampleQuery, 1) == Ok([[VArray([])], [VOther]])
  {
    ExampleAddresses();
  }

  lemma ExampleNoPanic()
    ensures NoPanic(ExamplePack(), ExampleQuery)
  {
    ExampleAnswers();
    var first: ResultSet := [[VArray([VString("x"), VString("y")]), VBool(true)]];
    var second: ResultSet := [[VArray([])], [VOther]];
    assert WellTypedEntry(first[0]);
    assert WellTypedEntry(second[0]) && WellTypedEntry(second[1]);
  }

  /** Only the elements of the non-empty array become results. */
  lemma EvalExample()
    ensures NoPanic(ExamplePack(), ExampleQuery)
    ensures EvalSpec(ExamplePack(), ExampleQuery)
      == Ok([EvalResult("p", "deny", "x", MandatoryRule), EvalResult("p", "deny", "y", MandatoryRule)])
  {
    ExampleNoPanic();
    ExampleAnswers();
    var pack := ExamplePack();
    var deny := pack.policies[0];
    var warn := pack.policies[1];
    var expected := [EvalResult("p", "deny", "x", MandatoryRule), EvalResult("p", "deny", "y", MandatoryRule)];
    ExampleDenyResults(deny);
    ExampleWarnResults(warn);
    var first := AnswerAt(pack, ExampleQuery, 0).value;
    var second := AnswerAt(pack, ExampleQuery, 1).value;
    assert EvalUpTo(pack, ExampleQuery, 0) == Ok([]);
    assert EvalUpTo(pack, ExampleQuery, 1) == Ok([] + SetResults("p", deny, first));
    assert [] + expected == expected;
    assert EvalUpTo(pack, ExampleQuery, 2) == Ok(expected + SetResults("p", warn, second));
    assert expected + [] == expected;
  }

  lemma ExampleDenyResults(deny: PolicyRule)
    requires deny == PolicyRule("deny", "a", "", "", MandatoryRule)
    ensures SetResults("p", deny, [[VArray([VString("x"), VString("y")]), VBool(true)]])
      == [EvalResult("p", "deny", "x", MandatoryRule), EvalResult("p", "deny", "y", MandatoryRule)]
  {
    var elems := [VString("x"), VString("y")];
    var entry := [VArray(elems), VBool(true)];
    var expected := [EvalResult("p", "deny", "x", MandatoryRule), EvalResult("p", "deny", "y", MandatoryRule)];
    assert elems[..1] == [VString("x")];
    assert ElementResults("p", deny, elems) == expected;
    assert entry[..1] == [VArray(elems)];
    assert entry[..1][..0] == [];
    assert EntryResults("p", deny, entry[..1]) == [] + expected;
    assert EntryResults("p", deny, entry) == expected + [];
    var rs: ResultSet := [entry];
    assert rs[..0] == [];
  }

  lemma ExampleWarnResults(warn: PolicyRule)
    ensures SetResults("p", warn, [[VArray([])], [VOther]]) == []
  {
    var second: ResultSet := [[VArray([])], [VOther]];
    assert second[..1] == [[VArray([])]];
    assert second[..1][..0] == [];
  }

  /** A failing second query discards the results of the first. */
  lemma EvalFailureExample()
    ensures NoPanic(ExamplePack(), FailingQuery)
    ensures EvalSpec(ExamplePack(), FailingQuery) == Err(EvalError("p", "warn", "undefined function"))
  {
    var pack := ExamplePack();
    ExampleAddresses();
    assert AnswerAt(pack, FailingQuery, 0) == Ok([[VArray([VString("x")])]]);
    assert AnswerAt(pack, FailingQuery, 1) == Err("undefined function");
  }
}
