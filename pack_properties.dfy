/**
 * What loading a pack guarantees: module keys, the module map, the
 * per-module de-duplication of rules, and the single-package identity of a pack.
 */
module PackProperties {
  import opened Wrappers
  import opened PolicyTypes
  import opened RuleNames
  import opened PackLoader

  // ----- Module keys and the module map -----

  /** Appending an ordinary character extends a non-empty extension. */
  lemma ExtAppend(p: string, c: char)
    requires c != '.' && c != '/'
    ensures Ext(p + [c]) == if Ext(p) == [] then [] else Ext(p) + [c]
  {
    assert (p + [c])[..|p|] == p;
  }

  /** A path ending in a dot has the extension ".". */
  lemma ExtDot(q: string)
    ensures Ext(q + ['.']) == ['.']
  {
    var s := q + ['.'];
    assert s[|s| - 1] == '.';
  }

  /** A dot followed by ordinary characters is the whole extension. */
  lemma {:induction false} ExtDotWord(q: string, w: string)
    requires forall k :: 0 <= k < |w| ==> w[k] != '.' && w[k] != '/'
    ensures Ext(q + ['.'] + w) == ['.'] + w
    decreases |w|
  {
    if w == [] {
      assert q + ['.'] + w == q + ['.'];
      ExtDot(q);
    } else {
      var w' := w[..|w| - 1];
      var c := w[|w| - 1];
      var p := q + ['.'] + w';
      ExtDotWord(q, w');
      ExtAppend(p, c);
      assert q + ['.'] + w == p + [c];
      assert ['.'] + w == (['.'] + w') + [c];
    }
  }

  lemma RegoSuffixExt(path: string)
    requires HasRegoSuffix(path)
    ensures Ext(path) == ".rego"
  {
    var q := path[..|path| - 5];
    var w := "rego";
    assert path == q + ['.'] + w by {
      assert path == q + path[|path| - 5..];
    }
    ExtDotWord(q, w);
  }

  /** The walk's extension test accepts exactly the paths ending in `.rego`. */
  lemma RegoExtIff(path: string)
    ensures Ext(path) == ".rego" <==> HasRegoSuffix(path)
  {
    if HasRegoSuffix(path) {
      RegoSuffixExt(path);
    } else {
      ExtShape(path);
    }
  }

  /** Stripping the key from a `.rego` path loses only the extension. */
  lemma ModuleKeyRoundTrip(relPath: string)
    requires Ext(relPath) == ".rego"
    ensures ModuleKey(relPath) + ".rego" == relPath
  {
    RegoExtIff(relPath);
    var n := |relPath|;
    var d := LastIndexOf(relPath, '.');
    assert relPath[n - 5] == '.';
    assert relPath[n - 4..] == "rego";
    forall i | n - 4 <= i < n
      ensures relPath[i] != '.'
    {
      assert relPath[i] == relPath[n - 4..][i - (n - 4)];
    }
    assert d == n - 5;
    assert relPath == relPath[..n - 5] + ".rego";
  }

  /** Different `.rego` paths have different module keys. */
  lemma ModuleKeyInjective(p: string, q: string)
    requires Ext(p) == ".rego" && Ext(q) == ".rego"
    ensures ModuleKey(p) == ModuleKey(q) <==> p == q
  {
    ModuleKeyRoundTrip(p);
    ModuleKeyRoundTrip(q);
  }

  /** The module map has a key for each `.rego` file visited, and no other. */
  lemma {:induction false} ModuleSourcesKeys(entries: seq<FileEntry>)
    ensures forall k :: k in ModuleSources(entries) <==>
      exists i :: 0 <= i < |entries| && IsRegoFile(entries[i]) && ModuleKey(entries[i].relPath) == k
  {
    forall k | k in ModuleSources(entries)
      ensures exists i :: 0 <= i < |entries| && IsRegoFile(entries[i]) && ModuleKey(entries[i].relPath) == k
    {
      var i := KeyOrigin(entries, k);
    }
    forall i | 0 <= i < |entries| && IsRegoFile(entries[i])
      ensures ModuleKey(entries[i].relPath) in ModuleSources(entries)
    {
      KeyPresent(entries, i);
    }
  }

  /** Every key of the module map comes from a visited `.rego` file. */
  lemma {:induction false} KeyOrigin(entries: seq<FileEntry>, k: string) returns (i: nat)
    requires k in ModuleSources(entries)
    ensures i < |entries| && IsRegoFile(entries[i]) && ModuleKey(entries[i].relPath) == k
    decreases |entries|
  {
    var prev := entries[..|entries| - 1];
    if k in ModuleSources(prev) {
      i := KeyOrigin(prev, k);
      assert entries[i] == prev[i];
    } else {
      i := |entries| - 1;
    }
  }

  /** Every visited `.rego` file has its key in the module map. */
  lemma {:induction false} KeyPresent(entries: seq<FileEntry>, i: nat)
    requires i < |entries| && IsRegoFile(entries[i])
    ensures ModuleKey(entries[i].relPath) in ModuleSources(entries)
    decreases |entries|
  {
    var prev := entries[..|entries| - 1];
    if i < |prev| {
      assert prev[i] == entries[i];
      KeyPresent(prev, i);
    }
  }

  /** Each `.rego` file's source is stored under its key, unless the walk visits the same path again later. */
  lemma {:induction false} ModuleSourcesValues(entries: seq<FileEntry>, i: nat)
    requires i < |entries| && IsRegoFile(entries[i])
    requires forall j :: i < j < |entries| ==> entries[j].relPath != entries[i].relPath
    ensures ModuleKey(entries[i].relPath) in ModuleSources(entries)
    ensures ModuleSources(entries)[ModuleKey(entries[i].relPath)] == entries[i].source
    decreases |entries|
  {
    var prev := entries[..|entries| - 1];
    var last := entries[|entries| - 1];
    if i < |entries| - 1 {
      assert prev[i] == entries[i];
      ModuleSourcesValues(prev, i);
      if IsRegoFile(last) {
        ModuleKeyInjective(last.relPath, entries[i].relPath);
      }
    }
  }

  // ----- Rules within one module -----

  /** The names of a sequence of policies. */
  function NameSet(ps: seq<PolicyRule>): set<string> {
    set k | 0 <= k < |ps| :: ps[k].name
  }

  predicate DistinctNames(ps: seq<PolicyRule>) {
    forall a, b :: 0 <= a < b < |ps| ==> ps[a].name != ps[b].name
  }

  /** A module never yields two policies with the same name. */
  lemma {:induction false} KeptDistinct(key: string, names: seq<string>)
    ensures DistinctNames(KeptPolicies(key, names))
    decreases |names|
  {
    if names != [] {
      KeptDistinct(key, names[..|names| - 1]);
    }
  }

  /** A module yields a policy for exactly its classified rule names. */
  lemma {:induction false} KeptNames(key: string, names: seq<string>)
    ensures NameSet(KeptPolicies(key, names)) == ClassifiedIn(names)
    decreases |names|
  {
    if names != [] {
      var j := |names| - 1;
      var prev := names[..j];
      var n := names[j];
      KeptNames(key, prev);
      ClassifiedInSnoc(names, j);
      assert names[..j + 1] == names;
      var r' := KeptPolicies(key, prev);
      if Classify(n).Some? && n !in prev {
        NameSetSnoc(r', PolicyRule(n, key, "", "", Classify(n).value));
      } else if Classify(n).Some? {
        var i :| 0 <= i < |prev| && prev[i] == n;
        assert Classify(prev[i]).Some?;
        assert n in ClassifiedIn(prev);
        assert KeptPolicies(key, names) == r' + [];
      } else {
        assert KeptPolicies(key, names) == r' + [] == r';
        assert ClassifiedIn(names) == ClassifiedIn(prev) + {} == ClassifiedIn(prev);
      }
    }
  }

  lemma NameSetSnoc(ps: seq<PolicyRule>, p: PolicyRule)
    ensures NameSet(ps + [p]) == NameSet(ps) + {p.name}
  {
    var qs := ps + [p];
    forall x | x in NameSet(qs)
      ensures x in NameSet(ps) + {p.name}
    {
      var k :| 0 <= k < |qs| && qs[k].name == x;
      if k < |ps| {
        assert qs[k] == ps[k];
      }
    }
    forall x | x in NameSet(ps)
      ensures x in NameSet(qs)
    {
      var k :| 0 <= k < |ps| && ps[k].name == x;
      assert qs[k] == ps[k];
    }
    assert qs[|ps|] == p;
  }

  lemma {:induction false} DistinctNamesCard(ps: seq<PolicyRule>)
    requires DistinctNames(ps)
    ensures |NameSet(ps)| == |ps|
    decreases |ps|
  {
    if ps != [] {
      var prev := ps[..|ps| - 1];
      var last := ps[|ps| - 1];
      assert ps == prev + [last];
      DistinctNamesCard(prev);
      NameSetSnoc(prev, last);
      forall k | 0 <= k < |prev|
        ensures prev[k].name != last.name
      {
        assert prev[k] == ps[k];
      }
      assert last.name !in NameSet(prev);
    }
  }

  /** A module yields as many policies as it has distinct classified rule names. */
  lemma KeptCount(key: string, names: seq<string>)
    ensures |KeptPolicies(key, names)| == |ClassifiedIn(names)|
  {
    KeptDistinct(key, names);
    KeptNames(key, names);
    DistinctNamesCard(KeptPolicies(key, names));
  }

  /** Index of the first occurrence of `x` in `s`. */
  function FirstIndex(s: seq<string>, x: string): (r: nat)
    requires x in s
    ensures r < |s| && s[r] == x && x !in s[..r]
    decreases |s|
  {
    var prev := s[..|s| - 1];
    if x in prev then FirstIndex(prev, x) else |s| - 1
  }

  /** An index holding `x` with no `x` before it is the first index. */
  lemma FirstIndexUnique(s: seq<string>, x: string, k: nat)
    requires k < |s| && s[k] == x && x !in s[..k]
    ensures FirstIndex(s, x) == k
  {
    var r := FirstIndex(s, x);
    assert forall t :: 0 <= t < k ==> s[..k][t] == s[t];
    assert forall t :: 0 <= t < r ==> s[..r][t] == s[t];
  }

  /** The kept policy for a name is its first occurrence, so policies follow
      the order in which their names first appear in the module. */
  lemma {:induction false} KeptFirstOccurrenceOrder(key: string, names: seq<string>)
    ensures forall a, b :: 0 <= a < b < |KeptPolicies(key, names)| ==>
      FirstIndex(names, KeptPolicies(key, names)[a].name) < FirstIndex(names, KeptPolicies(key, names)[b].name)
    decreases |names|
  {
    if names != [] {
      var prev := names[..|names| - 1];
      var n := names[|names| - 1];
      KeptFirstOccurrenceOrder(key, prev);
      var r := KeptPolicies(key, names);
      var r' := KeptPolicies(key, prev);
      forall x | x in prev
        ensures FirstIndex(names, x) == FirstIndex(prev, x)
      {
        var j := FirstIndex(prev, x);
        assert names[j] == x;
        assert names[..j] == prev[..j];
        FirstIndexUnique(names, x, j);
      }
      forall a, b | 0 <= a < b < |r|
        ensures FirstIndex(names, r[a].name) < FirstIndex(names, r[b].name)
      {
        assert r[a] == r'[a];
        assert r[a].name in prev;
        if b < |r'| {
          assert r[b] == r'[b];
        } else {
          assert r[b].name == n && n !in prev;
          assert names[..|names| - 1] == prev;
          FirstIndexUnique(names, n, |names| - 1);
        }
      }
    }
  }

  // ----- The pack -----

  /** The policies of all modules, in module order. */
  function AllModulePolicies(ms: seq<CompiledModule>): seq<PolicyRule>
    decreases |ms|
  {
    if ms == [] then [] else AllModulePolicies(ms[..|ms| - 1]) + ModulePolicies(ms[|ms| - 1])
  }

  /** A loaded pack lists every module's policies, module after module, and
      has an empty display name. */
  lemma {:induction false} PackPolicies(ms: seq<CompiledModule>)
    requires PackOf(ms).Ok?
    ensures PackOf(ms).value.policies == AllModulePolicies(ms)
    ensures PackOf(ms).value.displayName == ""
    decreases |ms|
  {
    if ms != [] {
      PackPolicies(ms[..|ms| - 1]);
    }
  }

  /** Every policy of a loaded pack is Advisory (0) or Mandatory (1). */
  lemma LoadedLevels(ms: seq<CompiledModule>)
    requires PackOf(ms).Ok?
    ensures forall k :: 0 <= k < |PackOf(ms).value.policies| ==>
      PackOf(ms).value.policies[k].level in {AdvisoryRule, MandatoryRule}
  {
    var ps := PackOf(ms).value.policies;
    forall k | 0 <= k < |ps|
      ensures ps[k].level in {AdvisoryRule, MandatoryRule}
    {
      var c := Classify(ps[k].name);
      assert c == Some(ps[k].level) by { LoadedPolicyFields(ms, k); }
    }
  }

  /** Every policy of a loaded pack comes from a module: it is named after a
      classified rule of that module and displays that module's key. */
  lemma LoadedPolicyFields(ms: seq<CompiledModule>, k: nat)
    requires PackOf(ms).Ok? && k < |PackOf(ms).value.policies|
    ensures var p := PackOf(ms).value.policies[k];
      && Classify(p.name) == Some(p.level)
      && p.description == "" && p.message == ""
      && exists i :: 0 <= i < |ms| && ms[i].key == p.displayName && p.name in ms[i].ruleNames
  {
    PackPolicies(ms);
    ModuleOfPolicy(ms, k);
  }

  lemma {:induction false} ModuleOfPolicy(ms: seq<CompiledModule>, k: nat)
    requires k < |AllModulePolicies(ms)|
    ensures var p := AllModulePolicies(ms)[k];
      && Classify(p.name) == Some(p.level)
      && p.description == "" && p.message == ""
      && exists i :: 0 <= i < |ms| && ms[i].key == p.displayName && p.name in ms[i].ruleNames
    decreases |ms|
  {
    var prev := ms[..|ms| - 1];
    var before := AllModulePolicies(prev);
    if k < |before| {
      ModuleOfPolicy(prev, k);
      var i :| 0 <= i < |prev| && prev[i].key == before[k].displayName && before[k].name in prev[i].ruleNames;
      assert ms[i] == prev[i];
    } else {
      var i := |ms| - 1;
      assert AllModulePolicies(ms)[k] == ModulePolicies(ms[i])[k - |before|];
    }
  }

  /** What holds of the package names once every module has been loaded. */
  lemma {:induction false} LoadedPackName(ms: seq<CompiledModule>)
    requires LoadModules(ms).Ok?
    ensures forall i :: 0 <= i < |ms| ==> WellFormedPackage(ms[i].pkg)
    ensures forall i :: 0 <= i < |ms| ==>
      PackageName(ms[i].pkg) == LoadModules(ms).value.packName || PackageName(ms[i].pkg) == ""
    ensures LoadModules(ms).value.packName != "" ==>
      exists i :: 0 <= i < |ms| && WellFormedPackage(ms[i].pkg) && PackageName(ms[i].pkg) == LoadModules(ms).value.packName
    decreases |ms|
  {
    if ms != [] {
      var prev := ms[..|ms| - 1];
      LoadedPackName(prev);
      var name := LoadModules(prev).value.packName;
      assert forall i :: 0 <= i < |prev| ==> ms[i] == prev[i];
      if name != "" {
        var i :| 0 <= i < |prev| && WellFormedPackage(prev[i].pkg) && PackageName(prev[i].pkg) == name;
        assert ms[i] == prev[i];
      }
    }
  }

  /** A module whose package lacks the `package ` prefix. */
  ghost predicate HasMalformed(ms: seq<CompiledModule>) {
    exists i :: 0 <= i < |ms| && !WellFormedPackage(ms[i].pkg)
  }

  /** A module after one with a non-empty package name that names a different package. */
  ghost predicate HasConflict(ms: seq<CompiledModule>) {
    exists i, j :: 0 <= i < j < |ms| && WellFormedPackage(ms[i].pkg) && WellFormedPackage(ms[j].pkg)
      && PackageName(ms[i].pkg) != "" && PackageName(ms[j].pkg) != PackageName(ms[i].pkg)
  }

  lemma NoConflictPair(ms: seq<CompiledModule>, i: nat, j: nat)
    requires !HasConflict(ms) && i < j < |ms|
    requires WellFormedPackage(ms[i].pkg) && WellFormedPackage(ms[j].pkg) && PackageName(ms[i].pkg) != ""
    ensures PackageName(ms[j].pkg) == PackageName(ms[i].pkg)
  {
  }

  /** A malformed package or a conflict among the first `k` modules remains one among all. */
  lemma BadPrefix(ms: seq<CompiledModule>, k: nat)
    requires k <= |ms| && (HasMalformed(ms[..k]) || HasConflict(ms[..k]))
    ensures HasMalformed(ms) || HasConflict(ms)
  {
    var prev := ms[..k];
    if HasMalformed(prev) {
      var i :| 0 <= i < |prev| && !WellFormedPackage(prev[i].pkg);
      assert ms[i] == prev[i];
    } else {
      var i, j :| 0 <= i < j < |prev| && WellFormedPackage(prev[i].pkg) && WellFormedPackage(prev[j].pkg)
        && PackageName(prev[i].pkg) != "" && PackageName(prev[j].pkg) != PackageName(prev[i].pkg);
      assert ms[i] == prev[i] && ms[j] == prev[j];
    }
  }

  /** The step that fails on the last module fails because of a malformed package or a conflict. */
  lemma LastStepFails(ms: seq<CompiledModule>)
    requires ms != [] && LoadModules(ms[..|ms| - 1]).Ok? && LoadModules(ms).Err?
    ensures HasMalformed(ms) || HasConflict(ms)
  {
    var prev := ms[..|ms| - 1];
    var last := |ms| - 1;
    LoadedPackName(prev);
    var name := LoadModules(prev).value.packName;
    if WellFormedPackage(ms[last].pkg) {
      var i :| 0 <= i < |prev| && WellFormedPackage(prev[i].pkg) && PackageName(prev[i].pkg) == name;
      assert ms[i] == prev[i];
      assert PackageName(ms[last].pkg) != PackageName(ms[i].pkg);
    }
  }

  lemma StepOk(st: LoadState, m: CompiledModule)
    requires Step(st, m).Ok?
    ensures WellFormedPackage(m.pkg)
    ensures st.packName == "" || st.packName == PackageName(m.pkg)
  {
  }

  /** Appending a module whose package agrees with the running pack name keeps the packages consistent. */
  lemma ConsistentExtend(ms: seq<CompiledModule>, name: string)
    requires ms != [] && !HasConflict(ms[..|ms| - 1])
    requires forall i :: 0 <= i < |ms| ==> WellFormedPackage(ms[i].pkg)
    requires forall i :: 0 <= i < |ms| - 1 ==> PackageName(ms[i].pkg) == name || PackageName(ms[i].pkg) == ""
    requires name == "" || name == PackageName(ms[|ms| - 1].pkg)
    ensures !HasConflict(ms)
  {
    var prev := ms[..|ms| - 1];
    forall i, j | 0 <= i < j < |ms| && PackageName(ms[i].pkg) != ""
      ensures PackageName(ms[j].pkg) == PackageName(ms[i].pkg)
    {
      if j < |ms| - 1 {
        assert ms[i] == prev[i] && ms[j] == prev[j];
        NoConflictPair(prev, i, j);
      }
    }
  }

  /** The step that succeeds on the last module keeps the packages consistent. */
  lemma LastStepSucceeds(ms: seq<CompiledModule>, st: LoadState)
    requires ms != [] && !HasMalformed(ms[..|ms| - 1]) && !HasConflict(ms[..|ms| - 1])
    requires LoadModules(ms[..|ms| - 1]) == Ok(st) && Step(st, ms[|ms| - 1]).Ok?
    ensures !HasMalformed(ms) && !HasConflict(ms)
  {
    var prev := ms[..|ms| - 1];
    var last := |ms| - 1;
    StepOk(st, ms[last]);
    LoadedPackName(prev);
    forall i | 0 <= i < |ms|
      ensures WellFormedPackage(ms[i].pkg)
      ensures i < last ==> PackageName(ms[i].pkg) == st.packName || PackageName(ms[i].pkg) == ""
    {
      if i < last {
        assert ms[i] == prev[i];
      }
    }
    ConsistentExtend(ms, st.packName);
  }

  /** Loading fails exactly when some package is malformed or two packages disagree. */
  lemma {:induction false} LoadFailsIff(ms: seq<CompiledModule>)
    ensures PackOf(ms).Err? <==> HasMalformed(ms) || HasConflict(ms)
    decreases |ms|
  {
    if ms != [] {
      var prev := ms[..|ms| - 1];
      LoadFailsIff(prev);
      if LoadModules(prev).Err? {
        BadPrefix(ms, |ms| - 1);
      } else if LoadModules(ms).Err? {
        LastStepFails(ms);
      } else {
        LastStepSucceeds(ms, LoadModules(prev).value);
      }
    }
  }

  /** A failed load reports the first module the loop rejects: its package
      when that lacks the `package ` prefix, and otherwise its package name
      together with the pack name the earlier modules set. */
  lemma {:induction false} LoadErrorIsFirst(ms: seq<CompiledModule>)
    requires PackOf(ms).Err?
    ensures exists i ::
      && 0 <= i < |ms|
      && LoadModules(ms[..i]).Ok?
      && Step(LoadModules(ms[..i]).value, ms[i]) == Err(PackOf(ms).error)
      && PackOf(ms).error == (
        if !WellFormedPackage(ms[i].pkg) then MalformedPackage(ms[i].pkg)
        else PackageMismatch(PackageName(ms[i].pkg), LoadModules(ms[..i]).value.packName))
    decreases |ms|
  {
    var last := |ms| - 1;
    var prev := ms[..last];
    if LoadModules(prev).Err? {
      LoadErrorIsFirst(prev);
      var i :| && 0 <= i < |prev|
               && LoadModules(prev[..i]).Ok?
               && Step(LoadModules(prev[..i]).value, prev[i]) == Err(PackOf(prev).error)
               && PackOf(prev).error == (
                 if !WellFormedPackage(prev[i].pkg) then MalformedPackage(prev[i].pkg)
                 else PackageMismatch(PackageName(prev[i].pkg), LoadModules(prev[..i]).value.packName));
      assert prev[..i] == ms[..i] && prev[i] == ms[i];
    } else {
      assert ms[..last] == prev;
    }
  }

  /** A package mismatch names two different packages: that of the rejected
      module and the non-empty one an earlier module declared. */
  lemma MismatchNamesBoth(ms: seq<CompiledModule>)
    requires PackOf(ms).Err? && PackOf(ms).error.PackageMismatch?
    ensures PackOf(ms).error.got != PackOf(ms).error.expected
    ensures PackOf(ms).error.expected != ""
    ensures exists i, j ::
      && 0 <= j < i < |ms|
      && WellFormedPackage(ms[j].pkg) && PackageName(ms[j].pkg) == PackOf(ms).error.expected
      && WellFormedPackage(ms[i].pkg) && PackageName(ms[i].pkg) == PackOf(ms).error.got
  {
    LoadErrorIsFirst(ms);
    var e := PackOf(ms).error;
    var i :| && 0 <= i < |ms|
             && LoadModules(ms[..i]).Ok?
             && Step(LoadModules(ms[..i]).value, ms[i]) == Err(e)
             && e == (
               if !WellFormedPackage(ms[i].pkg) then MalformedPackage(ms[i].pkg)
               else PackageMismatch(PackageName(ms[i].pkg), LoadModules(ms[..i]).value.packName));
    var prev := ms[..i];
    var st := LoadModules(prev).value;
    assert WellFormedPackage(ms[i].pkg) && st.packName != "";
    LoadedPackName(prev);
    var j :| 0 <= j < |prev| && WellFormedPackage(prev[j].pkg) && PackageName(prev[j].pkg) == st.packName;
    assert ms[j] == prev[j];
  }

  /** When the first module declares a non-empty package, that package names
      the pack and every module of a loaded pack declares it. */
  lemma PackIdentity(ms: seq<CompiledModule>)
    requires PackOf(ms).Ok?
    requires |ms| > 0 && WellFormedPackage(ms[0].pkg) && PackageName(ms[0].pkg) != ""
    ensures PackOf(ms).value.name == PackageName(ms[0].pkg)
    ensures forall i :: 0 <= i < |ms| ==>
      WellFormedPackage(ms[i].pkg) && PackageName(ms[i].pkg) == PackOf(ms).value.name
  {
    LoadedPackName(ms);
    LoadFailsIff(ms);
    forall i | 0 <= i < |ms|
      ensures PackageName(ms[i].pkg) == PackageName(ms[0].pkg)
    {
      if i > 0 {
        NoConflictPair(ms, 0, i);
      }
    }
  }

  /** A module declaring `deny` twice and a library rule yields one policy. */
  lemma RepeatedRuleOnce(key: string)
    ensures KeptPolicies(key, ["deny", "deny", "helper"]) == [PolicyRule("deny", key, "", "", MandatoryRule)]
  {
    var names := ["deny", "deny", "helper"];
    var denyK := PolicyRule("deny", key, "", "", MandatoryRule);
    BarePrefixExamples();
    NearMissExamples();
    assert names[..2] == ["deny", "deny"];
    assert ["deny", "deny"][..1] == ["deny"];
    assert ["deny"][..0] == [];
    assert KeptPolicies(key, ["deny"]) == [denyK];
    assert KeptPolicies(key, ["deny", "deny"]) == [denyK];
  }

  /** De-duplication is per module: a rule repeated in one module yields one
      policy, the same rule in a second module yields a second policy. */
  lemma DuplicatesAcrossModules()
    ensures
      var a := CompiledModule("a", "package p", ["deny", "deny", "helper"]);
      var b := CompiledModule("b", "package p", ["deny"]);
      PackOf([a, b]) == Ok(PolicyPack("p", "", [
        PolicyRule("deny", "a", "", "", MandatoryRule),
        PolicyRule("deny", "b", "", "", MandatoryRule)]))
  {
    var a := CompiledModule("a", "package p", ["deny", "deny", "helper"]);
    var b := CompiledModule("b", "package p", ["deny"]);
    var denyA := PolicyRule("deny", "a", "", "", MandatoryRule);
    var denyB := PolicyRule("deny", "b", "", "", MandatoryRule);
    RepeatedRuleOnce("a");
    BarePrefixExamples();
    assert ["deny"][..0] == [];
    assert ModulePolicies(b) == [denyB];
    assert "package p"[..8] == "package " && "package p"[8..] == "p";
    assert WellFormedPackage(a.pkg) && PackageName(a.pkg) == "p";
    assert [a, b][..1] == [a];
    assert [a][..0] == [];
    assert ModulePolicies(a) == [denyA];
    assert LoadModules([a]) == Step(LoadState("", []), a);
    assert [] + ModulePolicies(a) == [denyA];
    assert LoadModules([a]) == Ok(LoadState("p", [denyA]));
    assert LoadModules([a, b]) == Step(LoadState("p", [denyA]), b);
    assert [denyA] + ModulePolicies(b) == [denyA, denyB];
  }
}
