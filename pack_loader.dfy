/**
 * Loading a policy pack (`loadPolicyPack`, cmd/pulumi-analyzer-policy-opa/policy.go).
 *
 * The loader gathers the `.rego` files under the rules directory into a map
 * from module key to source text, hands the whole map to the Rego compiler,
 * and then walks the compiled modules: every module must declare the same
 * package, which names the pack, and every rule whose name follows the
 * naming convention becomes a policy, once per module.
 *
 * The directory walk is given as the sequence of entries it visits, the
 * compiler as a function from the module map to the compiled modules, and
 * the compiled modules in the order the caller supplies (the source iterates
 * a Go map, whose order is unspecified).
 */
module PackLoader {
  import opened Wrappers
  import opened PolicyTypes
  import opened RuleNames

  // ----- Module keys -----

  /** `filepath.Ext`: the suffix of the last path element that starts at its last '.', or "". */
  function Ext(path: string): string
    decreases |path|
  {
    if path == [] || path[|path| - 1] == '/' then []
    else if path[|path| - 1] == '.' then "."
    else
      var e := Ext(path[..|path| - 1]);
      if e == [] then [] else e + [path[|path| - 1]]
  }

  /** The extension is empty, or a suffix of the path that starts with a '.'
      and holds no other '.' and no '/'. */
  lemma {:induction false} ExtShape(path: string)
    ensures var r := Ext(path);
      r == [] || (|r| <= |path| && r == path[|path| - |r|..] && r[0] == '.')
    ensures var r := Ext(path);
      forall k :: 0 < k < |r| ==> r[k] != '.' && r[k] != '/'
    decreases |path|
  {
    if path != [] && path[|path| - 1] != '/' && path[|path| - 1] != '.' {
      var p := path[..|path| - 1];
      ExtShape(p);
      var e := Ext(p);
      if e != [] {
        assert Ext(path) == e + [path[|path| - 1]];
        assert path == p + [path[|path| - 1]];
      }
    }
  }

  predicate HasRegoSuffix(path: string) {
    |path| >= 5 && path[|path| - 5..] == ".rego"
  }

  /** `strings.LastIndex(s, string(c))` for a single character. */
  function LastIndexOf(s: string, c: char): (r: int)
    ensures -1 <= r < |s|
    ensures r >= 0 ==> s[r] == c
    ensures forall i :: r < i < |s| ==> s[i] != c
    decreases |s|
  {
    if s == [] then -1
    else if s[|s| - 1] == c then |s| - 1
    else LastIndexOf(s[..|s| - 1], c)
  }

  /** The module key of a `.rego` file: its relative path up to the last '.'. */
  function ModuleKey(relPath: string): string
    requires Ext(relPath) == ".rego"
  {
    ExtShape(relPath);
    relPath[..LastIndexOf(relPath, '.')]
  }

  /** One entry visited by the directory walk, with its path relative to the rules directory. */
  datatype FileEntry = FileEntry(relPath: string, isDir: bool, source: string)

  /** The walk only reads regular files whose extension is `.rego`. */
  predicate IsRegoFile(e: FileEntry) {
    !e.isDir && Ext(e.relPath) == ".rego"
  }

  /** The module map after the walk has visited `entries`, in order. */
  function ModuleSources(entries: seq<FileEntry>): map<string, string>
    decreases |entries|
  {
    if entries == [] then map[]
    else
      var m := ModuleSources(entries[..|entries| - 1]);
      var e := entries[|entries| - 1];
      if IsRegoFile(e) then m[ModuleKey(e.relPath) := e.source] else m
  }

  /** The walk callback, over the entries the walk visits. */
  method GatherModules(entries: seq<FileEntry>) returns (modules: map<string, string>)
    ensures modules == ModuleSources(entries)
  {
    modules := map[];
    for i := 0 to |entries|
      invariant modules == ModuleSources(entries[..i])
    {
      assert entries[..i + 1][..i] == entries[..i];
      var e := entries[i];
      if !e.isDir && Ext(e.relPath) == ".rego" {
        ExtShape(e.relPath);
        var dotIndex := LastIndexOf(e.relPath, '.');
        modules := modules[e.relPath[..dotIndex] := e.source];
      }
    }
    assert entries[..|entries|] == entries;
  }

  // ----- Compiled modules and the pack -----

  /** A module as the compiler returns it: its key, `module.Package.String()`
      and the head names of its rules in declaration order. */
  datatype CompiledModule = CompiledModule(key: string, pkg: string, ruleNames: seq<string>)

  /** `ast.CompileModules`, abstracted: the compiled modules or the compiler's message. */
  type Compiler = map<string, string> -> Result<seq<CompiledModule>, string>

  datatype LoadError =
    | CompileFailed(message: string)
    | MalformedPackage(pkg: string)
    | PackageMismatch(got: string, expected: string)

  const PackagePrefix: string := "package "

  /** `strings.Index(pkg, "package ") == 0` */
  predicate WellFormedPackage(pkg: string) {
    |pkg| >= |PackagePrefix| && pkg[..|PackagePrefix|] == PackagePrefix
  }

  /** The package name with the `package ` prefix removed. */
  function PackageName(pkg: string): string
    requires WellFormedPackage(pkg)
  {
    pkg[|PackagePrefix|..]
  }

  /** The classified rule names of a module. */
  function ClassifiedIn(names: seq<string>): set<string> {
    set i | 0 <= i < |names| && Classify(names[i]).Some? :: names[i]
  }

  /** Extending the rules by one adds that rule's name when it is classified. */
  lemma ClassifiedInSnoc(names: seq<string>, j: nat)
    requires j < |names|
    ensures ClassifiedIn(names[..j + 1])
      == ClassifiedIn(names[..j]) + (if Classify(names[j]).Some? then {names[j]} else {})
  {
    var longer := names[..j + 1];
    var shorter := names[..j];
    forall x | x in ClassifiedIn(longer)
      ensures x in ClassifiedIn(shorter) || (x == names[j] && Classify(x).Some?)
    {
      var i :| 0 <= i < |longer| && Classify(longer[i]).Some? && longer[i] == x;
      if i < j {
        assert shorter[i] == longer[i];
      }
    }
    forall x | x in ClassifiedIn(shorter)
      ensures x in ClassifiedIn(longer)
    {
      var i :| 0 <= i < |shorter| && Classify(shorter[i]).Some? && shorter[i] == x;
      assert longer[i] == shorter[i];
    }
    if Classify(names[j]).Some? {
      assert longer[j] == names[j];
    }
  }

  /** The policies one module contributes after its first `|names|` rules. */
  function KeptPolicies(key: string, names: seq<string>): (r: seq<PolicyRule>)
    ensures forall k :: 0 <= k < |r| ==>
      && r[k].name in names
      && Classify(r[k].name) == Some(r[k].level)
      && r[k].displayName == key
      && r[k].description == "" && r[k].message == ""
    decreases |names|
  {
    if names == [] then []
    else
      var prev := names[..|names| - 1];
      var n := names[|names| - 1];
      var c := Classify(n);
      KeptPolicies(key, prev) + (if c.Some? && n !in prev then [PolicyRule(n, key, "", "", c.value)] else [])
  }

  function ModulePolicies(m: CompiledModule): seq<PolicyRule> {
    KeptPolicies(m.key, m.ruleNames)
  }

  /** What the module loop has built so far: `packName` and `policies`. */
  datatype LoadState = LoadState(packName: string, policies: seq<PolicyRule>)

  /** One iteration of the module loop. An empty `packName` means "not yet set". */
  function Step(st: LoadState, m: CompiledModule): Result<LoadState, LoadError> {
    if !WellFormedPackage(m.pkg) then Err(MalformedPackage(m.pkg))
    else
      var pkg := PackageName(m.pkg);
      if st.packName == "" then Ok(LoadState(pkg, st.policies + ModulePolicies(m)))
      else if st.packName != pkg then Err(PackageMismatch(pkg, st.packName))
      else Ok(LoadState(st.packName, st.policies + ModulePolicies(m)))
  }

  /** The module loop over `ms`, stopping at the first error. */
  function LoadModules(ms: seq<CompiledModule>): Result<LoadState, LoadError>
    decreases |ms|
  {
    if ms == [] then Ok(LoadState("", []))
    else
      match LoadModules(ms[..|ms| - 1])
      case Err(e) => Err(e)
      case Ok(st) => Step(st, ms[|ms| - 1])
  }

  /** The pack the loader builds from the compiled modules. */
  function PackOf(ms: seq<CompiledModule>): Result<PolicyPack, LoadError> {
    match LoadModules(ms)
    case Err(e) => Err(e)
    case Ok(st) => Ok(PolicyPack(st.packName, "", st.policies))
  }

  /** Once the loop has failed on a prefix, the load fails with that error. */
  lemma {:induction false} ErrorPersists(ms: seq<CompiledModule>, i: nat)
    requires i <= |ms| && LoadModules(ms[..i]).Err?
    ensures LoadModules(ms) == LoadModules(ms[..i])
    decreases |ms| - i
  {
    if i < |ms| {
      assert ms[..i + 1][..i] == ms[..i];
      ErrorPersists(ms, i + 1);
    } else {
      assert ms[..i] == ms;
    }
  }

  /** The rule loop of `loadPolicyPack` for one module (policy.go, lines 91-116):
      classify each rule and append a policy for each classified name not yet
      seen in this module. The seen-set is local to the module. */
  method AppendModuleRules(m: CompiledModule, policies: seq<PolicyRule>) returns (r: seq<PolicyRule>)
    ensures r == policies + ModulePolicies(m)
  {
    r := policies;
    var existing: set<string> := {};
    for j := 0 to |m.ruleNames|
      invariant r == policies + KeptPolicies(m.key, m.ruleNames[..j])
      invariant existing == ClassifiedIn(m.ruleNames[..j])
    {
      var names := m.ruleNames[..j + 1];
      assert names[..j] == m.ruleNames[..j];
      ClassifiedInSnoc(m.ruleNames, j);
      var ruleName := m.ruleNames[j];
      var level;
      if IsMandatoryName(ruleName) {
        level := MandatoryRule;
      } else if IsAdvisoryName(ruleName) {
        level := AdvisoryRule;
      } else {
        continue;
      }
      assert ruleName in existing <==> ruleName in m.ruleNames[..j] by {
        if ruleName in m.ruleNames[..j] {
          var i :| 0 <= i < j && m.ruleNames[..j][i] == ruleName;
        }
      }
      if ruleName !in existing {
        existing := existing + {ruleName};
        r := r + [PolicyRule(ruleName, m.key, "", "", level)];
      }
    }
    assert m.ruleNames[..|m.ruleNames|] == m.ruleNames;
  }

  /** The module loop of `loadPolicyPack` (policy.go, lines 75-124). */
  method BuildPolicyPack(ms: seq<CompiledModule>) returns (r: Result<PolicyPack, LoadError>)
    ensures r == PackOf(ms)
  {
    var packName := "";
    var policies: seq<PolicyRule> := [];
    for i := 0 to |ms|
      invariant LoadModules(ms[..i]) == Ok(LoadState(packName, policies))
    {
      assert ms[..i + 1][..i] == ms[..i];
      var m := ms[i];
      var pkg := m.pkg;
      if !(|pkg| >= |PackagePrefix| && pkg[..|PackagePrefix|] == PackagePrefix) {
        ErrorPersists(ms, i + 1);
        return Err(MalformedPackage(pkg));
      }
      pkg := pkg[|PackagePrefix|..];
      if packName == "" {
        packName := pkg;
      } else if packName != pkg {
        ErrorPersists(ms, i + 1);
        return Err(PackageMismatch(pkg, packName));
      }

      policies := AppendModuleRules(m, policies);
    }
    assert ms[..|ms|] == ms;
    r := Ok(PolicyPack(packName, "", policies));
  }

  /** `loadPolicyPack`: walk, compile, then build the pack. */
  method LoadPolicyPack(entries: seq<FileEntry>, compile: Compiler) returns (r: Result<PolicyPack, LoadError>)
    ensures compile(ModuleSources(entries)).Err? ==>
      r == Err(CompileFailed(compile(ModuleSources(entries)).error))
    ensures compile(ModuleSources(entries)).Ok? ==>
      r == PackOf(compile(ModuleSources(entries)).value)
  {
    var modules := GatherModules(entries);
    var compiled := compile(modules);
    if compiled.Err? {
      return Err(CompileFailed(compiled.error));
    }
    r := BuildPolicyPack(compiled.value);
  }
}
