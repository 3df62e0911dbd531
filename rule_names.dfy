/**
 * Classification of Rego rule names (cmd/pulumi-analyzer-policy-opa/policy.go).
 *
 * The analyzer recognises two anchored regular expressions over a rule name:
 *   mandatory:  ^(deny|violation)(_[a-zA-Z]+)*$
 *   advisory:   ^warn(_[a-zA-Z]+)*$
 * A rule matching neither is a library routine and is not a policy.
 *
 * The suffix language (_[a-zA-Z]+)* is decided here by a small two-state
 * matcher (MatchGroups / MatchLetters); GroupLanguage is the language as the
 * regular expression denotes it (a concatenation of groups), and
 * MatchGroupsIff proves the two agree.
 */
module RuleNames {
  import opened Wrappers
  import opened PolicyTypes

  predicate IsLetter(c: char) {
    ('a' <= c <= 'z') || ('A' <= c <= 'Z')
  }

  predicate AllLetters(s: string) {
    forall i :: 0 <= i < |s| ==> IsLetter(s[i])
  }

  /** The matcher, state "between groups": zero or more complete groups remain. */
  predicate MatchGroups(s: string)
    decreases |s|, 0
  {
    s == [] || (|s| >= 2 && s[0] == '_' && IsLetter(s[1]) && MatchLetters(s[2..]))
  }

  /** The matcher, state "inside a group after its first letter". */
  predicate MatchLetters(s: string)
    decreases |s|, 1
  {
    s == [] || (IsLetter(s[0]) && MatchLetters(s[1..])) || (s[0] == '_' && MatchGroups(s))
  }

  // ----- The regular language (_[a-zA-Z]+)* as the expression denotes it -----

  /** One group `_[a-zA-Z]+`. */
  ghost predicate IsGroup(g: string) {
    |g| >= 2 && g[0] == '_' && AllLetters(g[1..])
  }

  ghost predicate AllGroups(gs: seq<string>) {
    forall i :: 0 <= i < |gs| ==> IsGroup(gs[i])
  }

  function Concat(gs: seq<string>): string {
    if gs == [] then [] else gs[0] + Concat(gs[1..])
  }

  ghost predicate GroupLanguage(s: string) {
    exists gs :: AllGroups(gs) && Concat(gs) == s
  }

  // ----- The two patterns and the classification -----

  /** `^(deny|violation)(_[a-zA-Z]+)*$` */
  predicate IsMandatoryName(name: string) {
    (|name| >= 4 && name[..4] == "deny" && MatchGroups(name[4..]))
    || (|name| >= 9 && name[..9] == "violation" && MatchGroups(name[9..]))
  }

  /** `^warn(_[a-zA-Z]+)*$` */
  predicate IsAdvisoryName(name: string) {
    |name| >= 4 && name[..4] == "warn" && MatchGroups(name[4..])
  }

  /** The level a rule name is given, or None for a library rule. */
  function Classify(name: string): (r: Option<EnforcementLevel>)
    ensures r == Some(MandatoryRule) <==> IsMandatoryName(name)
    ensures r == Some(AdvisoryRule) <==> IsAdvisoryName(name)
    ensures r == None <==> !IsMandatoryName(name) && !IsAdvisoryName(name)
  {
    if IsMandatoryName(name) then Some(MandatoryRule)
    else if IsAdvisoryName(name) then Some(AdvisoryRule)
    else None
  }

  // ----- Lemmas -----

  /** The mandatory and advisory patterns never match the same name. */
  lemma PatternsDisjoint(name: string)
    ensures !(IsMandatoryName(name) && IsAdvisoryName(name))
  {
    if IsAdvisoryName(name) {
      assert name[0] == name[..4][0] == 'w';
    }
  }

  lemma {:induction false} ConcatAppend(g: string, gs: seq<string>)
    ensures Concat([g] + gs) == g + Concat(gs)
  {
    assert ([g] + gs)[1..] == gs;
  }

  /** A string accepted in the "inside a group" state is letters followed by groups. */
  lemma {:induction false} LettersWitness(s: string) returns (l: string, gs: seq<string>)
    requires MatchLetters(s)
    ensures AllLetters(l) && AllGroups(gs) && s == l + Concat(gs)
    decreases |s|, 1
  {
    if s == [] {
      l, gs := [], [];
    } else if IsLetter(s[0]) && MatchLetters(s[1..]) {
      var l', gs' := LettersWitness(s[1..]);
      l, gs := [s[0]] + l', gs';
      assert s == [s[0]] + s[1..];
    } else {
      gs := GroupsWitness(s);
      l := [];
    }
  }

  /** A string accepted in the "between groups" state is a concatenation of groups. */
  lemma {:induction false} GroupsWitness(s: string) returns (gs: seq<string>)
    requires MatchGroups(s)
    ensures AllGroups(gs) && Concat(gs) == s
    decreases |s|, 0
  {
    if s == [] {
      gs := [];
    } else {
      var l, rest := LettersWitness(s[2..]);
      var g := s[..2] + l;
      assert g[1..] == [s[1]] + l;
      assert IsGroup(g);
      gs := [g] + rest;
      ConcatAppend(g, rest);
      assert s == s[..2] + s[2..];
    }
  }

  /** Letters followed by something accepted between groups is accepted inside a group. */
  lemma {:induction false} LettersThenGroups(l: string, rest: string)
    requires AllLetters(l) && MatchGroups(rest)
    ensures MatchLetters(l + rest)
    decreases |l|
  {
    if l == [] {
      assert l + rest == rest;
    } else {
      LettersThenGroups(l[1..], rest);
      assert (l + rest)[1..] == l[1..] + rest;
    }
  }

  lemma {:induction false} ConcatMatches(gs: seq<string>)
    requires AllGroups(gs)
    ensures MatchGroups(Concat(gs))
  {
    if gs != [] {
      var g := gs[0];
      ConcatMatches(gs[1..]);
      LettersThenGroups(g[2..], Concat(gs[1..]));
      var s := Concat(gs);
      assert s == g + Concat(gs[1..]);
      assert s[2..] == g[2..] + Concat(gs[1..]);
    }
  }

  /** The matcher decides exactly the language (_[a-zA-Z]+)*. */
  lemma MatchGroupsIff(s: string)
    ensures MatchGroups(s) <==> GroupLanguage(s)
  {
    if MatchGroups(s) {
      var gs := GroupsWitness(s);
    }
    if GroupLanguage(s) {
      var gs :| AllGroups(gs) && Concat(gs) == s;
      ConcatMatches(gs);
    }
  }

  /** Classification against the regular expression: Mandatory exactly for
      `deny` or `violation` followed by a word of (_[a-zA-Z]+)*. */
  lemma MandatoryIff(name: string)
    ensures Classify(name) == Some(MandatoryRule) <==>
      exists prefix, suffix ::
        (prefix == "deny" || prefix == "violation") && GroupLanguage(suffix) && name == prefix + suffix
  {
    if IsMandatoryName(name) {
      var p := if |name| >= 4 && name[..4] == "deny" && MatchGroups(name[4..]) then "deny" else "violation";
      MatchGroupsIff(name[|p|..]);
      assert name == p + name[|p|..];
    }
    if exists prefix, suffix ::
        (prefix == "deny" || prefix == "violation") && GroupLanguage(suffix) && name == prefix + suffix
    {
      var prefix, suffix :| (prefix == "deny" || prefix == "violation") && GroupLanguage(suffix) && name == prefix + suffix;
      MatchGroupsIff(suffix);
      assert name[..|prefix|] == prefix && name[|prefix|..] == suffix;
    }
  }

  /** Advisory exactly for `warn` followed by a word of (_[a-zA-Z]+)*. */
  lemma AdvisoryIff(name: string)
    ensures Classify(name) == Some(AdvisoryRule) <==>
      exists suffix :: GroupLanguage(suffix) && name == "warn" + suffix
  {
    if IsAdvisoryName(name) {
      MatchGroupsIff(name[4..]);
      assert name == "warn" + name[4..];
    }
    if exists suffix :: GroupLanguage(suffix) && name == "warn" + suffix {
      var suffix :| GroupLanguage(suffix) && name == "warn" + suffix;
      MatchGroupsIff(suffix);
      assert name[..4] == "warn" && name[4..] == suffix;
      PatternsDisjoint(name);
    }
  }

  /** Bare prefixes are policies. */
  lemma BarePrefixExamples()
    ensures Classify("deny") == Some(MandatoryRule)
    ensures Classify("violation") == Some(MandatoryRule)
    ensures Classify("warn") == Some(AdvisoryRule)
  {
    assert "deny"[..4] == "deny" && "deny"[4..] == [];
    assert "violation"[..9] == "violation" && "violation"[9..] == [];
    assert "warn"[..4] == "warn" && "warn"[4..] == [];
  }

  /** A single group `_w` of letters is accepted between groups. */
  lemma SingleGroup(w: string)
    requires |w| >= 1 && AllLetters(w)
    ensures MatchGroups("_" + w)
  {
    LettersThenGroups(w[1..], []);
    assert ("_" + w)[2..] == w[1..] + [];
  }

  /** `deny` with one alphabetic group is Mandatory. */
  lemma DenySuffixExample()
    ensures Classify("deny_encryption") == Some(MandatoryRule)
  {
    SingleGroup("encryption");
    assert "deny_encryption" == "deny" + ("_" + "encryption");
  }

  /** `violation` with one alphabetic group is Mandatory. */
  lemma ViolationSuffixExample()
    ensures Classify("violation_tags") == Some(MandatoryRule)
  {
    SingleGroup("tags");
    assert "violation_tags" == "violation" + ("_" + "tags");
  }

  /** `warn` with one alphabetic group is Advisory. */
  lemma WarnSuffixExample()
    ensures Classify("warn_untagged") == Some(AdvisoryRule)
  {
    SingleGroup("untagged");
    assert "warn_untagged" == "warn" + ("_" + "untagged");
  }

  /** Near misses of the convention: library rules, not policies. */
  lemma NearMissExamples()
    ensures Classify("deny_1") == None
    ensures Classify("deny_") == None
    ensures Classify("denyAll") == None
    ensures Classify("deny_x2") == None
    ensures Classify("deny__x") == None
    ensures Classify("helper") == None
  {
    assert "deny_1"[..4] == "deny" && "deny_1"[4..] == "_1";
    assert "deny_"[..4] == "deny" && "deny_"[4..] == "_";
    assert "denyAll"[..4] == "deny" && "denyAll"[4..] == "All";
    assert "deny_x2"[..4] == "deny" && "deny_x2"[4..] == "_x2";
    assert !MatchLetters("2");
    assert "deny__x"[..4] == "deny" && "deny__x"[4..] == "__x";
    assert "helper"[..4] == "help";
  }
}
