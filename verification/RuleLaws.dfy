/** Which policies are accepted, spelt out: crates/bugwarden-core/src/policy.rs, `validate` as documented. */
module RuleLaws {
  import opened Prelude
  import opened Policy
  import Text

  /** A name that says something, and is not one the engine answers with itself. */
  ghost predicate Nameable(name: string) {
    && (exists i :: 0 <= i < |name| && !Text.White(name[i]))
    && name !in {"default", "min_bug_age_days", "unavailable"}
    && forall stem :: name != stem + ":unreadable-metadata"
  }

  /** Every capability a restrict rule hands out can be asked for in its scope: filing where it covers filing, the rest where it covers access. */
  predicate Askable(caps: seq<Capability>, ops: seq<Operation>) {
    forall c :: c in caps ==> (if c == Create then Creating else Accessing) in ops
  }

  ghost predicate Acceptable(r: Rule) {
    && Nameable(r.name)
    && (r.action == Restrict <==> r.capabilities != [])
    && match r.operations
       case None => true
       case Some(ops) => ops != [] && Askable(r.capabilities, ops)
  }

  lemma SuffixExactly(name: string, suffix: string)
    ensures EndsWith(name, suffix) <==> exists stem :: name == stem + suffix
  {
    if EndsWith(name, suffix) {
      assert name == name[..|name| - |suffix|] + suffix;
    }
  }

  lemma BlankExactly(s: string)
    ensures Text.Trim(Text.White, s) == [] <==> forall i :: 0 <= i < |s| ==> Text.White(s[i])
  {
    var i, j := Text.TrimShape(Text.White, s);
    if forall k :: 0 <= k < |s| ==> Text.White(s[k]) {
      assert i == j;
    }
  }

  lemma ScopeExactly(r: Rule)
    requires r.action == Restrict && r.capabilities != [] && r.operations.Some? && r.operations.value != []
    ensures ScopeAgrees(r) <==> Askable(r.capabilities, r.operations.value)
  {
    var ops, c := r.operations.value, r.capabilities[0];
    assert c in r.capabilities;
    assert ops[0] in ops && (ops[0] == Creating || ops[0] == Accessing);
  }

  /** A rule is accepted exactly when it is so named, and hands out nothing that could never be asked of it. */
  lemma RuleExactly(r: Rule)
    ensures RuleOk(r) <==> Acceptable(r)
  {
    BlankExactly(r.name);
    SuffixExactly(r.name, ":unreadable-metadata");
    if r.action == Restrict && r.capabilities != [] && r.operations.Some? && r.operations.value != [] {
      ScopeExactly(r);
    }
  }

  /** A policy is accepted exactly when its default is not to restrict, its identity is declared if it says so, and its rules are acceptable and told apart by name. */
  lemma PolicyExactly(p: Policy)
    ensures WellFormed(p) <==>
      && p.defaultAction != Restrict
      && (p.identitySource == Declared <==>
            p.identityLogin.Some? && exists i :: 0 <= i < |p.identityLogin.value| && !Text.White(p.identityLogin.value[i]))
      && (forall r :: r in p.rules ==> Acceptable(r))
      && forall i, j :: 0 <= i < j < |p.rules| ==> p.rules[i].name != p.rules[j].name
  {
    if p.identityLogin.Some? {
      BlankExactly(p.identityLogin.value);
    }
    forall r
      ensures RuleOk(r) <==> Acceptable(r)
    {
      RuleExactly(r);
    }
  }
}
