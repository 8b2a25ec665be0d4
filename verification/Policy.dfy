/** The policy engine: crates/bugwarden-core/src/policy.rs. */
module Policy {
  import opened Prelude
  import Text
  import Glob

  datatype Capability =
    | Read | Summary | Comments | History | Attachments
    | Comment | Status | Fields | Assign | Cc | Deps | Create | Attach

  const ALL_CAPABILITIES: set<Capability> :=
    {Read, Summary, Comments, History, Attachments, Comment, Status, Fields, Assign, Cc, Deps, Create, Attach}

  predicate IsWrite(c: Capability) {
    c.Comment? || c.Status? || c.Fields? || c.Assign? || c.Cc? || c.Deps? || c.Create? || c.Attach?
  }

  /** Instants, in any fixed unit. */
  type Time = int

  /**
   * What the engine takes from elsewhere: Unicode lowercasing, the cutoff
   * `now - days` (absent when it cannot be represented), RFC 3339 parsing.
   */
  datatype World = World(
    lower: string -> string,
    cutoff: (Time, int) -> Option<Time>,
    parseTime: string -> Option<Time>)

  /** The fields a bug is classified on; `None` means unknown, never empty. */
  datatype BugMeta = BugMeta(
    summary: Option<string>,
    product: Option<string>,
    components: Option<seq<string>>,
    status: Option<string>,
    severity: Option<string>,
    priority: Option<string>,
    keywords: Option<seq<string>>,
    groups: Option<seq<string>>,
    whiteboard: Option<string>,
    creationTime: Option<Time>,
    createdByMe: Option<bool>)

  datatype Matcher = Matcher(
    products: seq<string>,
    components: seq<string>,
    groups: seq<string>,
    keywords: seq<string>,
    statuses: seq<string>,
    severities: seq<string>,
    priorities: seq<string>,
    whiteboardContains: seq<string>,
    summaryContains: seq<string>,
    groupRestricted: Option<bool>,
    createdByMe: Option<bool>,
    youngerThanDays: Option<int>)

  datatype MatchOutcome = Yes | No | Unknown

  // ----- criteria -----

  predicate AnyGlob(w: World, patterns: seq<string>, value: string) {
    exists i :: 0 <= i < |patterns| && Glob.Matches(w.lower, patterns[i], value)
  }

  predicate AnyGlobMulti(w: World, patterns: seq<string>, values: seq<string>) {
    exists j :: 0 <= j < |values| && AnyGlob(w, patterns, values[j])
  }

  predicate Contains(hay: string, needle: string) {
    exists i :: 0 <= i <= |hay| && needle <= hay[i..]
  }

  predicate ContainsAny(w: World, needles: seq<string>, hay: string) {
    exists i :: 0 <= i < |needles| && Contains(w.lower(hay), w.lower(needles[i]))
  }

  function Definite(holds: bool): MatchOutcome {
    if holds then Yes else No
  }

  /** A glob list against a single-valued field. */
  function OneValue(w: World, patterns: seq<string>, value: Option<string>): MatchOutcome {
    if patterns == [] then Yes
    else match value
      case None => Unknown
      case Some(v) => Definite(AnyGlob(w, patterns, v))
  }

  /** A glob list against any element of a list field. */
  function ListValue(w: World, patterns: seq<string>, values: Option<seq<string>>): MatchOutcome {
    if patterns == [] then Yes
    else match values
      case None => Unknown
      case Some(vs) => Definite(AnyGlobMulti(w, patterns, vs))
  }

  /** Substrings searched in free text. */
  function TextValue(w: World, needles: seq<string>, text: Option<string>): MatchOutcome {
    if needles == [] then Yes
    else match text
      case None => Unknown
      case Some(t) => Definite(ContainsAny(w, needles, t))
  }

  function Restricted(want: Option<bool>, groups: Option<seq<string>>): MatchOutcome {
    if want.None? then Yes
    else if groups.None? then Unknown
    else Definite((groups.value != []) == want.value)
  }

  function Mine(want: Option<bool>, mine: Option<bool>): MatchOutcome {
    if want.None? then Yes
    else if mine.None? then Unknown
    else Definite(mine.value == want.value)
  }

  function Younger(w: World, days: Option<int>, created: Option<Time>, now: Time): MatchOutcome {
    if days.None? then Yes
    else if created.None? then Unknown
    else match w.cutoff(now, days.value)
      case None => Yes
      case Some(cutoff) => Definite(created.value > cutoff)
  }

  function Singles(m: Matcher, bug: BugMeta): seq<(seq<string>, Option<string>)> {
    [(m.products, bug.product), (m.statuses, bug.status), (m.severities, bug.severity), (m.priorities, bug.priority)]
  }

  function Lists(m: Matcher, bug: BugMeta): seq<(seq<string>, Option<seq<string>>)> {
    [(m.components, bug.components), (m.groups, bug.groups), (m.keywords, bug.keywords)]
  }

  function Texts(m: Matcher, bug: BugMeta): seq<(seq<string>, Option<string>)> {
    [(m.whiteboardContains, bug.whiteboard), (m.summaryContains, bug.summary)]
  }

  function SingleOutcomes(w: World, pairs: seq<(seq<string>, Option<string>)>): (r: seq<MatchOutcome>)
    ensures |r| == |pairs| && forall i :: 0 <= i < |pairs| ==> r[i] == OneValue(w, pairs[i].0, pairs[i].1)
  {
    seq(|pairs|, i requires 0 <= i < |pairs| => OneValue(w, pairs[i].0, pairs[i].1))
  }

  function ListOutcomes(w: World, pairs: seq<(seq<string>, Option<seq<string>>)>): (r: seq<MatchOutcome>)
    ensures |r| == |pairs| && forall i :: 0 <= i < |pairs| ==> r[i] == ListValue(w, pairs[i].0, pairs[i].1)
  {
    seq(|pairs|, i requires 0 <= i < |pairs| => ListValue(w, pairs[i].0, pairs[i].1))
  }

  function TextOutcomes(w: World, pairs: seq<(seq<string>, Option<string>)>): (r: seq<MatchOutcome>)
    ensures |r| == |pairs| && forall i :: 0 <= i < |pairs| ==> r[i] == TextValue(w, pairs[i].0, pairs[i].1)
  {
    seq(|pairs|, i requires 0 <= i < |pairs| => TextValue(w, pairs[i].0, pairs[i].1))
  }

  /** The criteria that are not lists. */
  function Flags(m: Matcher, bug: BugMeta, now: Time, w: World): seq<MatchOutcome> {
    [Restricted(m.groupRestricted, bug.groups), Mine(m.createdByMe, bug.createdByMe),
     Younger(w, m.youngerThanDays, bug.creationTime, now)]
  }

  /** One outcome per criterion, in the order they are looked at. */
  function Criteria(m: Matcher, bug: BugMeta, now: Time, w: World): seq<MatchOutcome> {
    SingleOutcomes(w, Singles(m, bug)) + ListOutcomes(w, Lists(m, bug)) + TextOutcomes(w, Texts(m, bug))
    + Flags(m, bug, now, w)
  }

  /** A definite No wins over everything, an unknown over every Yes. */
  function Combine(cs: seq<MatchOutcome>): MatchOutcome {
    if No in cs then No else if Unknown in cs then Unknown else Yes
  }

  function Outcome(m: Matcher, bug: BugMeta, now: Time, w: World): MatchOutcome {
    Combine(Criteria(m, bug, now, w))
  }

  // ----- evaluation -----

  method MatchesAny(w: World, patterns: seq<string>, value: string) returns (found: bool)
    ensures found <==> AnyGlob(w, patterns, value)
  {
    for i := 0 to |patterns|
      invariant forall j :: 0 <= j < i ==> !Glob.Matches(w.lower, patterns[j], value)
    {
      var hit := Glob.GlobMatch(w.lower, patterns[i], value);
      if hit {
        return true;
      }
    }
    return false;
  }

  method MatchesAnyOf(w: World, patterns: seq<string>, values: seq<string>) returns (found: bool)
    ensures found <==> AnyGlobMulti(w, patterns, values)
  {
    for j := 0 to |values|
      invariant forall k :: 0 <= k < j ==> !AnyGlob(w, patterns, values[k])
    {
      var hit := MatchesAny(w, patterns, values[j]);
      if hit {
        return true;
      }
    }
    return false;
  }

  /** `Matcher::evaluate`, globs against a single value. */
  method ScanSingles(w: World, pairs: seq<(seq<string>, Option<string>)>) returns (outcome: MatchOutcome)
    ensures outcome == Combine(SingleOutcomes(w, pairs))
  {
    var unknown := false;
    ghost var cs := SingleOutcomes(w, pairs);
    for i := 0 to |pairs|
      invariant No !in cs[..i] && (unknown <==> Unknown in cs[..i])
    {
      var (patterns, value) := pairs[i];
      assert cs[..i + 1] == cs[..i] + [cs[i]];
      if patterns != [] {
        match value
        case None => unknown := true;
        case Some(v) =>
          var hit := MatchesAny(w, patterns, v);
          if !hit {
            assert cs[i] == No;
            return No;
          }
      }
    }
    assert cs[..|pairs|] == cs;
    outcome := if unknown then Unknown else Yes;
  }

  /** Globs against any element of a list. */
  method ScanLists(w: World, pairs: seq<(seq<string>, Option<seq<string>>)>) returns (outcome: MatchOutcome)
    ensures outcome == Combine(ListOutcomes(w, pairs))
  {
    var unknown := false;
    ghost var cs := ListOutcomes(w, pairs);
    for i := 0 to |pairs|
      invariant No !in cs[..i] && (unknown <==> Unknown in cs[..i])
    {
      var (patterns, value) := pairs[i];
      assert cs[..i + 1] == cs[..i] + [cs[i]];
      if patterns != [] {
        match value
        case None => unknown := true;
        case Some(v) =>
          var hit := MatchesAnyOf(w, patterns, v);
          if !hit {
            assert cs[i] == No;
            return No;
          }
      }
    }
    assert cs[..|pairs|] == cs;
    outcome := if unknown then Unknown else Yes;
  }

  /** Substring searches in free text. */
  method ScanTexts(w: World, pairs: seq<(seq<string>, Option<string>)>) returns (outcome: MatchOutcome)
    ensures outcome == Combine(TextOutcomes(w, pairs))
  {
    var unknown := false;
    ghost var cs := TextOutcomes(w, pairs);
    for i := 0 to |pairs|
      invariant No !in cs[..i] && (unknown <==> Unknown in cs[..i])
    {
      var (patterns, value) := pairs[i];
      assert cs[..i + 1] == cs[..i] + [cs[i]];
      if patterns != [] {
        match value
        case None => unknown := true;
        case Some(v) =>
          var hit := ContainsAny(w, patterns, v);
          if !hit {
            assert cs[i] == No;
            return No;
          }
      }
    }
    assert cs[..|pairs|] == cs;
    outcome := if unknown then Unknown else Yes;
  }

  /** `Matcher::evaluate`: group by group, leaving at the first definite No. */
  method Evaluate(m: Matcher, bug: BugMeta, now: Time, w: World) returns (outcome: MatchOutcome)
    ensures outcome == Outcome(m, bug, now, w)
  {
    var singles := ScanSingles(w, Singles(m, bug));
    var lists := ScanLists(w, Lists(m, bug));
    var texts := ScanTexts(w, Texts(m, bug));
    ghost var flags := Flags(m, bug, now, w);
    if singles == No || lists == No || texts == No {
      return No;
    }
    var unknown := singles == Unknown || lists == Unknown || texts == Unknown;

    if m.groupRestricted.Some? {
      match bug.groups
      case None => unknown := true;
      case Some(groups) =>
        if (groups != []) != m.groupRestricted.value {
          assert flags[0] == No;
          return No;
        }
    }
    if m.createdByMe.Some? {
      match bug.createdByMe
      case None => unknown := true;
      case Some(mine) =>
        if mine != m.createdByMe.value {
          assert flags[1] == No;
          return No;
        }
    }
    if m.youngerThanDays.Some? {
      match bug.creationTime
      case None => unknown := true;
      case Some(created) =>
        var cutoff := w.cutoff(now, m.youngerThanDays.value);
        if cutoff.Some? && created <= cutoff.value {
          assert flags[2] == No;
          return No;
        }
    }
    outcome := if unknown then Unknown else Yes;
  }

  // ----- rules and policies -----

  datatype Action = Allow | Deny | Restrict

  datatype Operation = Creating | Accessing

  datatype Rule = Rule(
    name: string,
    matcher: Matcher,
    action: Action,
    capabilities: seq<Capability>,
    operations: Option<seq<Operation>>)

  datatype IdentitySource = Whoami | Declared

  datatype Policy = Policy(
    defaultAction: Action,
    minBugAgeDays: int,
    readOnly: bool,
    identitySource: IdentitySource,
    identityLogin: Option<string>,
    rules: seq<Rule>)

  datatype Access = Denied(rule: string) | Granted(caps: set<Capability>, rule: string)

  /** `Access::allows`: `read` implies `summary`, and nothing else is implied. */
  predicate Allows(a: Access, cap: Capability) {
    a.Granted? && (cap in a.caps || (cap == Summary && Read in a.caps))
  }

  /** `Rule::applies_to`; a written but empty list reads as unscoped. */
  predicate AppliesTo(r: Rule, op: Operation) {
    r.operations.None? || r.operations.value == [] || op in r.operations.value
  }

  /** `Policy::needs_identity`. */
  predicate NeedsIdentity(p: Policy) {
    exists i :: 0 <= i < |p.rules| && AppliesTo(p.rules[i], Accessing) && p.rules[i].matcher.createdByMe.Some?
  }

  const RULE_DEFAULT := "default"
  const RULE_MIN_BUG_AGE_DAYS := "min_bug_age_days"
  const RULE_UNAVAILABLE := "unavailable"
  const UNREADABLE_METADATA_SUFFIX := ":unreadable-metadata"

  const RESERVED_RULE_NAMES: set<string> := {RULE_DEFAULT, RULE_MIN_BUG_AGE_DAYS, RULE_UNAVAILABLE}

  function Grant(p: Policy, caps: set<Capability>, rule: string): Access {
    Granted(if p.readOnly then set c | c in caps && !IsWrite(c) else caps, rule)
  }

  predicate TooYoung(p: Policy, bug: BugMeta, now: Time, w: World) {
    p.minBugAgeDays > 0 &&
    match (bug.creationTime, w.cutoff(now, p.minBugAgeDays))
      case (Some(created), Some(cutoff)) => created > cutoff
      case _ => true
  }

  function SetOf(caps: seq<Capability>): set<Capability> {
    set c | c in caps
  }

  /** The walk over the rules left: the first one in scope that is not ruled out decides. */
  function ClassifyRules(p: Policy, rules: seq<Rule>, bug: BugMeta, now: Time, op: Operation, w: World): Access {
    if rules == [] then
      (match p.defaultAction
       case Allow => Grant(p, ALL_CAPABILITIES, RULE_DEFAULT)
       case _ => Denied(RULE_DEFAULT))
    else
      var r := rules[0];
      if !AppliesTo(r, op) then ClassifyRules(p, rules[1..], bug, now, op, w)
      else match Outcome(r.matcher, bug, now, w)
        case No => ClassifyRules(p, rules[1..], bug, now, op, w)
        case Yes =>
          (match r.action
           case Deny => Denied(r.name)
           case Allow => Grant(p, ALL_CAPABILITIES, r.name)
           case Restrict => Grant(p, SetOf(r.capabilities), r.name))
        case Unknown =>
          if r.action.Deny? then Denied(r.name) else Denied(r.name + UNREADABLE_METADATA_SUFFIX)
  }

  /** `Policy::classify`. */
  function Classify(p: Policy, bug: BugMeta, now: Time, op: Operation, w: World): Access {
    if TooYoung(p, bug, now, w) then Denied(RULE_MIN_BUG_AGE_DAYS)
    else ClassifyRules(p, p.rules, bug, now, op, w)
  }

  // ----- validation -----

  predicate EndsWith(s: string, suffix: string) {
    |suffix| <= |s| && s[|s| - |suffix|..] == suffix
  }

  predicate NameOk(name: string) {
    && Text.Trim(Text.White, name) != []
    && name !in RESERVED_RULE_NAMES
    && !EndsWith(name, UNREADABLE_METADATA_SUFFIX)
  }

  /** A restrict rule's scope and capability list must agree about filing bugs. */
  predicate ScopeAgrees(r: Rule) {
    r.operations.Some? && r.action.Restrict? ==>
      var ops := r.operations.value;
      && (Creating in ops && Accessing !in ops ==>
            Create in r.capabilities && forall c :: c in r.capabilities ==> c == Create)
      && (Accessing in ops && Creating !in ops ==> Create !in r.capabilities)
  }

  predicate RuleOk(r: Rule) {
    && NameOk(r.name)
    && (r.action.Restrict? <==> r.capabilities != [])
    && r.operations != Some([])
    && ScopeAgrees(r)
  }

  predicate BlankLogin(p: Policy) {
    p.identityLogin.None? || Text.Trim(Text.White, p.identityLogin.value) == []
  }

  /** The checks of `Policy::validate`, as far as the first `n` rules go. */
  ghost predicate WellFormedUpTo(p: Policy, n: nat)
    requires n <= |p.rules|
  {
    && !p.defaultAction.Restrict?
    && (p.identitySource.Declared? <==> !BlankLogin(p))
    && (forall i :: 0 <= i < n ==> RuleOk(p.rules[i]))
    && DistinctNames(p, n)
  }

  ghost predicate DistinctNames(p: Policy, n: nat)
    requires n <= |p.rules|
  {
    forall i, j :: 0 <= i < j < n ==> p.rules[i].name != p.rules[j].name
  }

  ghost predicate WellFormed(p: Policy) {
    WellFormedUpTo(p, |p.rules|)
  }

  datatype Invalid = BadDefault | BadIdentity | BadRule(index: nat)

  /** The scope checks on a rule that writes `operations`. */
  method CheckScope(r: Rule) returns (ok: bool)
    ensures ok <==> r.operations != Some([]) && ScopeAgrees(r)
  {
    if r.operations.None? {
      return true;
    }
    var ops := r.operations.value;
    if ops == [] {
      return false;
    }
    if r.action == Restrict {
      var coversCreate, coversAccess := Creating in ops, Accessing in ops;
      var grantsCreate := Create in r.capabilities;
      if coversCreate && !coversAccess {
        if !grantsCreate {
          return false;
        }
        if exists c :: c in r.capabilities && c != Create {
          return false;
        }
      }
      if coversAccess && !coversCreate && grantsCreate {
        return false;
      }
    }
    return true;
  }

  /** The checks on one rule that look at no other rule. */
  method CheckRule(r: Rule) returns (ok: bool)
    ensures ok <==> RuleOk(r)
  {
    if !NameOk(r.name) {
      return false;
    }
    if (r.action == Restrict && r.capabilities == []) || (r.action != Restrict && r.capabilities != []) {
      return false;
    }
    ok := CheckScope(r);
  }

  lemma NextName(p: Policy, i: nat)
    requires i < |p.rules| && DistinctNames(p, i)
    ensures DistinctNames(p, i + 1) <==> !NameTaken(p, i, p.rules[i].name)
  {
  }

  /** Some rule before `n` carries `name`. */
  ghost predicate NameTaken(p: Policy, n: nat, name: string)
    requires n <= |p.rules|
  {
    exists j :: 0 <= j < n && p.rules[j].name == name
  }

  /** `Policy::validate`: the checks in the order they are made, rule by rule. */
  method Validate(p: Policy) returns (verdict: Result<(), Invalid>)
    ensures verdict.Ok? <==> WellFormed(p)
    ensures verdict.Err? && verdict.error.BadRule? ==>
              var i := verdict.error.index;
              i < |p.rules| && WellFormedUpTo(p, i) && !WellFormedUpTo(p, i + 1)
  {
    if p.defaultAction == Restrict {
      return Err(BadDefault);
    }
    var blank := BlankLogin(p);
    if (p.identitySource == Declared && blank) || (p.identitySource == Whoami && !blank) {
      return Err(BadIdentity);
    }
    var seenNames: set<string> := {};
    var i := 0;
    while i < |p.rules|
      invariant i <= |p.rules| && WellFormedUpTo(p, i)
      invariant forall n :: n in seenNames <==> NameTaken(p, i, n)
    {
      var ok := CheckRule(p.rules[i]);
      NextName(p, i);
      if !ok || p.rules[i].name in seenNames {
        return Err(BadRule(i));
      }
      seenNames := seenNames + {p.rules[i].name};
      i := i + 1;
    }
    return Ok(());
  }
}
