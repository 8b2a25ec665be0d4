/**
 * What a policy says of any bug, fully read or not, spelt out criterion by
 * criterion: crates/bugwarden-core/src/policy.rs, as its documentation has it.
 */
module PolicyExact {
  import opened Prelude
  import opened Policy
  import Glob
  import PolicyLaws

  // ----- one criterion -----

  /** Some pattern covers the value, both in lower case. */
  ghost predicate Covered(w: World, patterns: seq<string>, value: string) {
    exists i :: 0 <= i < |patterns| && Glob.Covers(w.lower(patterns[i]), w.lower(value))
  }

  /** Some pattern covers one of the values. */
  ghost predicate OneCovered(w: World, patterns: seq<string>, values: seq<string>) {
    exists j :: 0 <= j < |values| && Covered(w, patterns, values[j])
  }

  /** `part` is somewhere in `s`. */
  ghost predicate Holds(s: string, part: string) {
    exists a, b :: s == a + part + b
  }

  /** Some needle is in the text, both in lower case. */
  ghost predicate Mentions(w: World, needles: seq<string>, text: string) {
    exists i :: 0 <= i < |needles| && Holds(w.lower(text), w.lower(needles[i]))
  }

  lemma GlobsAreCovers(w: World, patterns: seq<string>, value: string)
    ensures AnyGlob(w, patterns, value) <==> Covered(w, patterns, value)
  {
    forall i | 0 <= i < |patterns|
      ensures Glob.Matches(w.lower, patterns[i], value) == Glob.Covers(w.lower(patterns[i]), w.lower(value))
    {
    }
  }

  lemma ListGlobsAreCovers(w: World, patterns: seq<string>, values: seq<string>)
    ensures AnyGlobMulti(w, patterns, values) <==> OneCovered(w, patterns, values)
  {
    forall j | 0 <= j < |values|
      ensures AnyGlob(w, patterns, values[j]) <==> Covered(w, patterns, values[j])
    {
      GlobsAreCovers(w, patterns, values[j]);
    }
  }

  lemma ContainsIsHolds(s: string, part: string)
    ensures Contains(s, part) <==> Holds(s, part)
  {
    if Contains(s, part) {
      var i :| 0 <= i <= |s| && part <= s[i..];
      assert s == s[..i] + part + s[i + |part|..];
    }
    if Holds(s, part) {
      var a, b :| s == a + part + b;
      assert s[|a|..] == part + b;
    }
  }

  lemma TextsAreMentions(w: World, needles: seq<string>, text: string)
    ensures ContainsAny(w, needles, text) <==> Mentions(w, needles, text)
  {
    forall i | 0 <= i < |needles|
      ensures Contains(w.lower(text), w.lower(needles[i])) <==> Holds(w.lower(text), w.lower(needles[i]))
    {
      ContainsIsHolds(w.lower(text), w.lower(needles[i]));
    }
  }

  // ----- all of them -----

  /** A criterion the rule sets is not met by what was read. */
  ghost predicate Fails(m: Matcher, b: BugMeta, now: Time, w: World) {
    SinglesFail(m, b, w) || ListsFail(m, b, w) || TextsFail(m, b, w) || FlagsFail(m, b, now, w)
  }

  ghost predicate SinglesFail(m: Matcher, b: BugMeta, w: World) {
    || (m.products != [] && b.product.Some? && !Covered(w, m.products, b.product.value))
    || (m.statuses != [] && b.status.Some? && !Covered(w, m.statuses, b.status.value))
    || (m.severities != [] && b.severity.Some? && !Covered(w, m.severities, b.severity.value))
    || (m.priorities != [] && b.priority.Some? && !Covered(w, m.priorities, b.priority.value))
  }

  ghost predicate ListsFail(m: Matcher, b: BugMeta, w: World) {
    || (m.components != [] && b.components.Some? && !OneCovered(w, m.components, b.components.value))
    || (m.groups != [] && b.groups.Some? && !OneCovered(w, m.groups, b.groups.value))
    || (m.keywords != [] && b.keywords.Some? && !OneCovered(w, m.keywords, b.keywords.value))
  }

  ghost predicate TextsFail(m: Matcher, b: BugMeta, w: World) {
    || (m.whiteboardContains != [] && b.whiteboard.Some? && !Mentions(w, m.whiteboardContains, b.whiteboard.value))
    || (m.summaryContains != [] && b.summary.Some? && !Mentions(w, m.summaryContains, b.summary.value))
  }

  predicate FlagsFail(m: Matcher, b: BugMeta, now: Time, w: World) {
    || (m.groupRestricted.Some? && b.groups.Some? && (b.groups.value != []) != m.groupRestricted.value)
    || (m.createdByMe.Some? && b.createdByMe.Some? && b.createdByMe.value != m.createdByMe.value)
    || (m.youngerThanDays.Some? && b.creationTime.Some? && w.cutoff(now, m.youngerThanDays.value).Some?
        && b.creationTime.value <= w.cutoff(now, m.youngerThanDays.value).value)
  }

  /** A criterion the rule sets is about a field that could not be read. */
  predicate Unread(m: Matcher, b: BugMeta) {
    SinglesUnread(m, b) || ListsUnread(m, b) || TextsUnread(m, b) || FlagsUnread(m, b)
  }

  predicate SinglesUnread(m: Matcher, b: BugMeta) {
    || (m.products != [] && b.product.None?) || (m.statuses != [] && b.status.None?)
    || (m.severities != [] && b.severity.None?) || (m.priorities != [] && b.priority.None?)
  }

  predicate ListsUnread(m: Matcher, b: BugMeta) {
    || (m.components != [] && b.components.None?) || (m.groups != [] && b.groups.None?)
    || (m.keywords != [] && b.keywords.None?)
  }

  predicate TextsUnread(m: Matcher, b: BugMeta) {
    || (m.whiteboardContains != [] && b.whiteboard.None?) || (m.summaryContains != [] && b.summary.None?)
  }

  predicate FlagsUnread(m: Matcher, b: BugMeta) {
    || (m.groupRestricted.Some? && b.groups.None?) || (m.createdByMe.Some? && b.createdByMe.None?)
    || (m.youngerThanDays.Some? && b.creationTime.None?)
  }

  /** Outcomes with a No among them exactly when something fails, an Unknown exactly when something is unread. */
  ghost predicate Tells(cs: seq<MatchOutcome>, fails: bool, unread: bool) {
    (No in cs <==> fails) && (Unknown in cs <==> unread)
  }

  lemma TellsTogether(a: seq<MatchOutcome>, b: seq<MatchOutcome>, f: bool, u: bool, g: bool, v: bool)
    requires Tells(a, f, u) && Tells(b, g, v)
    ensures Tells(a + b, f || g, u || v)
  {
  }

  lemma SinglesTell(m: Matcher, b: BugMeta, w: World)
    ensures Tells(SingleOutcomes(w, Singles(m, b)), SinglesFail(m, b, w), SinglesUnread(m, b))
  {
    var s := SingleOutcomes(w, Singles(m, b));
    assert s == [s[0], s[1], s[2], s[3]];
    forall patterns, value
      ensures AnyGlob(w, patterns, value) <==> Covered(w, patterns, value)
    {
      GlobsAreCovers(w, patterns, value);
    }
  }

  lemma ListsTell(m: Matcher, b: BugMeta, w: World)
    ensures Tells(ListOutcomes(w, Lists(m, b)), ListsFail(m, b, w), ListsUnread(m, b))
  {
    var l := ListOutcomes(w, Lists(m, b));
    assert l == [l[0], l[1], l[2]];
    forall patterns, values
      ensures AnyGlobMulti(w, patterns, values) <==> OneCovered(w, patterns, values)
    {
      ListGlobsAreCovers(w, patterns, values);
    }
  }

  lemma TextsTell(m: Matcher, b: BugMeta, w: World)
    ensures Tells(TextOutcomes(w, Texts(m, b)), TextsFail(m, b, w), TextsUnread(m, b))
  {
    var x := TextOutcomes(w, Texts(m, b));
    assert x == [x[0], x[1]];
    forall needles, text
      ensures ContainsAny(w, needles, text) <==> Mentions(w, needles, text)
    {
      TextsAreMentions(w, needles, text);
    }
  }

  lemma FlagsTell(m: Matcher, b: BugMeta, now: Time, w: World)
    ensures Tells(Flags(m, b, now, w), FlagsFail(m, b, now, w), FlagsUnread(m, b))
  {
  }

  /** The verdict on any bug: No when a criterion set fails, else unknown when one set is unread, else Yes. */
  lemma OutcomeExactly(m: Matcher, b: BugMeta, now: Time, w: World)
    ensures Outcome(m, b, now, w) == if Fails(m, b, now, w) then No else if Unread(m, b) then Unknown else Yes
  {
    SinglesTell(m, b, w);
    ListsTell(m, b, w);
    TextsTell(m, b, w);
    FlagsTell(m, b, now, w);
    var s, l, x := SingleOutcomes(w, Singles(m, b)), ListOutcomes(w, Lists(m, b)), TextOutcomes(w, Texts(m, b));
    var f1, f2, f3 := SinglesFail(m, b, w), ListsFail(m, b, w), TextsFail(m, b, w);
    var u1, u2, u3 := SinglesUnread(m, b), ListsUnread(m, b), TextsUnread(m, b);
    TellsTogether(s, l, f1, u1, f2, u2);
    TellsTogether(s + l, x, f1 || f2, u1 || u2, f3, u3);
    TellsTogether(s + l + x, Flags(m, b, now, w), f1 || f2 || f3, u1 || u2 || u3, FlagsFail(m, b, now, w), FlagsUnread(m, b));
  }

  // ----- what a rule does not ask about -----

  /** Two bugs that agree on every field the rule sets a criterion for. */
  predicate SameWhereAsked(m: Matcher, b: BugMeta, c: BugMeta) {
    && (m.products != [] ==> b.product == c.product) && (m.statuses != [] ==> b.status == c.status)
    && (m.severities != [] ==> b.severity == c.severity) && (m.priorities != [] ==> b.priority == c.priority)
    && (m.components != [] ==> b.components == c.components) && (m.keywords != [] ==> b.keywords == c.keywords)
    && (m.groups != [] || m.groupRestricted.Some? ==> b.groups == c.groups)
    && (m.whiteboardContains != [] ==> b.whiteboard == c.whiteboard)
    && (m.summaryContains != [] ==> b.summary == c.summary)
    && (m.createdByMe.Some? ==> b.createdByMe == c.createdByMe)
    && (m.youngerThanDays.Some? ==> b.creationTime == c.creationTime)
  }

  /** A field no criterion is about does not matter, read or not. */
  lemma UnaskedDoesNotMatter(m: Matcher, b: BugMeta, c: BugMeta, now: Time, w: World)
    requires SameWhereAsked(m, b, c)
    ensures Outcome(m, b, now, w) == Outcome(m, c, now, w)
  {
    OutcomeExactly(m, b, now, w);
    OutcomeExactly(m, c, now, w);
  }

  /** A rule all of whose fields are read decides. */
  lemma ReadDecides(m: Matcher, b: BugMeta, now: Time, w: World)
    requires !Unread(m, b)
    ensures Outcome(m, b, now, w) == if Fails(m, b, now, w) then No else Yes
  {
    OutcomeExactly(m, b, now, w);
  }

  // ----- the whole policy -----

  /** The rule is meant for this operation: it says so, or says nothing. */
  predicate MeantFor(r: Rule, op: Operation) {
    r.operations.None? || r.operations.value == [] || op in r.operations.value
  }

  /** The rule cannot be ruled out. */
  ghost predicate Stands(r: Rule, b: BugMeta, now: Time, op: Operation, w: World) {
    MeantFor(r, op) && !Fails(r.matcher, b, now, w)
  }

  ghost predicate FirstStanding(p: Policy, i: nat, b: BugMeta, now: Time, op: Operation, w: World)
    requires i <= |p.rules|
  {
    (i < |p.rules| ==> Stands(p.rules[i], b, now, op, w))
    && forall j :: 0 <= j < i ==> !Stands(p.rules[j], b, now, op, w)
  }

  predicate Changes(cap: Capability) {
    cap in {Comment, Status, Fields, Assign, Cc, Deps, Create, Attach}
  }

  /** What a rule hands out; reading a bug includes its summary. */
  predicate Hands(r: Rule, cap: Capability) {
    r.action == Allow || (r.action == Restrict && (cap in r.capabilities || (cap == Summary && Read in r.capabilities)))
  }

  /** Old enough, where the policy asks for an age; an age that cannot be told is none. */
  predicate OldEnough(p: Policy, b: BugMeta, now: Time, w: World) {
    p.minBugAgeDays <= 0
    || (b.creationTime.Some? && w.cutoff(now, p.minBugAgeDays).Some?
        && b.creationTime.value <= w.cutoff(now, p.minBugAgeDays).value)
  }

  /**
   * A capability on any bug: the bug is old enough, nothing is changed under
   * read-only, and the first rule that cannot be ruled out is one whose fields
   * were all read and which hands it out, or there is none and the default allows.
   */
  ghost predicate Permitted(p: Policy, b: BugMeta, now: Time, op: Operation, w: World, cap: Capability) {
    && OldEnough(p, b, now, w) && (p.readOnly ==> !Changes(cap))
    && exists i :: 0 <= i <= |p.rules| && FirstStanding(p, i, b, now, op, w)
                   && (if i < |p.rules| then !Unread(p.rules[i].matcher, b) && Hands(p.rules[i], cap) else p.defaultAction == Allow)
  }

  /** The walk is decided by its first rule if that stands, else goes on. */
  lemma HeadDecides(p: Policy, rules: seq<Rule>, b: BugMeta, now: Time, op: Operation, w: World, cap: Capability)
    requires rules != []
    ensures var r, allowed := rules[0], Allows(ClassifyRules(p, rules, b, now, op, w), cap);
      if Stands(r, b, now, op, w)
      then allowed <==> (p.readOnly ==> !Changes(cap)) && !Unread(r.matcher, b) && Hands(r, cap)
      else allowed <==> Allows(ClassifyRules(p, rules[1..], b, now, op, w), cap)
  {
    var r := rules[0];
    OutcomeExactly(r.matcher, b, now, w);
    PolicyLaws.GrantAllows(p, ALL_CAPABILITIES, r.name, cap);
    PolicyLaws.GrantAllows(p, SetOf(r.capabilities), r.name, cap);
  }

  /** The first rule that stands, and what the walk does when it gets there. */
  lemma {:induction false} WalkStopsAtFirstStanding(
      p: Policy, i: nat, b: BugMeta, now: Time, op: Operation, w: World, cap: Capability) returns (k: nat)
    requires i <= |p.rules|
    requires forall j :: 0 <= j < i ==> !Stands(p.rules[j], b, now, op, w)
    ensures k <= |p.rules| && FirstStanding(p, k, b, now, op, w)
    ensures Allows(ClassifyRules(p, p.rules[i..], b, now, op, w), cap)
        <==> (p.readOnly ==> !Changes(cap))
             && (if k < |p.rules| then !Unread(p.rules[k].matcher, b) && Hands(p.rules[k], cap) else p.defaultAction == Allow)
    decreases |p.rules| - i
  {
    k := i;
    if i == |p.rules| {
      PolicyLaws.GrantAllows(p, ALL_CAPABILITIES, RULE_DEFAULT, cap);
    } else {
      var r, rest := p.rules[i], p.rules[i..];
      assert rest[0] == r && rest[1..] == p.rules[i + 1..];
      HeadDecides(p, rest, b, now, op, w, cap);
      if !Stands(r, b, now, op, w) {
        k := WalkStopsAtFirstStanding(p, i + 1, b, now, op, w, cap);
      }
    }
  }

  lemma OneFirstStanding(p: Policy, i: nat, k: nat, b: BugMeta, now: Time, op: Operation, w: World)
    requires i <= |p.rules| && k <= |p.rules|
    requires FirstStanding(p, i, b, now, op, w) && FirstStanding(p, k, b, now, op, w)
    ensures i == k
  {
  }

  /** On any bug, read in full or in part, a capability is allowed exactly when the policy says so. */
  lemma AccessExactly(p: Policy, b: BugMeta, now: Time, op: Operation, w: World, cap: Capability)
    ensures Allows(Classify(p, b, now, op, w), cap) <==> Permitted(p, b, now, op, w, cap)
  {
    assert p.rules[0..] == p.rules;
    var k := WalkStopsAtFirstStanding(p, 0, b, now, op, w, cap);
    forall i | 0 <= i <= |p.rules| && FirstStanding(p, i, b, now, op, w)
      ensures i == k
    {
      OneFirstStanding(p, i, k, b, now, op, w);
    }
  }

  lemma {:induction false} RulesUnasked(p: Policy, rules: seq<Rule>, b: BugMeta, c: BugMeta, now: Time, op: Operation, w: World)
    requires forall r :: r in rules && MeantFor(r, op) ==> SameWhereAsked(r.matcher, b, c)
    ensures ClassifyRules(p, rules, b, now, op, w) == ClassifyRules(p, rules, c, now, op, w)
  {
    if rules != [] {
      RulesUnasked(p, rules[1..], b, c, now, op, w);
      if MeantFor(rules[0], op) {
        UnaskedDoesNotMatter(rules[0].matcher, b, c, now, w);
      }
    }
  }

  /** Nor does a field no rule in scope is about, nor the age gate, change a classification. */
  lemma ClassifyUnasked(p: Policy, b: BugMeta, c: BugMeta, now: Time, op: Operation, w: World)
    requires forall r :: r in p.rules && MeantFor(r, op) ==> SameWhereAsked(r.matcher, b, c)
    requires p.minBugAgeDays > 0 ==> b.creationTime == c.creationTime
    ensures Classify(p, b, now, op, w) == Classify(p, c, now, op, w)
  {
    RulesUnasked(p, p.rules, b, c, now, op, w);
  }

  /** The caller is asked for exactly when some rule on access is about who created the bug. */
  lemma IdentityAsked(p: Policy)
    ensures NeedsIdentity(p) <==> exists r :: r in p.rules && MeantFor(r, Accessing) && r.matcher.createdByMe.Some?
  {
    if r :| r in p.rules && MeantFor(r, Accessing) && r.matcher.createdByMe.Some? {
      var i :| 0 <= i < |p.rules| && p.rules[i] == r;
    }
  }
}
