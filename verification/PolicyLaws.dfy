/** What the policy engine promises over every policy and every bug. */
module PolicyLaws {
  import opened Prelude
  import opened Policy

  // ----- unknown never buys access -----

  ghost predicate Agrees<T>(b: Option<T>, c: Option<T>) {
    b.None? || b == c
  }

  /** `c` knows everything `b` knows, and possibly more. */
  ghost predicate Completes(b: BugMeta, c: BugMeta) {
    && Agrees(b.summary, c.summary) && Agrees(b.product, c.product) && Agrees(b.components, c.components)
    && Agrees(b.status, c.status) && Agrees(b.severity, c.severity) && Agrees(b.priority, c.priority)
    && Agrees(b.keywords, c.keywords) && Agrees(b.groups, c.groups) && Agrees(b.whiteboard, c.whiteboard)
    && Agrees(b.creationTime, c.creationTime) && Agrees(b.createdByMe, c.createdByMe)
  }

  /** Outcome by outcome, `d` stands by what `c` is definite about. */
  ghost predicate Firmer(c: seq<MatchOutcome>, d: seq<MatchOutcome>) {
    |c| == |d| && forall i :: 0 <= i < |c| && c[i] != Unknown ==> d[i] == c[i]
  }

  lemma FirmerTogether(a: seq<MatchOutcome>, b: seq<MatchOutcome>, c: seq<MatchOutcome>, d: seq<MatchOutcome>)
    requires Firmer(a, c) && Firmer(b, d)
    ensures Firmer(a + b, c + d)
  {
  }

  lemma CriteriaStable(m: Matcher, b: BugMeta, c: BugMeta, now: Time, w: World)
    requires Completes(b, c)
    ensures Firmer(Criteria(m, b, now, w), Criteria(m, c, now, w))
  {
    var s, t := SingleOutcomes(w, Singles(m, b)), SingleOutcomes(w, Singles(m, c));
    var l, k := ListOutcomes(w, Lists(m, b)), ListOutcomes(w, Lists(m, c));
    var x, y := TextOutcomes(w, Texts(m, b)), TextOutcomes(w, Texts(m, c));
    assert Firmer(s, t);
    assert Firmer(l, k);
    assert Firmer(x, y);
    FirmerTogether(s, l, t, k);
    FirmerTogether(s + l, x, t + k, y);
    FlagsStable(m, b, c, now, w);
    FirmerTogether(s + l + x, Flags(m, b, now, w), t + k + y, Flags(m, c, now, w));
  }

  lemma FlagsStable(m: Matcher, b: BugMeta, c: BugMeta, now: Time, w: World)
    requires Completes(b, c)
    ensures Firmer(Flags(m, b, now, w), Flags(m, c, now, w))
  {
  }

  /** A definite verdict on a partly read bug is the verdict on every completion of it. */
  lemma OutcomeStable(m: Matcher, b: BugMeta, c: BugMeta, now: Time, w: World)
    requires Completes(b, c) && Outcome(m, b, now, w) != Unknown
    ensures Outcome(m, c, now, w) == Outcome(m, b, now, w)
  {
    CriteriaStable(m, b, c, now, w);
    var before, after := Criteria(m, b, now, w), Criteria(m, c, now, w);
    if No in before {
      var i :| 0 <= i < |before| && before[i] == No;
      assert after[i] == No;
    } else {
      assert forall i :: 0 <= i < |before| ==> after[i] == before[i];
      assert after == before;
    }
  }

  /** A bug every field of which could be read. */
  predicate Complete(b: BugMeta) {
    && b.summary.Some? && b.product.Some? && b.components.Some? && b.status.Some? && b.severity.Some?
    && b.priority.Some? && b.keywords.Some? && b.groups.Some? && b.whiteboard.Some?
    && b.creationTime.Some? && b.createdByMe.Some?
  }

  /** Outcomes that decide: none unknown, and a No among them exactly when something does not hold. */
  ghost predicate Decide(cs: seq<MatchOutcome>, holds: bool) {
    Unknown !in cs && (No in cs <==> !holds)
  }

  lemma DecideTogether(a: seq<MatchOutcome>, b: seq<MatchOutcome>, p: bool, q: bool)
    requires Decide(a, p) && Decide(b, q)
    ensures Decide(a + b, p && q)
  {
  }

  predicate SinglesHold(m: Matcher, b: BugMeta, w: World)
    requires Complete(b)
  {
    && (m.products == [] || AnyGlob(w, m.products, b.product.value))
    && (m.statuses == [] || AnyGlob(w, m.statuses, b.status.value))
    && (m.severities == [] || AnyGlob(w, m.severities, b.severity.value))
    && (m.priorities == [] || AnyGlob(w, m.priorities, b.priority.value))
  }

  predicate ListsHold(m: Matcher, b: BugMeta, w: World)
    requires Complete(b)
  {
    && (m.components == [] || AnyGlobMulti(w, m.components, b.components.value))
    && (m.groups == [] || AnyGlobMulti(w, m.groups, b.groups.value))
    && (m.keywords == [] || AnyGlobMulti(w, m.keywords, b.keywords.value))
  }

  predicate TextsHold(m: Matcher, b: BugMeta, w: World)
    requires Complete(b)
  {
    && (m.whiteboardContains == [] || ContainsAny(w, m.whiteboardContains, b.whiteboard.value))
    && (m.summaryContains == [] || ContainsAny(w, m.summaryContains, b.summary.value))
  }

  predicate FlagsHold(m: Matcher, b: BugMeta, now: Time, w: World)
    requires Complete(b)
  {
    && (m.groupRestricted.Some? ==> (b.groups.value != []) == m.groupRestricted.value)
    && (m.createdByMe.Some? ==> b.createdByMe == m.createdByMe)
    && (m.youngerThanDays.Some? && w.cutoff(now, m.youngerThanDays.value).Some? ==>
          b.creationTime.value > w.cutoff(now, m.youngerThanDays.value).value)
  }

  /** What a matcher asks of a fully known bug: AND across criteria, OR within each list. */
  predicate Holds(m: Matcher, b: BugMeta, now: Time, w: World)
    requires Complete(b)
  {
    SinglesHold(m, b, w) && ListsHold(m, b, w) && TextsHold(m, b, w) && FlagsHold(m, b, now, w)
  }

  lemma SinglesDecide(m: Matcher, b: BugMeta, w: World)
    requires Complete(b)
    ensures Decide(SingleOutcomes(w, Singles(m, b)), SinglesHold(m, b, w))
  {
    var s := SingleOutcomes(w, Singles(m, b));
    assert s == [s[0], s[1], s[2], s[3]];
  }

  lemma ListsDecide(m: Matcher, b: BugMeta, w: World)
    requires Complete(b)
    ensures Decide(ListOutcomes(w, Lists(m, b)), ListsHold(m, b, w))
  {
    var l := ListOutcomes(w, Lists(m, b));
    assert l == [l[0], l[1], l[2]];
  }

  lemma TextsDecide(m: Matcher, b: BugMeta, w: World)
    requires Complete(b)
    ensures Decide(TextOutcomes(w, Texts(m, b)), TextsHold(m, b, w))
  {
    var x := TextOutcomes(w, Texts(m, b));
    assert x == [x[0], x[1]];
  }

  lemma FlagsDecide(m: Matcher, b: BugMeta, now: Time, w: World)
    requires Complete(b)
    ensures Decide(Flags(m, b, now, w), FlagsHold(m, b, now, w))
  {
  }

  lemma CompleteDecides(m: Matcher, b: BugMeta, now: Time, w: World)
    requires Complete(b)
    ensures Outcome(m, b, now, w) == Definite(Holds(m, b, now, w))
  {
    SinglesDecide(m, b, w);
    ListsDecide(m, b, w);
    TextsDecide(m, b, w);
    FlagsDecide(m, b, now, w);
    var s, l, x := SingleOutcomes(w, Singles(m, b)), ListOutcomes(w, Lists(m, b)), TextOutcomes(w, Texts(m, b));
    var p, q, r := SinglesHold(m, b, w), ListsHold(m, b, w), TextsHold(m, b, w);
    DecideTogether(s, l, p, q);
    DecideTogether(s + l, x, p && q, r);
    DecideTogether(s + l + x, Flags(m, b, now, w), p && q && r, FlagsHold(m, b, now, w));
  }

  /** Yes and No are answers about the bug itself: every completion of what was read bears them out. */
  lemma OutcomeMeansEveryCompletion(m: Matcher, b: BugMeta, c: BugMeta, now: Time, w: World)
    requires Completes(b, c) && Complete(c)
    ensures Outcome(m, b, now, w) == Yes ==> Holds(m, c, now, w)
    ensures Outcome(m, b, now, w) == No ==> !Holds(m, c, now, w)
  {
    CompleteDecides(m, c, now, w);
    if Outcome(m, b, now, w) != Unknown {
      OutcomeStable(m, b, c, now, w);
    }
  }

  // ----- what a classification means -----

  /** A rule speaks for a fully known bug when it is in scope and its matcher holds. */
  predicate Speaks(r: Rule, b: BugMeta, now: Time, op: Operation, w: World)
    requires Complete(b)
  {
    AppliesTo(r, op) && Holds(r.matcher, b, now, w)
  }

  /** The first rule to speak is the one at `i`. */
  predicate FirstToSpeak(p: Policy, i: nat, b: BugMeta, now: Time, op: Operation, w: World)
    requires Complete(b) && i <= |p.rules|
  {
    (i < |p.rules| ==> Speaks(p.rules[i], b, now, op, w))
    && forall j :: 0 <= j < i ==> !Speaks(p.rules[j], b, now, op, w)
  }

  /** What a rule hands out; being allowed to read a bug includes its summary. */
  predicate Gives(r: Rule, cap: Capability) {
    r.action.Allow? || (r.action.Restrict? && (cap in r.capabilities || (cap == Summary && Read in r.capabilities)))
  }

  /** A capability on a fully known bug: old enough, no write under read-only, and the first rule to speak, or else the default, gives it. */
  ghost predicate Permitted(p: Policy, b: BugMeta, now: Time, op: Operation, w: World, cap: Capability)
    requires Complete(b)
  {
    && (p.minBugAgeDays > 0 ==>
          w.cutoff(now, p.minBugAgeDays).Some? && b.creationTime.value <= w.cutoff(now, p.minBugAgeDays).value)
    && (p.readOnly ==> !IsWrite(cap))
    && exists i :: 0 <= i <= |p.rules| && FirstToSpeak(p, i, b, now, op, w)
                   && (if i < |p.rules| then Gives(p.rules[i], cap) else p.defaultAction.Allow?)
  }

  lemma GrantAllows(p: Policy, caps: set<Capability>, rule: string, cap: Capability)
    ensures Allows(Grant(p, caps, rule), cap)
        <==> (p.readOnly ==> !IsWrite(cap)) && (cap in caps || (cap == Summary && Read in caps))
    ensures cap in ALL_CAPABILITIES
  {
  }

  /** The first speaker, and what the walk does when it gets there. */
  lemma {:induction false} WalkStopsAtFirst(
      p: Policy, i: nat, b: BugMeta, now: Time, op: Operation, w: World, cap: Capability) returns (k: nat)
    requires Complete(b) && i <= |p.rules|
    requires forall j :: 0 <= j < i ==> !Speaks(p.rules[j], b, now, op, w)
    ensures k <= |p.rules| && FirstToSpeak(p, k, b, now, op, w)
    ensures Allows(ClassifyRules(p, p.rules[i..], b, now, op, w), cap)
        <==> (p.readOnly ==> !IsWrite(cap)) && (if k < |p.rules| then Gives(p.rules[k], cap) else p.defaultAction.Allow?)
    decreases |p.rules| - i
  {
    k := i;
    if i == |p.rules| {
      GrantAllows(p, ALL_CAPABILITIES, RULE_DEFAULT, cap);
    } else {
      var r, rest := p.rules[i], p.rules[i..];
      assert rest[0] == r && rest[1..] == p.rules[i + 1..];
      CompleteDecides(r.matcher, b, now, w);
      if Speaks(r, b, now, op, w) {
        GrantAllows(p, ALL_CAPABILITIES, r.name, cap);
        GrantAllows(p, SetOf(r.capabilities), r.name, cap);
      } else {
        k := WalkStopsAtFirst(p, i + 1, b, now, op, w, cap);
      }
    }
  }

  /** On a fully known bug a classification allows exactly what the policy, read declaratively, permits. */
  lemma AccessMeans(p: Policy, b: BugMeta, now: Time, op: Operation, w: World, cap: Capability)
    requires Complete(b)
    ensures Allows(Classify(p, b, now, op, w), cap) <==> Permitted(p, b, now, op, w, cap)
  {
    assert p.rules[0..] == p.rules;
    var k := WalkStopsAtFirst(p, 0, b, now, op, w, cap);
    forall i | 0 <= i <= |p.rules| && FirstToSpeak(p, i, b, now, op, w)
      ensures i == k
    {
      OneFirst(p, i, k, b, now, op, w);
    }
  }

  lemma OneFirst(p: Policy, i: nat, k: nat, b: BugMeta, now: Time, op: Operation, w: World)
    requires Complete(b) && i <= |p.rules| && k <= |p.rules|
    requires FirstToSpeak(p, i, b, now, op, w) && FirstToSpeak(p, k, b, now, op, w)
    ensures i == k
  {
  }

  // ----- unknown in a whole policy -----

  lemma {:induction false} RulesStable(
      p: Policy, rules: seq<Rule>, b: BugMeta, c: BugMeta, now: Time, op: Operation, w: World)
    requires Completes(b, c) && ClassifyRules(p, rules, b, now, op, w).Granted?
    ensures ClassifyRules(p, rules, c, now, op, w) == ClassifyRules(p, rules, b, now, op, w)
  {
    if rules != [] {
      var r := rules[0];
      if AppliesTo(r, op) {
        OutcomeStable(r.matcher, b, c, now, w);
      }
      if !AppliesTo(r, op) || Outcome(r.matcher, b, now, w) == No {
        RulesStable(p, rules[1..], b, c, now, op, w);
      }
    }
  }

  /** A grant given on partial knowledge is, word for word, the grant every completion gets. */
  lemma GrantStable(p: Policy, b: BugMeta, c: BugMeta, now: Time, op: Operation, w: World)
    requires Completes(b, c) && Classify(p, b, now, op, w).Granted?
    ensures Classify(p, c, now, op, w) == Classify(p, b, now, op, w)
  {
    RulesStable(p, p.rules, b, c, now, op, w);
  }

  /** Hence learning less never adds a capability. */
  lemma UnknownNeverBuysAccess(p: Policy, b: BugMeta, c: BugMeta, now: Time, op: Operation, w: World, cap: Capability)
    requires Completes(b, c)
    ensures Allows(Classify(p, b, now, op, w), cap) ==> Allows(Classify(p, c, now, op, w), cap)
  {
    if Allows(Classify(p, b, now, op, w), cap) {
      GrantStable(p, b, c, now, op, w);
    }
  }

  // ----- scope, identity, read-only -----

  function InScope(rules: seq<Rule>, op: Operation): seq<Rule> {
    if rules == [] then []
    else (if AppliesTo(rules[0], op) then [rules[0]] else []) + InScope(rules[1..], op)
  }

  /** A rule scoped away from an operation is invisible to it, its fail-closed path included. */
  lemma {:induction false} OutOfScopeIsInvisible(
      p: Policy, rules: seq<Rule>, b: BugMeta, now: Time, op: Operation, w: World)
    ensures ClassifyRules(p, rules, b, now, op, w) == ClassifyRules(p, InScope(rules, op), b, now, op, w)
  {
    if rules != [] {
      OutOfScopeIsInvisible(p, rules[1..], b, now, op, w);
      if AppliesTo(rules[0], op) {
        var kept := InScope(rules, op);
        assert kept[0] == rules[0] && kept[1..] == InScope(rules[1..], op);
      } else {
        assert InScope(rules, op) == InScope(rules[1..], op);
      }
    }
  }

  lemma {:induction false} IdentityUnusedFrom(
      p: Policy, rules: seq<Rule>, b: BugMeta, mine: Option<bool>, now: Time, w: World)
    requires forall r :: r in rules && AppliesTo(r, Accessing) ==> r.matcher.createdByMe.None?
    ensures ClassifyRules(p, rules, b.(createdByMe := mine), now, Accessing, w)
         == ClassifyRules(p, rules, b, now, Accessing, w)
  {
    if rules != [] {
      var r, c := rules[0], b.(createdByMe := mine);
      IdentityUnusedFrom(p, rules[1..], b, mine, now, w);
      if AppliesTo(r, Accessing) {
        assert Singles(r.matcher, c) == Singles(r.matcher, b) && Lists(r.matcher, c) == Lists(r.matcher, b);
        assert Texts(r.matcher, c) == Texts(r.matcher, b) && Flags(r.matcher, c, now, w) == Flags(r.matcher, b, now, w);
      }
    }
  }

  /** When no identity is needed, who asks changes no access decision. */
  lemma IdentityUnused(p: Policy, b: BugMeta, mine: Option<bool>, now: Time, w: World)
    requires !NeedsIdentity(p)
    ensures Classify(p, b.(createdByMe := mine), now, Accessing, w) == Classify(p, b, now, Accessing, w)
  {
    IdentityUnusedFrom(p, p.rules, b, mine, now, w);
  }

  function WithoutWrites(a: Access): Access {
    if a.Granted? then Granted((set c | c in a.caps && !IsWrite(c)), a.rule) else a
  }

  lemma {:induction false} ReadOnlyRules(
      p: Policy, rules: seq<Rule>, b: BugMeta, now: Time, op: Operation, w: World)
    ensures ClassifyRules(p.(readOnly := true), rules, b, now, op, w) == WithoutWrites(ClassifyRules(p, rules, b, now, op, w))
  {
    if rules != [] {
      ReadOnlyRules(p, rules[1..], b, now, op, w);
    }
  }

  /** Read-only tightens: the same decision by the same rule, with every write taken out. */
  lemma ReadOnlyOnlyStrips(p: Policy, b: BugMeta, now: Time, op: Operation, w: World)
    ensures Classify(p.(readOnly := true), b, now, op, w) == WithoutWrites(Classify(p, b, now, op, w))
    ensures forall cap :: IsWrite(cap) ==> !Allows(Classify(p.(readOnly := true), b, now, op, w), cap)
  {
    ReadOnlyRules(p, p.rules, b, now, op, w);
  }

  // ----- what a recorded rule name says -----

  /** Who settled a classification: rules are told apart by their place in the file. */
  datatype Decider = AgeGate | ByDefault | ByRule(i: nat) | Unreadable(i: nat)

  predicate Possible(p: Policy, d: Decider) {
    d.ByRule? || d.Unreadable? ==> d.i < |p.rules|
  }

  function NameOf(p: Policy, d: Decider): string
    requires Possible(p, d)
  {
    match d
    case AgeGate => RULE_MIN_BUG_AGE_DAYS
    case ByDefault => RULE_DEFAULT
    case ByRule(i) => p.rules[i].name
    case Unreadable(i) => p.rules[i].name + UNREADABLE_METADATA_SUFFIX
  }

  function DeciderFrom(p: Policy, bug: BugMeta, now: Time, op: Operation, w: World, i: nat): (d: Decider)
    requires i <= |p.rules|
    ensures Possible(p, d)
    decreases |p.rules| - i
  {
    if i == |p.rules| then ByDefault
    else
      var r := p.rules[i];
      if !AppliesTo(r, op) then DeciderFrom(p, bug, now, op, w, i + 1)
      else match Outcome(r.matcher, bug, now, w)
        case No => DeciderFrom(p, bug, now, op, w, i + 1)
        case Yes => ByRule(i)
        case Unknown => if r.action.Deny? then ByRule(i) else Unreadable(i)
  }

  function DeciderOf(p: Policy, bug: BugMeta, now: Time, op: Operation, w: World): (d: Decider)
    ensures Possible(p, d)
  {
    if TooYoung(p, bug, now, w) then AgeGate else DeciderFrom(p, bug, now, op, w, 0)
  }

  lemma {:induction false} RecordedFrom(p: Policy, bug: BugMeta, now: Time, op: Operation, w: World, i: nat)
    requires i <= |p.rules|
    ensures ClassifyRules(p, p.rules[i..], bug, now, op, w).rule == NameOf(p, DeciderFrom(p, bug, now, op, w, i))
    decreases |p.rules| - i
  {
    if i < |p.rules| {
      var r, rest := p.rules[i], p.rules[i..];
      assert rest[0] == r && rest[1..] == p.rules[i + 1..];
      if !AppliesTo(r, op) || Outcome(r.matcher, bug, now, w) == No {
        RecordedFrom(p, bug, now, op, w, i + 1);
        assert ClassifyRules(p, rest, bug, now, op, w) == ClassifyRules(p, p.rules[i + 1..], bug, now, op, w);
      }
    }
  }

  /** Two deciders of a validated policy never share a name, nor take the unavailable one. */
  lemma NamesIdentify(p: Policy, d: Decider, e: Decider)
    requires WellFormed(p) && Possible(p, d) && Possible(p, e)
    ensures NameOf(p, d) == NameOf(p, e) ==> d == e
    ensures NameOf(p, d) != RULE_UNAVAILABLE
  {
    ClosedName(p, d);
    ClosedName(p, e);
    if d.Unreadable? && e.Unreadable? {
      var n, k := p.rules[d.i].name, p.rules[e.i].name;
      if n + UNREADABLE_METADATA_SUFFIX == k + UNREADABLE_METADATA_SUFFIX {
        assert n == (n + UNREADABLE_METADATA_SUFFIX)[..|n|];
        assert k == (k + UNREADABLE_METADATA_SUFFIX)[..|k|];
      }
    }
  }

  /** The suffix marks the unreadable path and nothing else. */
  lemma ClosedName(p: Policy, d: Decider)
    requires WellFormed(p) && Possible(p, d)
    ensures EndsWith(NameOf(p, d), UNREADABLE_METADATA_SUFFIX) <==> d.Unreadable?
    ensures NameOf(p, d) in RESERVED_RULE_NAMES <==> d.AgeGate? || d.ByDefault?
  {
    if d.Unreadable? {
      var name := NameOf(p, d);
      assert name[|name| - |UNREADABLE_METADATA_SUFFIX|..] == UNREADABLE_METADATA_SUFFIX;
    }
    if d.ByRule? {
      assert RuleOk(p.rules[d.i]);
    }
  }

  /** Reading the name off a record of a validated policy recovers who decided. */
  lemma RecordNamesTheDecider(p: Policy, bug: BugMeta, now: Time, op: Operation, w: World, d: Decider)
    requires WellFormed(p) && Possible(p, d)
    ensures Classify(p, bug, now, op, w).rule == NameOf(p, d) <==> d == DeciderOf(p, bug, now, op, w)
  {
    assert p.rules[0..] == p.rules;
    RecordedFrom(p, bug, now, op, w, 0);
    NamesIdentify(p, d, DeciderOf(p, bug, now, op, w));
  }
}
