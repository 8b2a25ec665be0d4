/**
 * The lock-free gate as a step model: crates/bugwarden/src/audit.rs, `failing`
 * against `record` and `absorb_export_losses`, with the exporter's delivery
 * thread beside them. What the state lock guards is changed together with the
 * step that precedes it, since nobody else can see it change.
 */
module AuditGate {
  import opened Prelude

  // ----- the state -----

  /** Where the thread holding the state lock is. `mirrored` tells whether its peek saw losses. */
  datatype Writer =
    | Free
    | Locked
    | Peeked(seen: nat)
    | Draining(mirrored: bool)
    | Took(lost: nat, mirrored: bool)
    | Folded(lost: nat, mirrored: bool)
    | Absorbed
    | GapWritten
    | Writing
    | Failed
    | Mirrored

  /** Where a caller of the gate is. `mark` counts the losses incurred when it peeked. */
  datatype Gate = Asking | SawNone(mark: nat) | FlagClear(mark: nat) | Answered(closed: bool, mark: nat)

  /**
   * `lost` is the exporter's count, `flag` the mirror, `delivery` the exporter's
   * health; `dropped` is guarded by the lock. The last three only keep history.
   */
  datatype State = State(
    writer: Writer,
    gate: Gate,
    lost: nat,
    flag: bool,
    delivery: bool,
    dropped: nat,
    landed: nat,
    counted: nat,
    reported: nat)

  predicate Init(s: State) {
    s.writer == Free && s.gate == Asking && !s.flag && !s.delivery
    && s.lost == s.dropped == s.landed == s.counted == s.reported == 0
  }

  /** Every loss so far: records the exporter lost, and records that could not be written. */
  function Incurred(s: State): nat {
    s.landed + s.counted
  }

  // ----- the steps -----

  datatype Step =
    | Lock | Peek | Mirror | Take | Fold | MirrorFolded
    | GapOk | ClearFlag | GapFails | NoGap
    | WriteOk | WriteFails | MirrorFailure | CountFailure
    | Land(n: nat) | Health(failing: bool)
    | GatePeek | GateFlag | GateHealth | GateAgain

  /** The writer's steps, in the order `record` takes them. */
  predicate WriterStep(s: State, step: Step, s': State) {
    match step
    case Lock => s.writer.Free? && s' == s.(writer := Locked)
    case Peek => s.writer.Locked? && s' == s.(writer := Peeked(s.lost))
    case Mirror =>
      s.writer.Peeked?
      && s' == s.(writer := Draining(s.writer.seen > 0), flag := s.flag || s.writer.seen > 0)
    case Take => s.writer.Draining? && s' == s.(writer := Took(s.lost, s.writer.mirrored), lost := 0)
    case Fold =>
      s.writer.Took?
      && s' == if s.writer.lost == 0 then s.(writer := Absorbed)
               else s.(writer := Folded(s.writer.lost, s.writer.mirrored), dropped := s.dropped + s.writer.lost)
    case MirrorFolded => s.writer.Folded? && s' == s.(writer := Absorbed, flag := true)
    case NoGap => s.writer.Absorbed? && s.dropped == 0 && s' == s.(writer := Writing)
    case GapOk =>
      s.writer.Absorbed? && s.dropped > 0
      && s' == s.(writer := GapWritten, reported := s.reported + s.dropped, dropped := 0)
    case ClearFlag => s.writer.GapWritten? && s' == s.(writer := Writing, flag := false)
    case GapFails => s.writer.Absorbed? && s.dropped > 0 && s' == s.(writer := Failed)
    case WriteOk => s.writer.Writing? && s' == s.(writer := Free)
    case WriteFails => s.writer.Writing? && s' == s.(writer := Failed)
    case MirrorFailure => s.writer.Failed? && s' == s.(writer := Mirrored, flag := true)
    case CountFailure =>
      s.writer.Mirrored? && s' == s.(writer := Free, dropped := s.dropped + 1, counted := s.counted + 1)
    case _ => false
  }

  /** The delivery thread: losses land, and delivery is found to fail or to work. */
  predicate DeliveryStep(s: State, step: Step, s': State) {
    match step
    case Land(n) => s' == s.(lost := s.lost + n, landed := s.landed + n)
    case Health(failing) => s' == s.(delivery := failing)
    case _ => false
  }

  /** The gate: peek, then the mirror, then delivery health, each on its own. */
  predicate GateStep(s: State, step: Step, s': State) {
    match step
    case GatePeek =>
      s.gate.Asking? && s' == s.(gate := if s.lost > 0 then Answered(true, Incurred(s)) else SawNone(Incurred(s)))
    case GateFlag =>
      s.gate.SawNone? && s' == s.(gate := if s.flag then Answered(true, s.gate.mark) else FlagClear(s.gate.mark))
    case GateHealth => s.gate.FlagClear? && s' == s.(gate := Answered(s.delivery, s.gate.mark))
    case GateAgain => s.gate.Answered? && s' == s.(gate := Asking)
    case _ => false
  }

  ghost predicate Next(s: State, s': State) {
    exists step :: WriterStep(s, step, s') || DeliveryStep(s, step, s') || GateStep(s, step, s')
  }

  ghost predicate StepAt(run: seq<State>, i: nat)
    requires i + 1 < |run|
  {
    Next(run[i], run[i + 1])
  }

  /** Each state a step after the one before it. */
  ghost predicate Steps(run: seq<State>) {
    |run| > 0 && forall i :: 0 <= i < |run| - 1 ==> StepAt(run, i)
  }

  ghost predicate Behavior(run: seq<State>) {
    Steps(run) && Init(run[0])
  }

  // ----- the invariant -----

  /** Losses the writer has drained and not yet added to its count. */
  function InHand(w: Writer): nat {
    if w.Took? then w.lost else 0
  }

  /** Losses that landed after the writer's peek saw none, drained and not mirrored yet. */
  function Unmirrored(w: Writer): nat {
    if (w.Took? || w.Folded?) && !w.mirrored then w.lost else 0
  }

  /** Every loss is with the exporter, in the writer's hands, pending, or reported. */
  predicate Accounted(s: State) {
    Incurred(s) == s.reported + s.dropped + s.lost + InHand(s.writer)
  }

  /** While the mirror is clear nothing is pending, save a loss that raced the drain. */
  predicate ClearMeansNone(s: State) {
    !s.flag ==> s.dropped + InHand(s.writer) == Unmirrored(s.writer)
  }

  /** While the mirror is set something is pending, or the writer is about to settle it. */
  predicate SetMeansSome(s: State) {
    s.flag ==>
      match s.writer
      case Peeked(seen) => s.dropped > 0
      case Draining(mirrored) => s.dropped > 0 || (mirrored && s.lost > 0)
      case Took(lost, _) => s.dropped > 0 || lost > 0
      case GapWritten => true
      case Mirrored => true
      case Writing => false
      case Failed => s.dropped > 0
      case _ => s.dropped > 0
  }

  predicate WriterOk(s: State) {
    match s.writer
    case Peeked(seen) => seen <= s.lost
    case Draining(mirrored) => mirrored ==> s.flag && s.lost > 0
    case Took(_, mirrored) => mirrored ==> s.flag
    case Folded(_, mirrored) => s.dropped > 0 && (mirrored ==> s.flag)
    case GapWritten => s.dropped == 0
    case Writing => s.dropped == 0
    case Mirrored => s.flag
    case _ => true
  }

  /** What the gate knows as it goes along: what it may have missed has landed since, or is the racing loss. */
  predicate GateOk(s: State) {
    match s.gate
    case Asking => true
    case SawNone(mark) => mark <= Incurred(s) && s.lost <= Incurred(s) - mark
    case FlagClear(mark) => true
    case Answered(_, _) => true
  }

  predicate Inv(s: State) {
    Accounted(s) && ClearMeansNone(s) && SetMeansSome(s) && WriterOk(s) && GateOk(s)
  }

  lemma WriterKeeps(s: State, step: Step, s': State)
    requires Inv(s) && WriterStep(s, step, s')
    ensures Inv(s')
  {
  }

  lemma OthersKeep(s: State, step: Step, s': State)
    requires Inv(s) && (DeliveryStep(s, step, s') || GateStep(s, step, s'))
    ensures Inv(s')
  {
  }

  lemma NextKeeps(s: State, s': State)
    requires Inv(s) && Next(s, s')
    ensures Inv(s') && s.reported <= s'.reported
  {
    var step :| WriterStep(s, step, s') || DeliveryStep(s, step, s') || GateStep(s, step, s');
    if WriterStep(s, step, s') {
      WriterKeeps(s, step, s');
    } else {
      OthersKeep(s, step, s');
    }
  }

  lemma StepOf(run: seq<State>, i: nat)
    requires Steps(run) && i + 1 < |run|
    ensures Next(run[i], run[i + 1])
  {
    assert StepAt(run, i);
  }

  lemma InitOk(s: State)
    requires Init(s)
    ensures Inv(s)
  {
  }

  lemma {:induction false} InvHolds(run: seq<State>, i: nat)
    requires Behavior(run) && i < |run|
    ensures Inv(run[i])
  {
    if i == 0 {
      InitOk(run[0]);
    } else {
      InvHolds(run, i - 1);
      StepOf(run, i - 1);
      NextKeeps(run[i - 1], run[i]);
    }
  }

  // ----- what the gate's answers mean -----

  /** Whenever the lock is free, the mirror says exactly whether losses are pending. */
  lemma MirrorIsExactAtRest(run: seq<State>, i: nat)
    requires Behavior(run) && i < |run| && run[i].writer.Free?
    ensures run[i].flag <==> run[i].dropped > 0
  {
    InvHolds(run, i);
  }

  /**
   * When the gate finds the mirror clear, every loss incurred before its peek
   * has been reported by a gap, but for one that slipped between the writer's
   * own peek and its drain and is not mirrored yet.
   */
  lemma ClearFlagMeansReported(run: seq<State>, i: nat)
    requires Behavior(run) && i < |run| && run[i].gate.SawNone? && !run[i].flag
    ensures run[i].reported + Unmirrored(run[i].writer) >= run[i].gate.mark
  {
    InvHolds(run, i);
  }

  /** While the mirror is clear, every loss not reported is with the exporter or raced the drain. */
  lemma ClearFlagAccounts(run: seq<State>, i: nat)
    requires Behavior(run) && i < |run| && !run[i].flag
    ensures run[i].reported + Unmirrored(run[i].writer) + run[i].lost == Incurred(run[i])
  {
    InvHolds(run, i);
  }

  // ----- exactly when an answer is wrong -----

  /** The gate peeks in the step after `k` and is to read the mirror at `j`, where it is clear. */
  ghost predicate ReadsClear(run: seq<State>, k: nat, j: nat) {
    && k < j < |run| && run[k].gate.Asking? && !run[j].flag
    && forall t :: k < t <= j ==> run[t].gate.SawNone?
  }

  /**
   * The writer is between a drain that its own peek gave no notice of and the
   * mirroring of what it drained, all the way from `k` to `j`.
   */
  ghost predicate InOneRace(run: seq<State>, k: nat, j: nat)
    requires j < |run|
  {
    forall t :: k <= t <= j ==> Unmirrored(run[t].writer) > 0
  }

  lemma RaceStep(s: State, s': State)
    requires Next(s, s') && Unmirrored(s.writer) > 0 && Unmirrored(s'.writer) > 0
    ensures Unmirrored(s'.writer) == Unmirrored(s.writer)
  {
  }

  /** It is one and the same race throughout: the losses drained are the same. */
  lemma {:induction false} RaceIsOne(run: seq<State>, k: nat, j: nat)
    requires Behavior(run) && k <= j < |run| && InOneRace(run, k, j)
    ensures Unmirrored(run[j].writer) == Unmirrored(run[k].writer)
  {
    if k < j {
      RaceIsOne(run, k, j - 1);
      StepOf(run, j - 1);
      RaceStep(run[j - 1], run[j]);
    }
  }

  /** What has landed and been counted since the gate peeked. */
  function Since(s: State): int
    requires s.gate.SawNone?
  {
    Incurred(s) - s.gate.mark
  }

  lemma PeekStep(s: State, s': State)
    requires Next(s, s') && s.gate.Asking? && s'.gate.SawNone?
    ensures s'.writer == s.writer && s'.lost == 0 && Since(s') == 0
  {
  }

  /** Away from a race, what is unaccounted for is no more than what came since the peek. */
  lemma WaitingStep(s: State, s': State)
    requires Next(s, s') && s.gate.SawNone? && s'.gate.SawNone? && Inv(s)
    ensures s'.lost + Unmirrored(s'.writer) - Since(s') <= s.lost + Unmirrored(s.writer) - Since(s)
    ensures Unmirrored(s.writer) > 0 ==> s'.lost - Since(s') == s.lost - Since(s)
  {
  }

  lemma PeekAt(run: seq<State>, k: nat)
    requires Behavior(run) && k + 1 < |run| && run[k].gate.Asking? && run[k + 1].gate.SawNone?
    ensures var s, s' := run[k], run[k + 1]; s'.writer == s.writer && s'.lost == 0 && Since(s') == 0
  {
    StepOf(run, k);
    PeekStep(run[k], run[k + 1]);
  }

  lemma WaitingAt(run: seq<State>, t: nat)
    requires Behavior(run) && t + 1 < |run| && run[t].gate.SawNone? && run[t + 1].gate.SawNone?
    ensures var s, s' := run[t], run[t + 1];
      && s'.lost + Unmirrored(s'.writer) - Since(s') <= s.lost + Unmirrored(s.writer) - Since(s)
      && (Unmirrored(s.writer) > 0 ==> s'.lost - Since(s') == s.lost - Since(s))
  {
    StepOf(run, t);
    InvHolds(run, t);
    WaitingStep(run[t], run[t + 1]);
  }

  lemma RaceGoesOn(run: seq<State>, k: nat, j: nat)
    requires k < j < |run|
    ensures InOneRace(run, k, j) <==> InOneRace(run, k, j - 1) && Unmirrored(run[j].writer) > 0
  {
  }

  lemma {:induction false} WaitingKeeps(run: seq<State>, k: nat, j: nat)
    requires Behavior(run) && k < j < |run| && run[k].gate.Asking?
    requires forall t :: k < t <= j ==> run[t].gate.SawNone?
    ensures InOneRace(run, k, j) ==> run[j].lost == Since(run[j])
    ensures !InOneRace(run, k, j) ==> run[j].lost + Unmirrored(run[j].writer) <= Since(run[j])
  {
    RaceGoesOn(run, k, j);
    if k + 1 == j {
      PeekAt(run, k);
    } else {
      WaitingKeeps(run, k, j - 1);
      WaitingAt(run, j - 1);
    }
  }

  /**
   * At its reading of a clear mirror the gate misses a loss, one incurred
   * before it peeked and not reported, exactly when its peek and its reading
   * both fall inside one race.
   */
  lemma ClearReadingIsWrongIff(run: seq<State>, k: nat, j: nat)
    requires Behavior(run) && ReadsClear(run, k, j)
    ensures run[j].reported < run[j].gate.mark <==> InOneRace(run, k, j)
  {
    WaitingKeeps(run, k, j);
    ClearFlagAccounts(run, j);
  }

  /** The gate is past a clear mirror, or has answered open on the strength of one. */
  predicate Open(g: Gate) {
    g.FlagClear? || (g.Answered? && !g.closed)
  }

  lemma OpensThroughTheMirror(s: State, s': State)
    requires Next(s, s') && Open(s'.gate)
    ensures (Open(s.gate) && s'.gate.mark == s.gate.mark)
         || (s.gate.SawNone? && !s.flag && s'.gate.mark == s.gate.mark && s'.reported == s.reported)
  {
  }

  lemma ComesFromPeek(s: State, s': State)
    requires Next(s, s') && s'.gate.SawNone?
    ensures s.gate.Asking? || s.gate == s'.gate
  {
  }

  /** A gate that saw no losses at the exporter peeked some steps ago. */
  lemma {:induction false} PeekedBefore(run: seq<State>, j: nat) returns (k: nat)
    requires Behavior(run) && j < |run| && run[j].gate.SawNone?
    ensures k < j && run[k].gate.Asking?
    ensures forall t :: k < t <= j ==> run[t].gate == run[j].gate
  {
    StepOf(run, j - 1);
    ComesFromPeek(run[j - 1], run[j]);
    if run[j - 1].gate.Asking? {
      k := j - 1;
    } else {
      k := PeekedBefore(run, j - 1);
    }
  }

  lemma OpenAt(run: seq<State>, i: nat)
    requires Behavior(run) && i < |run| && Open(run[i].gate)
    ensures i > 0
    ensures var s, s' := run[i - 1], run[i];
      && s.reported <= s'.reported
      && (Open(s.gate) || (s.gate.SawNone? && !s.flag)) && s'.gate.mark == s.gate.mark
  {
    StepOf(run, i - 1);
    InvHolds(run, i - 1);
    NextKeeps(run[i - 1], run[i]);
    OpensThroughTheMirror(run[i - 1], run[i]);
  }

  /**
   * An open answer goes back to one peek and one reading of a clear mirror, and
   * vouches for every loss incurred before that peek, each reported by a gap,
   * unless those two fell inside one race; if they did, one was missing.
   */
  lemma {:induction false} OpenAnswerIsTruthful(run: seq<State>, i: nat) returns (k: nat, j: nat)
    requires Behavior(run) && i < |run| && Open(run[i].gate)
    ensures j < i && ReadsClear(run, k, j) && run[j].gate.mark == run[i].gate.mark
    ensures run[i].reported >= run[j].reported
    ensures run[j].reported < run[j].gate.mark <==> InOneRace(run, k, j)
    ensures run[i].reported >= run[i].gate.mark || InOneRace(run, k, j)
  {
    OpenAt(run, i);
    if Open(run[i - 1].gate) {
      k, j := OpenAnswerIsTruthful(run, i - 1);
    } else {
      j := i - 1;
      k := PeekedBefore(run, j);
      ClearReadingIsWrongIff(run, k, j);
    }
  }

  // ----- what an answer is given for -----

  /** Reasons to answer closed: losses at the exporter, the mirror set, delivery failing, each when it is looked at. */
  predicate ClosedFor(s: State) {
    (s.gate.Asking? && s.lost > 0) || (s.gate.SawNone? && s.flag) || (s.gate.FlagClear? && s.delivery)
  }

  lemma AnswerStep(s: State, s': State)
    requires Next(s, s') && s'.gate.Answered?
    ensures s.gate == s'.gate || (if s'.gate.closed then ClosedFor(s) else s.gate.FlagClear? && !s.delivery)
  {
  }

  /** Every answer was given at some step, closed for a reason seen there, open on finding delivery well. */
  lemma {:induction false} AnswerHasCause(run: seq<State>, i: nat) returns (m: nat)
    requires Behavior(run) && i < |run| && run[i].gate.Answered?
    ensures m < i && (if run[i].gate.closed then ClosedFor(run[m]) else run[m].gate.FlagClear? && !run[m].delivery)
    ensures forall t :: m < t <= i ==> run[t].gate == run[i].gate
  {
    StepOf(run, i - 1);
    AnswerStep(run[i - 1], run[i]);
    if run[i - 1].gate == run[i].gate {
      m := AnswerHasCause(run, i - 1);
    } else {
      m := i - 1;
    }
  }

  /** An open answer found no losses at the exporter, then the mirror clear, then delivery well, in that order. */
  lemma OpenAnswerFoundNothing(run: seq<State>, i: nat) returns (k: nat, j: nat, m: nat)
    requires Behavior(run) && i < |run| && run[i].gate.Answered? && !run[i].gate.closed
    ensures k < j < m < i && run[k].lost == 0 && !run[j].flag && !run[m].delivery
    ensures run[k].gate.Asking? && run[j].gate.SawNone? && run[m].gate.FlagClear?
  {
    m := AnswerHasCause(run, i);
    k, j := OpenAnswerIsTruthful(run, m);
    PeekLooks(run, k);
  }

  lemma PeekLooks(run: seq<State>, k: nat)
    requires Behavior(run) && k + 1 < |run| && run[k].gate.Asking? && run[k + 1].gate.SawNone?
    ensures run[k].lost == 0
  {
    StepOf(run, k);
    PeekSees(run[k], run[k + 1]);
  }

  lemma PeekSees(s: State, s': State)
    requires Next(s, s') && s.gate.Asking? && s'.gate.SawNone?
    ensures s.lost == 0
  {
  }

  /** A run goes on by any step. */
  lemma Extend(run: seq<State>, step: Step, s: State) returns (longer: seq<State>)
    requires Steps(run)
    requires var last := run[|run| - 1]; WriterStep(last, step, s) || DeliveryStep(last, step, s) || GateStep(last, step, s)
    ensures longer == run + [s] && Steps(longer) && longer[0] == run[0] && longer[|longer| - 1] == s
  {
    longer := run + [s];
    assert Next(run[|run| - 1], s);
    forall i | 0 <= i < |longer| - 1
      ensures StepAt(longer, i)
    {
      if i < |run| - 1 {
        assert StepAt(run, i);
      }
    }
  }

  /** The writer looks, sees no losses, and drains one that landed meanwhile. */
  lemma RaceBegins() returns (run: seq<State>, raced: State)
    ensures Behavior(run) && run[|run| - 1] == raced && raced.gate == Asking
    ensures raced.writer == Took(1, false) && !raced.flag && !raced.delivery
    ensures raced.lost == raced.reported == 0 && Incurred(raced) == 1
  {
    var s0 := State(Free, Asking, 0, false, false, 0, 0, 0, 0);
    run := Extend([s0], Lock, s0.(writer := Locked));
    run := Extend(run, Peek, s0.(writer := Peeked(0)));
    var drained := s0.(writer := Draining(false));
    run := Extend(run, Mirror, drained);
    run := Extend(run, Land(1), drained.(lost := 1, landed := 1));
    raced := drained.(writer := Took(1, false), landed := 1);
    run := Extend(run, Take, raced);
  }

  /** The race is real: a run in which the gate answers open while a loss it could have waited for is unreported. */
  lemma RaceExists()
    ensures exists run: seq<State>, i :: Behavior(run) && 0 <= i < |run|
              && run[i].gate.Answered? && !run[i].gate.closed && run[i].reported < run[i].gate.mark
  {
    var run, raced := RaceBegins();
    run := Extend(run, GatePeek, raced.(gate := SawNone(1)));
    run := Extend(run, GateFlag, raced.(gate := FlagClear(1)));
    run := Extend(run, GateHealth, raced.(gate := Answered(false, 1)));
    assert run[|run| - 1].reported == 0;
  }
}
