/**
 * The two views of the audit sink joined: one call of `record`, as a function in
 * AuditModel, is one pass of the writer through its steps in AuditGate.
 */
module AuditPass {
  import opened Prelude
  import opened AuditGate
  import AuditModel
  import AuditLoss

  function Last(run: seq<State>): State
    requires |run| > 0
  {
    run[|run| - 1]
  }

  /** From the lock to the end of `absorb_export_losses`: `late` losses land between the peek and the drain. */
  lemma AbsorbPass(g: State, late: nat) returns (run: seq<State>)
    requires g.writer.Free?
    ensures Steps(run) && run[0] == g
    ensures var taken := g.lost + late;
      Last(run) == g.(writer := Absorbed, lost := 0, landed := g.landed + late, dropped := g.dropped + taken,
                      flag := g.flag || taken > 0)
  {
    var m := g.lost > 0;
    run := Extend([g], Lock, g.(writer := Locked));
    run := Extend(run, Peek, g.(writer := Peeked(g.lost)));
    var drain := g.(writer := Draining(m), flag := g.flag || m);
    run := Extend(run, Mirror, drain);
    var landed := drain.(lost := g.lost + late, landed := g.landed + late);
    run := Extend(run, Land(late), landed);
    var took := landed.(writer := Took(landed.lost, m), lost := 0);
    run := Extend(run, Take, took);
    if landed.lost == 0 {
      run := Extend(run, Fold, took.(writer := Absorbed));
    } else {
      var folded := took.(writer := Folded(landed.lost, m), dropped := g.dropped + landed.lost);
      run := Extend(run, Fold, folded);
      run := Extend(run, MirrorFolded, folded.(writer := Absorbed, flag := true));
    }
  }

  /** A write that failed: mirrored, then counted. */
  lemma FailedPass(run0: seq<State>) returns (run: seq<State>)
    requires Steps(run0) && Last(run0).writer.Failed?
    ensures Steps(run) && run[0] == run0[0]
    ensures var g := Last(run0);
      Last(run) == g.(writer := Free, flag := true, dropped := g.dropped + 1, counted := g.counted + 1)
  {
    var g := Last(run0);
    var mirrored := g.(writer := Mirrored, flag := true);
    run := Extend(run0, MirrorFailure, mirrored);
    run := Extend(run, CountFailure, mirrored.(writer := Free, dropped := g.dropped + 1, counted := g.counted + 1));
  }

  /** The write of the record itself. */
  lemma OwnPass(run0: seq<State>, ok: bool) returns (run: seq<State>)
    requires Steps(run0) && Last(run0).writer.Writing?
    ensures Steps(run) && run[0] == run0[0]
    ensures var g := Last(run0);
      Last(run) == if ok then g.(writer := Free)
                   else g.(writer := Free, flag := true, dropped := g.dropped + 1, counted := g.counted + 1)
  {
    var g := Last(run0);
    if ok {
      run := Extend(run0, WriteOk, g.(writer := Free));
    } else {
      run := Extend(run0, WriteFails, g.(writer := Failed));
      run := FailedPass(run);
    }
  }

  /** The write of a gap, when losses are pending. */
  lemma GapPass(run0: seq<State>, ok: bool) returns (run: seq<State>)
    requires Steps(run0) && Last(run0).writer.Absorbed? && Last(run0).dropped > 0
    ensures Steps(run) && run[0] == run0[0]
    ensures var g := Last(run0);
      Last(run) == if ok then g.(writer := Writing, flag := false, reported := g.reported + g.dropped, dropped := 0)
                   else g.(writer := Failed)
  {
    var g := Last(run0);
    if ok {
      var written := g.(writer := GapWritten, reported := g.reported + g.dropped, dropped := 0);
      run := Extend(run0, GapOk, written);
      run := Extend(run, ClearFlag, written.(writer := Writing, flag := false));
    } else {
      run := Extend(run0, GapFails, g.(writer := Failed));
    }
  }

  function PeekedBy(cfg: AuditModel.Config, call: AuditModel.Call): nat {
    if cfg.hasExport then call.peeked else 0
  }

  /** The gate model's state with the lock free, over a sink in state `st`. */
  predicate Rests(g: State, st: AuditModel.State) {
    g.writer.Free? && g.dropped == st.dropped && g.flag == st.failing
  }

  /** What one call does to the gate model's state. */
  predicate PassedOver(g: State, g': State, late: nat, o: AuditModel.Outcome) {
    && Rests(g', o.state) && g'.gate == g.gate && g'.lost == 0 && g'.landed == g.landed + late
    && g'.reported == g.reported + o.reported
    && g'.counted == g.counted + if o.result.Err? then 1 else 0
  }

  /** What `record` makes of the losses, in terms of how its two writes turn out. */
  lemma RecordInShort(cfg: AuditModel.Config, st: AuditModel.State, call: AuditModel.Call) returns (gapOk: bool)
    requires AuditModel.ValidConfig(cfg) && st.dropped + AuditModel.TakenBy(cfg, call) < U64_MAX
    ensures var taken, o := AuditModel.TakenBy(cfg, call), AuditModel.Record(cfg, st, call);
      var pending := st.dropped + taken;
      if pending == 0 then
        && o.reported == 0 && o.state.dropped == (if o.result.Ok? then 0 else 1)
        && o.state.failing == (st.failing || PeekedBy(cfg, call) > 0 || o.result.Err?)
      else if gapOk then
        && o.reported == pending && o.state.dropped == (if o.result.Ok? then 0 else 1)
        && o.state.failing == o.result.Err?
      else
        o.result.Err? && o.reported == 0 && o.state.dropped == pending + 1 && o.state.failing
  {
    var ready := AuditModel.Absorb(cfg, st, call);
    if ready.dropped == 0 {
      AuditLoss.WriteEventFrame(cfg, ready, call.kind, call.own);
      gapOk := true;
    } else {
      var gap := AuditModel.Gap(ready.dropped, ready.reason);
      AuditLoss.WriteEventFrame(cfg, ready, gap, call.gap);
      var (after, result) := AuditModel.WriteEvent(cfg, ready, gap, call.gap);
      AuditLoss.WriteEventFrame(cfg, after.(dropped := 0, failing := false), call.kind, call.own);
      gapOk := result.Ok?;
    }
  }

  /**
   * A call of `record` whose peek finds what the exporter has lost, `late` more
   * landing before the drain, is a pass of the writer from lock to lock that
   * leaves the same losses pending, reported and counted, and the same mirror.
   */
  lemma RecordIsAPass(cfg: AuditModel.Config, st: AuditModel.State, call: AuditModel.Call, g: State)
      returns (run: seq<State>)
    requires AuditModel.ValidConfig(cfg) && AuditModel.Consistent(call)
    requires st.dropped + AuditModel.TakenBy(cfg, call) < U64_MAX
    requires Rests(g, st) && g.lost == PeekedBy(cfg, call)
    ensures Steps(run) && run[0] == g
    ensures var taken := AuditModel.TakenBy(cfg, call);
      PassedOver(g, Last(run), taken - g.lost, AuditModel.Record(cfg, st, call))
  {
    var gapOk := RecordInShort(cfg, st, call);
    var o := AuditModel.Record(cfg, st, call);
    run := AbsorbPass(g, AuditModel.TakenBy(cfg, call) - g.lost);
    var ready := Last(run);
    if ready.dropped == 0 {
      run := Extend(run, NoGap, ready.(writer := Writing));
      run := OwnPass(run, o.result.Ok?);
    } else {
      run := GapPass(run, gapOk);
      if gapOk {
        run := OwnPass(run, o.result.Ok?);
      } else {
        run := FailedPass(run);
      }
    }
  }
}
