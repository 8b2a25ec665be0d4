/** What becomes of every lost record, over every run. */
module AuditLoss {
  import opened Prelude
  import opened AuditModel
  import opened AuditLines
  import opened AuditRuns
  import AuditStream

  // ----- conservation -----

  /** Over a run: calls that returned an error, losses taken from the exporter, losses reported by gaps that were acknowledged. */
  datatype Tally = Tally(errors: nat, taken: nat, reported: nat)

  function Count(t: Tally, o: Outcome): Tally {
    Tally(t.errors + if o.result.Err? then 1 else 0, t.taken + o.taken, t.reported + o.reported)
  }

  function RunTally(cfg: Config, st: State, calls: seq<Call>): Tally
    requires ValidConfig(cfg)
  {
    if calls == [] then Tally(0, 0, 0)
    else
      var init := calls[..|calls| - 1];
      Count(RunTally(cfg, st, init), Record(cfg, Run(cfg, st, init), calls[|calls| - 1]))
  }

  lemma PutLineFrame(cfg: Config, st: State, event: Event, f: Fault)
    ensures var after := PutLine(cfg, st, event, f).0;
      after.dropped == st.dropped && after.reason == st.reason && after.failing == st.failing
  {
  }

  /** Writing an event neither counts nor forgets a loss. */
  lemma WriteEventFrame(cfg: Config, st: State, kind: Kind, f: Fault)
    requires ValidConfig(cfg)
    ensures var after := WriteEvent(cfg, st, kind, f).0;
      after.dropped == st.dropped && after.reason == st.reason && after.failing == st.failing
  {
    var room := EventSteps(cfg, st, kind, f);
    PutLineFrame(cfg, room, Event(st.number + 1, f.stamp, kind), f);
  }

  /** One call settles its losses: what was pending and what it adds is reported or stays pending. */
  lemma RecordConserves(cfg: Config, st: State, call: Call)
    requires ValidConfig(cfg)
    ensures var o := Record(cfg, st, call);
      var added := TakenBy(cfg, call) + if o.result.Err? then 1 else 0;
      && o.reported + o.state.dropped <= st.dropped + added
      && (st.dropped + added <= U64_MAX ==> o.reported + o.state.dropped == st.dropped + added)
  {
    var ready := Absorb(cfg, st, call);
    if ready.dropped == 0 {
      WriteEventFrame(cfg, ready, call.kind, call.own);
    } else {
      var gap := Gap(ready.dropped, ready.reason);
      WriteEventFrame(cfg, ready, gap, call.gap);
      var (after, result) := WriteEvent(cfg, ready, gap, call.gap);
      WriteEventFrame(cfg, after.(dropped := 0, failing := false), call.kind, call.own);
    }
  }

  /**
   * Conservation: losses incurred are losses reported plus losses pending, as
   * long as the count does not saturate; saturation only ever reports fewer.
   */
  lemma {:induction false} LossesAreConserved(cfg: Config, st: State, calls: seq<Call>)
    requires ValidConfig(cfg) && st.dropped == 0
    ensures var t := RunTally(cfg, st, calls);
      var pending := Run(cfg, st, calls).dropped;
      && t.reported + pending <= t.errors + t.taken
      && (t.errors + t.taken <= U64_MAX ==> t.reported + pending == t.errors + t.taken)
  {
    if calls != [] {
      var init := calls[..|calls| - 1];
      LossesAreConserved(cfg, st, init);
      RecordConserves(cfg, Run(cfg, st, init), calls[|calls| - 1]);
    }
  }

  // ----- the gate's mirror -----

  /** At rest the mirror says exactly whether losses are pending. */
  predicate Mirrored(st: State) {
    st.failing <==> st.dropped > 0
  }

  lemma RecordMirrors(cfg: Config, st: State, call: Call)
    requires ValidConfig(cfg) && Mirrored(st) && Consistent(call)
    ensures Mirrored(Record(cfg, st, call).state)
  {
    var ready := Absorb(cfg, st, call);
    if ready.dropped == 0 {
      WriteEventFrame(cfg, ready, call.kind, call.own);
    } else {
      var gap := Gap(ready.dropped, ready.reason);
      WriteEventFrame(cfg, ready, gap, call.gap);
      var (after, result) := WriteEvent(cfg, ready, gap, call.gap);
      WriteEventFrame(cfg, after.(dropped := 0, failing := false), call.kind, call.own);
    }
  }

  lemma {:induction false} MirrorHolds(cfg: Config, st: State, calls: seq<Call>)
    requires ValidConfig(cfg) && Mirrored(st) && forall i :: 0 <= i < |calls| ==> Consistent(calls[i])
    ensures Mirrored(Run(cfg, st, calls))
  {
    if calls != [] {
      MirrorHolds(cfg, st, calls[..|calls| - 1]);
      RecordMirrors(cfg, Run(cfg, st, calls[..|calls| - 1]), calls[|calls| - 1]);
    }
  }

  // ----- gaps on file -----

  /** The losses a part reports to a reader of the file: those of a gap record that is complete there. */
  function GapOf(enc: Encoder, part: Part): nat {
    if CompleteLine(enc, part) && part.event.kind.Gap? then part.event.kind.dropped else 0
  }

  /** The losses the gap records among some parts report, whether or not their write was acknowledged. */
  function GapsIn(enc: Encoder, parts: seq<Part>): nat {
    if parts == [] then 0 else GapsIn(enc, parts[..|parts| - 1]) + GapOf(enc, parts[|parts| - 1])
  }

  /** The part an acknowledged event leaves on file: its whole line. */
  ghost predicate OnFile(cfg: Config, part: Part, number: nat, kind: Kind) {
    && part.Line? && part.ok && CompleteLine(cfg.enc, part)
    && part.event.number == number && part.event.kind == kind
  }

  ghost predicate OneMore(cfg: Config, before: seq<Part>, after: seq<Part>, number: nat, kind: Kind) {
    |after| == |before| + 1 && after[..|before|] == before && OnFile(cfg, after[|before|], number, kind)
  }

  /** An acknowledged event is the next part on file; one that failed adds at most one part. */
  lemma WriteEventOnFile(cfg: Config, st: State, kind: Kind, f: Fault)
    requires ValidConfig(cfg) && cfg.hasFile
    ensures var (after, result) := WriteEvent(cfg, st, kind, f);
      && |st.log| <= |after.log| <= |st.log| + 1 && after.log[..|st.log|] == st.log
      && (result.Ok? ==> result.value == st.number + 1 == after.number && OneMore(cfg, st.log, after.log, st.number + 1, kind))
  {
    var event := Event(st.number + 1, f.stamp, kind);
    var room := EventSteps(cfg, st, kind, f);
    PutLineOnFile(cfg, room, event, f);
    assert st.log[..|st.log|] == st.log;
  }

  lemma PutLineOnFile(cfg: Config, st: State, event: Event, f: Fault)
    requires cfg.hasFile
    ensures var (after, result) := PutLine(cfg, st, event, f);
      && after.log == st.log + [PartOf(cfg, st, event, f)]
      && (result.Ok? ==> result.value == event.number == after.number)
      && (result.Ok? ==> OnFile(cfg, PartOf(cfg, st, event, f), event.number, event.kind))
  {
    FaithfulWhenOk(cfg, st, event, f);
  }

  lemma FaithfulWhenOk(cfg: Config, st: State, event: Event, f: Fault)
    ensures PartOf(cfg, st, event, f).ok ==> CompleteLine(cfg.enc, PartOf(cfg, st, event, f))
  {
  }

  lemma GapsNext(enc: Encoder, parts: seq<Part>, part: Part)
    ensures GapsIn(enc, parts + [part]) == GapsIn(enc, parts) + GapOf(enc, part)
  {
    assert (parts + [part])[..|parts|] == parts;
  }

  lemma GapsGrow(cfg: Config, st: State, kind: Kind, f: Fault)
    requires ValidConfig(cfg) && cfg.hasFile
    ensures var (after, result) := WriteEvent(cfg, st, kind, f);
      && GapsIn(cfg.enc, after.log) >= GapsIn(cfg.enc, st.log)
      && (result.Ok? && kind.Gap? ==> GapsIn(cfg.enc, after.log) == GapsIn(cfg.enc, st.log) + kind.dropped)
  {
    var (after, result) := WriteEvent(cfg, st, kind, f);
    WriteEventOnFile(cfg, st, kind, f);
    if |after.log| == |st.log| {
      assert after.log == st.log;
    } else {
      var part := after.log[|st.log|];
      assert after.log == st.log + [part];
      GapsNext(cfg.enc, st.log, part);
    }
  }

  lemma RecordReportsOnFile(cfg: Config, st: State, call: Call)
    requires ValidConfig(cfg) && cfg.hasFile
    ensures var o := Record(cfg, st, call);
      GapsIn(cfg.enc, o.state.log) >= GapsIn(cfg.enc, st.log) + o.reported
  {
    var ready := Absorb(cfg, st, call);
    if ready.dropped == 0 {
      GapsGrow(cfg, ready, call.kind, call.own);
    } else {
      var gap := Gap(ready.dropped, ready.reason);
      GapsGrow(cfg, ready, gap, call.gap);
      var (after, result) := WriteEvent(cfg, ready, gap, call.gap);
      GapsGrow(cfg, after.(dropped := 0, failing := false), call.kind, call.own);
    }
  }

  lemma {:induction false} ReportedIsOnFile(cfg: Config, st: State, calls: seq<Call>)
    requires ValidConfig(cfg) && cfg.hasFile
    ensures GapsIn(cfg.enc, Run(cfg, st, calls).log) >= GapsIn(cfg.enc, st.log) + RunTally(cfg, st, calls).reported
  {
    if calls != [] {
      var init := calls[..|calls| - 1];
      ReportedIsOnFile(cfg, st, init);
      RecordReportsOnFile(cfg, Run(cfg, st, init), calls[|calls| - 1]);
    }
  }

  /**
   * The gap records written out, with the losses still pending, account for
   * every loss. They may say more, for a gap whose write was not acknowledged
   * is repeated, but never less.
   */
  lemma GapsNeverUnderReport(cfg: Config, st: State, calls: seq<Call>)
    requires ValidConfig(cfg) && cfg.hasFile && st.dropped == 0
    requires RunTally(cfg, st, calls).errors + RunTally(cfg, st, calls).taken <= U64_MAX
    ensures var t, after := RunTally(cfg, st, calls), Run(cfg, st, calls);
      GapsIn(cfg.enc, after.log) + after.dropped >= t.errors + t.taken
  {
    LossesAreConserved(cfg, st, calls);
    ReportedIsOnFile(cfg, st, calls);
  }

  lemma GapsJoinLast(enc: Encoder, a: seq<Part>, init: seq<Part>, last: Part)
    requires GapsIn(enc, a + init) == GapsIn(enc, a) + GapsIn(enc, init)
    ensures GapsIn(enc, a + (init + [last])) == GapsIn(enc, a) + GapsIn(enc, init + [last])
  {
    ConcatAssoc(a, init, [last]);
    GapsNext(enc, a + init, last);
    GapsNext(enc, init, last);
  }

  lemma {:induction false} GapsJoin(enc: Encoder, a: seq<Part>, b: seq<Part>)
    ensures GapsIn(enc, a + b) == GapsIn(enc, a) + GapsIn(enc, b)
    decreases |b|
  {
    if b == [] {
      assert a + b == a;
    } else {
      var init, last := b[..|b| - 1], b[|b| - 1];
      GapsJoin(enc, a, init);
      GapsJoinLast(enc, a, init, last);
      assert b == init + [last];
    }
  }

  /** What has been written out and is in no file any more: rotated away, or put on a file without a name. */
  function Gone(cfg: Config, st: State): seq<Part> {
    var kept := Flat(st.disk, cfg.keep);
    if |kept| <= |st.log| then st.log[..|st.log| - |kept|] else []
  }

  /** The losses told by a gap record that nobody can read, being glued to a line found unfinished. */
  function GluedGap(cfg: Config, found: map<nat, Bytes>, st: State): nat
    requires cfg.hasFile ==> 0 in found
  {
    var start := |Opened(cfg, found).log|;
    if AuditStream.Kept(cfg, st) == Flat(st.disk, cfg.keep) || start >= |st.log| then 0 else GapOf(cfg.enc, st.log[start])
  }

  lemma GluedGaps(enc: Encoder, flat: seq<Part>, kept: seq<Part>, a: seq<Part>, live: Bytes, first: Part, b: seq<Part>)
    requires AuditStream.AllButOne(flat, kept, enc, a, live, first, b)
    ensures GapsIn(enc, flat) == GapsIn(enc, kept) + GapOf(enc, first)
  {
    var merged := Old(live + BytesOf(enc, first));
    GapsJoin(enc, a + [Old(live), first], b);
    GapsJoin(enc, a + [merged], b);
    GapsNext(enc, a, merged);
    GapsNext(enc, a, Old(live));
    GapsNext(enc, a + [Old(live)], first);
    assert a + [Old(live), first] == a + [Old(live)] + [first];
  }

  lemma LogSplits(cfg: Config, found: map<nat, Bytes>, calls: seq<Call>)
    requires OpensFile(cfg, found)
    ensures var st := Run(cfg, Opened(cfg, found), calls);
      GapsIn(cfg.enc, st.log) == GapsIn(cfg.enc, Gone(cfg, st)) + GapsIn(cfg.enc, Flat(st.disk, cfg.keep))
  {
    var st := Run(cfg, Opened(cfg, found), calls);
    AuditStream.RunFacts(cfg, found, calls);
    GoneAndKept(cfg, st);
    GapsJoin(cfg.enc, Gone(cfg, st), Flat(st.disk, cfg.keep));
  }

  lemma GoneAndKept(cfg: Config, st: State)
    requires Suffix(Flat(st.disk, cfg.keep), st.log)
    ensures st.log == Gone(cfg, st) + Flat(st.disk, cfg.keep)
  {
  }

  lemma KeptGaps(cfg: Config, found: map<nat, Bytes>, calls: seq<Call>)
    requires OpensFile(cfg, found)
    ensures var st := Run(cfg, Opened(cfg, found), calls);
      && GapsIn(cfg.enc, Flat(st.disk, cfg.keep)) == GapsIn(cfg.enc, AuditStream.Kept(cfg, st)) + GluedGap(cfg, found, st)
      && (Terminated(found[0]) ==> GluedGap(cfg, found, st) == 0)
  {
    var start, st := Opened(cfg, found), Run(cfg, Opened(cfg, found), calls);
    var flat, kept := Flat(st.disk, cfg.keep), AuditStream.Kept(cfg, st);
    var a, b := AuditStream.OnlyTheFirstIsGlued(cfg, found, calls);
    if kept != flat {
      GluedGaps(cfg.enc, flat, kept, a, found[0], st.log[|start.log|], b);
    }
  }

  /**
   * What a reader of the files finds reported, with what is gone with rotated
   * files, what a glued gap said and what is pending, accounts for every loss.
   * Nothing is glued when the live file was found finished.
   */
  lemma GapsToBeRead(cfg: Config, found: map<nat, Bytes>, calls: seq<Call>)
    requires OpensFile(cfg, found)
    requires RunTally(cfg, Opened(cfg, found), calls).errors + RunTally(cfg, Opened(cfg, found), calls).taken <= U64_MAX
    ensures var t, st := RunTally(cfg, Opened(cfg, found), calls), Run(cfg, Opened(cfg, found), calls);
      && GapsIn(cfg.enc, AuditStream.Kept(cfg, st)) + GapsIn(cfg.enc, Gone(cfg, st)) + GluedGap(cfg, found, st) + st.dropped
           >= t.errors + t.taken
      && (Terminated(found[0]) ==> GluedGap(cfg, found, st) == 0)
  {
    GapsNeverUnderReport(cfg, Opened(cfg, found), calls);
    LogSplits(cfg, found, calls);
    KeptGaps(cfg, found, calls);
  }

  /** A record acknowledged after losses is on file right behind the gap that counts them, one number apart. */
  lemma GapPrecedesRecord(cfg: Config, st: State, call: Call)
    requires ValidConfig(cfg) && cfg.hasFile
    requires Record(cfg, st, call).result.Ok? && Absorb(cfg, st, call).dropped > 0
    ensures var o, lost, n := Record(cfg, st, call), Absorb(cfg, st, call), |st.log|;
      && o.state.dropped == 0 && o.reported == lost.dropped
      && |o.state.log| == n + 2 && o.state.log[..n] == st.log
      && OnFile(cfg, o.state.log[n], st.number + 1, Gap(lost.dropped, lost.reason))
      && OnFile(cfg, o.state.log[n + 1], st.number + 2, call.kind)
  {
    var ready := Absorb(cfg, st, call);
    var gap := Gap(ready.dropped, ready.reason);
    WriteEventOnFile(cfg, ready, gap, call.gap);
    WriteEventFrame(cfg, ready, gap, call.gap);
    var (after, result) := WriteEvent(cfg, ready, gap, call.gap);
    var cleared := after.(dropped := 0, failing := false);
    WriteEventOnFile(cfg, cleared, call.kind, call.own);
    WriteEventFrame(cfg, cleared, call.kind, call.own);
    var last := Record(cfg, st, call).state.log;
    assert last[..|st.log| + 1] == after.log;
    assert last[..|st.log|] == after.log[..|st.log|];
  }

  // ----- the exporter never runs ahead of the file -----

  /** Some acknowledged line on file is this event's. */
  ghost predicate Filed(log: seq<Part>, e: Event) {
    exists i :: 0 <= i < |log| && log[i].Line? && log[i].ok && log[i].event == e
  }

  /** Exported events rise in number, none beyond the last given out; with a file, each is on it. */
  ghost predicate ExportBehindFile(cfg: Config, st: State) {
    && (forall i, j :: 0 <= i < j < |st.exported| ==> st.exported[i].number < st.exported[j].number)
    && (forall i :: 0 <= i < |st.exported| ==> st.exported[i].number <= st.number)
    && (cfg.hasFile ==> forall i :: 0 <= i < |st.exported| ==> Filed(st.log, st.exported[i]))
  }

  lemma FiledStays(log: seq<Part>, part: Part, e: Event)
    ensures Filed(log, e) ==> Filed(log + [part], e)
    ensures part.Line? && part.ok && part.event == e ==> Filed(log + [part], e)
  {
    var more := log + [part];
    if Filed(log, e) {
      var i :| 0 <= i < |log| && log[i].Line? && log[i].ok && log[i].event == e;
      assert more[i] == log[i];
    }
    assert more[|log|] == part;
  }

  /** A line more on file, and the number given out no smaller, cost nothing. */
  lemma LineAdded(cfg: Config, st: State, after: State, part: Part)
    requires ExportBehindFile(cfg, st) && after.exported == st.exported && after.number >= st.number
    requires cfg.hasFile ==> after.log == st.log + [part]
    ensures ExportBehindFile(cfg, after)
  {
    if cfg.hasFile {
      forall i | 0 <= i < |after.exported|
        ensures Filed(after.log, after.exported[i])
      {
        FiledStays(st.log, part, st.exported[i]);
      }
    }
  }

  /** One event more for the exporter, which the file has, under a number of its own. */
  lemma Accepted(cfg: Config, st: State, event: Event)
    requires ExportBehindFile(cfg, st) && st.number == event.number
    requires forall i :: 0 <= i < |st.exported| ==> st.exported[i].number < event.number
    requires cfg.hasFile ==> Filed(st.log, event)
    ensures ExportBehindFile(cfg, st.(exported := st.exported + [event]))
  {
  }

  lemma PutLineExports(cfg: Config, st: State, event: Event, f: Fault)
    requires ExportBehindFile(cfg, st) && event.number == st.number + 1
    ensures ExportBehindFile(cfg, PutLine(cfg, st, event, f).0)
  {
    var part, wrote := PartOf(cfg, st, event, f), if cfg.hasFile then WriteLine(cfg, st, event, f) else (st, true);
    LineAdded(cfg, st, wrote.0, part);
    if wrote.1 {
      var kept := wrote.0.(torn := false, number := event.number);
      LineAdded(cfg, st, kept, part);
      FiledStays(st.log, part, event);
      Accepted(cfg, kept, event);
    }
  }

  ghost function ExportFor(cfg: Config): State -> bool {
    (s: State) => ExportBehindFile(cfg, s)
  }

  /** Over every run: what the exporter accepted, it accepted in order and after the file had it. */
  lemma ExportNeverLeads(cfg: Config, st: State, calls: seq<Call>)
    requires ValidConfig(cfg) && st.exported == []
    ensures ExportBehindFile(cfg, Run(cfg, st, calls))
  {
    var inv := ExportFor(cfg);
    forall s, len, f | inv(s)
      ensures inv(MakeRoom(cfg, s, len, f).0)
    {
      MakeRoomFrame(cfg, s, len, f);
    }
    forall s, event, f | inv(s) && Fits(cfg, s, event)
      ensures inv(PutLine(cfg, s, event, f).0)
    {
      PutLineExports(cfg, s, event, f);
    }
    assert inv(st);
    RunStable(cfg, inv, AnyFault, st, calls);
    assert inv(Run(cfg, st, calls));
  }

  /** The bytes handed to the exporter are the record itself, repair newline or not. */
  lemma ExportedBytesAreTheRecord(enc: Encoder, event: Event, healed: bool)
    ensures ExportRecordBytes(LineOf(enc, event, healed), healed) == Some(enc(event))
  {
  }
}
